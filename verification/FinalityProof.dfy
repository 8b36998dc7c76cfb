/** L0 finality proofs (quantos-l0-sdk/src/types.rs, error.rs, verifier.rs): the byte layouts that are
    hashed, the message validators sign, and the stake tally of the verifier.  SHA3-256 and ML-DSA-65
    verification are arbitrary functions. */
module FinalityProof {
  import opened Bytes
  import opened Layout

  type Sha3 = seq<byte> -> Hash32

  const PROOF_VERSION: nat := 1

  /** "QUANTOS_CHECKPOINT_V1" */
  const DOMAIN_CHECKPOINT: seq<byte> :=
    [81, 85, 65, 78, 84, 79, 83, 95, 67, 72, 69, 67, 75, 80, 79, 73, 78, 84, 95, 86, 49]

  lemma DomainText()
    ensures DOMAIN_CHECKPOINT == Ascii("QUANTOS_CHECKPOINT_V1")
  {
  }

  datatype Header = Header(
    version: nat, externalChain: Option<seq<byte>>, epoch: nat, slot: nat,
    previousProofHash: Hash32, stateRoot: Hash32, dagRoot: Hash32, parentBlockHash: Hash32,
    chainWork: nat, validatorSetRoot: Hash32, totalStake: nat, stakeThreshold: nat,
    emittedAtMs: nat, starkCommitment: Hash32, checkpointHash: Hash32)

  datatype Validator = Validator(address: Hash32, publicKey: seq<byte>, stake: nat)

  /** The one signature algorithm is ML-DSA-65, written as the byte 1. */
  datatype Algo = MlDsa65

  datatype Signature = Signature(validatorIndex: nat, algo: Algo, signature: seq<byte>)

  datatype Proof = Proof(header: Header, validators: seq<Validator>, signatures: seq<Signature>)

  datatype Snapshot = Snapshot(root: Hash32, validators: seq<Validator>)

  // ------------------------------------------------------------------ integer widths

  predicate HeaderFits(h: Header) {
    && h.version <= U16_MAX && h.epoch <= U64_MAX && h.slot <= U64_MAX && h.emittedAtMs <= U64_MAX
    && h.chainWork <= U128_MAX && h.totalStake <= U128_MAX && h.stakeThreshold <= U128_MAX
  }

  predicate ValidatorsFit(vs: seq<Validator>) {
    forall i :: 0 <= i < |vs| ==> vs[i].stake <= U128_MAX && |vs[i].publicKey| <= U32_MAX
  }

  predicate SignaturesFit(sigs: seq<Signature>) {
    forall i :: 0 <= i < |sigs| ==> sigs[i].validatorIndex <= U32_MAX && |sigs[i].signature| <= U32_MAX
  }

  predicate ProofFits(p: Proof) {
    HeaderFits(p.header) && ValidatorsFit(p.validators) && SignaturesFit(p.signatures)
  }

  // ------------------------------------------------------------------ layouts

  function ValidatorItem(v: Validator): Item {
    Item(v.address, v.publicKey, BE(v.stake, 16))
  }

  function ValidatorItems(vs: seq<Validator>): (r: seq<Item>)
    ensures |r| == |vs|
  {
    seq(|vs|, i requires 0 <= i < |vs| => ValidatorItem(vs[i]))
  }

  /** The validator list as `compute_root` and `signing_digest` feed it to the hasher. */
  function ValidatorBytes(vs: seq<Validator>): seq<byte> {
    ItemsBytes(ValidatorItems(vs))
  }

  function SignatureItem(s: Signature): Item {
    Item(BE(s.validatorIndex, 4) + [1], s.signature, [])
  }

  function SignatureItems(sigs: seq<Signature>): (r: seq<Item>)
    ensures |r| == |sigs|
  {
    seq(|sigs|, i requires 0 <= i < |sigs| => SignatureItem(sigs[i]))
  }

  function ChainBytes(chain: Option<seq<byte>>): seq<byte> {
    match chain
    case Some(name) => [1] + name
    case None => [0]
  }

  function HeaderBytes(h: Header): seq<byte> {
    BE(h.version, 2) + ChainBytes(h.externalChain) + BE(h.epoch, 8) + BE(h.slot, 8)
    + h.previousProofHash + h.stateRoot + h.dagRoot + h.parentBlockHash
    + BE(h.chainWork, 16) + h.validatorSetRoot + BE(h.totalStake, 16) + BE(h.stakeThreshold, 16)
    + BE(h.emittedAtMs, 8)
  }

  function SigningPreimage(p: Proof): seq<byte> {
    HeaderBytes(p.header) + ValidatorBytes(p.validators)
  }

  function SigningDigest(sha3: Sha3, p: Proof): Hash32 {
    sha3(SigningPreimage(p))
  }

  function ProofPreimage(sha3: Sha3, p: Proof): seq<byte> {
    SigningDigest(sha3, p) + ItemsBytes(SignatureItems(p.signatures)) + p.header.starkCommitment
  }

  function ProofHash(sha3: Sha3, p: Proof): Hash32 {
    sha3(ProofPreimage(sha3, p))
  }

  // ------------------------------------------------------------------ the writers

  method ComputeRoot(sha3: Sha3, records: seq<Validator>) returns (root: Hash32)
    ensures root == sha3(ValidatorBytes(records))
  {
    var buf := AbsorbValidators([], records);
    assert [] + ValidatorBytes(records) == ValidatorBytes(records);
    root := sha3(buf);
  }

  method AbsorbValidators(start: seq<byte>, vs: seq<Validator>) returns (buf: seq<byte>)
    ensures buf == start + ValidatorBytes(vs)
  {
    buf := start;
    for i := 0 to |vs|
      invariant buf == start + ItemsBytes(ValidatorItems(vs)[..i])
    {
      AppendValidator(start, vs, i);
      buf := buf + vs[i].address;
      buf := buf + BE(|vs[i].publicKey|, 4);
      buf := buf + vs[i].publicKey;
      buf := buf + BE(vs[i].stake, 16);
    }
    assert ValidatorItems(vs)[..|vs|] == ValidatorItems(vs);
  }

  lemma AppendValidator(start: seq<byte>, vs: seq<Validator>, i: nat)
    requires i < |vs|
    ensures var (items, v) := (ValidatorItems(vs), vs[i]);
            start + ItemsBytes(items[..i]) + v.address + BE(|v.publicKey|, 4) + v.publicKey + BE(v.stake, 16)
            == start + ItemsBytes(items[..i + 1])
  {
    AppendNext(start, ValidatorItems(vs), i);
  }

  method AbsorbSignatures(start: seq<byte>, sigs: seq<Signature>) returns (buf: seq<byte>)
    ensures buf == start + ItemsBytes(SignatureItems(sigs))
  {
    buf := start;
    for i := 0 to |sigs|
      invariant buf == start + ItemsBytes(SignatureItems(sigs)[..i])
    {
      AppendSignature(start, sigs, i);
      buf := buf + BE(sigs[i].validatorIndex, 4);
      buf := buf + [1];
      buf := buf + BE(|sigs[i].signature|, 4);
      buf := buf + sigs[i].signature;
    }
    assert SignatureItems(sigs)[..|sigs|] == SignatureItems(sigs);
  }

  lemma AppendSignature(start: seq<byte>, sigs: seq<Signature>, i: nat)
    requires i < |sigs|
    ensures var (items, s) := (SignatureItems(sigs), sigs[i]);
            start + ItemsBytes(items[..i]) + BE(s.validatorIndex, 4) + [1] + BE(|s.signature|, 4) + s.signature
            == start + ItemsBytes(items[..i + 1])
  {
    AppendNext(start, SignatureItems(sigs), i);
    Associative(start + ItemsBytes(SignatureItems(sigs)[..i]), BE(sigs[i].validatorIndex, 4), [1]);
  }

  method ComputeSigningDigest(sha3: Sha3, p: Proof) returns (digest: Hash32)
    ensures digest == SigningDigest(sha3, p)
  {
    var h := p.header;
    var buf := BE(h.version, 2);
    if h.externalChain.Some? {
      ghost var was := buf;
      buf := buf + [1];
      buf := buf + h.externalChain.value;
      assert buf == was + ChainBytes(h.externalChain);
    } else {
      buf := buf + [0];
    }
    buf := buf + BE(h.epoch, 8);
    buf := buf + BE(h.slot, 8);
    buf := buf + h.previousProofHash;
    buf := buf + h.stateRoot;
    buf := buf + h.dagRoot;
    buf := buf + h.parentBlockHash;
    buf := buf + BE(h.chainWork, 16);
    buf := buf + h.validatorSetRoot;
    buf := buf + BE(h.totalStake, 16);
    buf := buf + BE(h.stakeThreshold, 16);
    buf := buf + BE(h.emittedAtMs, 8);
    buf := AbsorbValidators(buf, p.validators);
    digest := sha3(buf);
  }

  method ComputeProofHash(sha3: Sha3, p: Proof) returns (hash: Hash32)
    ensures hash == ProofHash(sha3, p)
  {
    var buf: seq<byte> := ComputeSigningDigest(sha3, p);
    buf := AbsorbSignatures(buf, p.signatures);
    buf := buf + p.header.starkCommitment;
    hash := sha3(buf);
  }

  // ------------------------------------------------------------------ what the layouts bind

  /** The validator list is recovered from its bytes: lists of any length never coincide. */
  lemma ValidatorsBind(a: seq<Validator>, b: seq<Validator>)
    requires ValidatorsFit(a) && ValidatorsFit(b) && ValidatorBytes(a) == ValidatorBytes(b)
    ensures a == b
  {
    ItemsBind(ValidatorItems(a), ValidatorItems(b), 32, 16);
    Widths();
    forall i | 0 <= i < |a| ensures a[i] == b[i] {
      assert ValidatorItems(a)[i] == ValidatorItems(b)[i];
      BEInjective(a[i].stake, b[i].stake, 16);
    }
  }

  lemma SignaturesBind(a: seq<Signature>, b: seq<Signature>)
    requires SignaturesFit(a) && SignaturesFit(b)
    requires ItemsBytes(SignatureItems(a)) == ItemsBytes(SignatureItems(b))
    ensures a == b
  {
    ItemsBind(SignatureItems(a), SignatureItems(b), 5, 0);
    Widths();
    forall i | 0 <= i < |a| ensures a[i] == b[i] {
      assert SignatureItems(a)[i] == SignatureItems(b)[i];
      SplitEqual(BE(a[i].validatorIndex, 4), [1], BE(b[i].validatorIndex, 4), [1]);
      BEInjective(a[i].validatorIndex, b[i].validatorIndex, 4);
    }
  }

  /** The header without the two fields the digest leaves out. */
  function Covered(h: Header): Header {
    h.(starkCommitment := ZERO_HASH, checkpointHash := ZERO_HASH)
  }

  function NameLength(h: Header): nat {
    if h.externalChain.Some? then |h.externalChain.value| else 0
  }

  lemma HeaderLength(h: Header)
    ensures |HeaderBytes(h)| == 235 + NameLength(h)
  {
  }

  /** The third byte tells external proofs from native ones. */
  lemma HeaderMark(h: Header)
    ensures |HeaderBytes(h)| > 2 && HeaderBytes(h)[2] == if h.externalChain.Some? then 1 else 0
  {
    var mark := if h.externalChain.Some? then 1 else 0;
    var p := BE(h.version, 2) + ChainBytes(h.externalChain);
    assert |p| > 2 && p[2] == mark;
    p := p + BE(h.epoch, 8) + BE(h.slot, 8);
    assert |p| > 2 && p[2] == mark;
    p := p + h.previousProofHash + h.stateRoot + h.dagRoot + h.parentBlockHash;
    assert |p| > 2 && p[2] == mark;
    p := p + BE(h.chainWork, 16) + h.validatorSetRoot + BE(h.totalStake, 16) + BE(h.stakeThreshold, 16);
    assert |p| > 2 && p[2] == mark;
    p := p + BE(h.emittedAtMs, 8);
    assert HeaderBytes(h) == p;
  }

  /** The hashes and counters after the chain name. */
  lemma FixedFieldsBind(a: Header, b: Header)
    requires HeaderFits(a) && HeaderFits(b) && HeaderBytes(a) == HeaderBytes(b)
    ensures ChainBytes(a.externalChain) == ChainBytes(b.externalChain)
    ensures Covered(a) == Covered(b).(externalChain := a.externalChain)
  {
    Widths();
    var x, y := HeaderBytes(a), HeaderBytes(b);
    x, y := Peel(x, y, x[..|x| - 8], BE(a.emittedAtMs, 8), y[..|y| - 8], BE(b.emittedAtMs, 8));
    BEInjective(a.emittedAtMs, b.emittedAtMs, 8);
    x, y := Peel(x, y, x[..|x| - 16], BE(a.stakeThreshold, 16), y[..|y| - 16], BE(b.stakeThreshold, 16));
    BEInjective(a.stakeThreshold, b.stakeThreshold, 16);
    x, y := Peel(x, y, x[..|x| - 16], BE(a.totalStake, 16), y[..|y| - 16], BE(b.totalStake, 16));
    BEInjective(a.totalStake, b.totalStake, 16);
    x, y := Peel(x, y, x[..|x| - 32], a.validatorSetRoot, y[..|y| - 32], b.validatorSetRoot);
    x, y := Peel(x, y, x[..|x| - 16], BE(a.chainWork, 16), y[..|y| - 16], BE(b.chainWork, 16));
    BEInjective(a.chainWork, b.chainWork, 16);
    x, y := Peel(x, y, x[..|x| - 32], a.parentBlockHash, y[..|y| - 32], b.parentBlockHash);
    x, y := Peel(x, y, x[..|x| - 32], a.dagRoot, y[..|y| - 32], b.dagRoot);
    x, y := Peel(x, y, x[..|x| - 32], a.stateRoot, y[..|y| - 32], b.stateRoot);
    x, y := Peel(x, y, x[..|x| - 32], a.previousProofHash, y[..|y| - 32], b.previousProofHash);
    x, y := Peel(x, y, x[..|x| - 8], BE(a.slot, 8), y[..|y| - 8], BE(b.slot, 8));
    BEInjective(a.slot, b.slot, 8);
    x, y := Peel(x, y, x[..|x| - 8], BE(a.epoch, 8), y[..|y| - 8], BE(b.epoch, 8));
    BEInjective(a.epoch, b.epoch, 8);
    SplitEqual(BE(a.version, 2), ChainBytes(a.externalChain), BE(b.version, 2), ChainBytes(b.externalChain));
    BEInjective(a.version, b.version, 2);
  }

  /** Two proofs with one signing preimage are both native or both external, and they agree on every
      covered field and on the validator list exactly when their chain names are equally long; for
      native proofs that is always. */
  lemma SigningLayoutBinds(p: Proof, q: Proof)
    requires ProofFits(p) && ProofFits(q) && SigningPreimage(p) == SigningPreimage(q)
    ensures p.header.externalChain.Some? == q.header.externalChain.Some?
    ensures Covered(p.header) == Covered(q.header) && p.validators == q.validators
            <==> NameLength(p.header) == NameLength(q.header)
  {
    HeaderLength(p.header);
    HeaderLength(q.header);
    HeaderMark(p.header);
    HeaderMark(q.header);
    assert SigningPreimage(p)[2] == HeaderBytes(p.header)[2] && SigningPreimage(q)[2] == HeaderBytes(q.header)[2];
    if NameLength(p.header) == NameLength(q.header) {
      SplitEqual(HeaderBytes(p.header), ValidatorBytes(p.validators),
                 HeaderBytes(q.header), ValidatorBytes(q.validators));
      FixedFieldsBind(p.header, q.header);
      ChainBind(p.header.externalChain, q.header.externalChain);
      ValidatorsBind(p.validators, q.validators);
    }
  }

  lemma ChainBind(a: Option<seq<byte>>, b: Option<seq<byte>>)
    requires ChainBytes(a) == ChainBytes(b)
    ensures a == b
  {
    assert ChainBytes(a)[0] == (if a.Some? then 1 else 0) && ChainBytes(b)[0] == if b.Some? then 1 else 0;
    if a.Some? {
      SplitEqual([1], a.value, [1], b.value);
    }
  }

  // ------------------------------------------------------------------ names of unequal length

  lemma {:induction false} BEZero(k: nat)
    ensures BE(0, k) == Zeros(k)
  {
    if k > 0 { BEZero(k - 1); }
  }

  lemma {:induction false} LEZero(k: nat)
    ensures LE(0, k) == Zeros(k)
  {
    if k > 0 { LEZero(k - 1); }
  }

  function PlainHeader(name: seq<byte>, epoch: nat): Header {
    Header(PROOF_VERSION, Some(name), epoch, 0, ZERO_HASH, ZERO_HASH, ZERO_HASH, ZERO_HASH, 0, ZERO_HASH, 0, 0, 0,
           ZERO_HASH, ZERO_HASH)
  }

  lemma PlainHeaderBytes(name: seq<byte>, epoch: nat)
    ensures HeaderBytes(PlainHeader(name, epoch)) == BE(PROOF_VERSION, 2) + ([1] + name) + BE(epoch, 8) + Zeros(224)
  {
    BEZero(8);
    BEZero(16);
    LEZero(32);
    var start := BE(PROOF_VERSION, 2) + ([1] + name) + BE(epoch, 8);
    MoreZeros(start, 8, 32);
    MoreZeros(start, 40, 32);
    MoreZeros(start, 72, 32);
    MoreZeros(start, 104, 32);
    MoreZeros(start, 136, 16);
    MoreZeros(start, 152, 32);
    MoreZeros(start, 184, 16);
    MoreZeros(start, 200, 16);
    MoreZeros(start, 216, 8);
  }

  lemma MoreZeros(start: seq<byte>, m: nat, n: nat)
    ensures start + Zeros(m) + Zeros(n) == start + Zeros(m + n)
  {
  }

  function NamedProof(name: seq<byte>, epoch: nat): Proof {
    Proof(PlainHeader(name, epoch), [Validator(ZERO_HASH, Zeros(8), 0)], [])
  }

  function ShiftedProof(name: seq<byte>): Proof {
    Proof(PlainHeader(name, 0), [Validator(Zeros(24) + BE(8, 4) + Zeros(4), [], 0)], [])
  }

  /** The chain name is not length-prefixed, so the condition on name lengths is needed: for every
      name and every eight further bytes, an external proof for the short name and one for the long
      name have the same signing preimage. */
  lemma NamesCollide(name: seq<byte>, more: seq<byte>)
    requires |more| == 8
    ensures ProofFits(NamedProof(name, FromBE(more))) && ProofFits(ShiftedProof(name + more))
    ensures SigningPreimage(NamedProof(name, FromBE(more))) == SigningPreimage(ShiftedProof(name + more))
    ensures NamedProof(name, FromBE(more)).header != ShiftedProof(name + more).header
  {
    Widths();
    BEOfFromBE(more);
    NamedBytes(name, FromBE(more));
    ShiftedBytes(name + more);
    SameString(BE(PROOF_VERSION, 2), name, more, BE(8, 4));
    assert |name| != |name + more|;
  }

  lemma NamedBytes(name: seq<byte>, epoch: nat)
    ensures SigningPreimage(NamedProof(name, epoch))
            == BE(PROOF_VERSION, 2) + ([1] + name) + BE(epoch, 8) + Zeros(224)
               + (Zeros(32) + BE(8, 4) + Zeros(8) + Zeros(16))
  {
    BEZero(16);
    LEZero(32);
    PlainHeaderBytes(name, epoch);
    OneItem(NamedProof(name, epoch).validators);
  }

  lemma ShiftedBytes(name: seq<byte>)
    ensures SigningPreimage(ShiftedProof(name))
            == BE(PROOF_VERSION, 2) + ([1] + name) + Zeros(8) + Zeros(224)
               + (Zeros(24) + BE(8, 4) + Zeros(4) + Zeros(4) + [] + Zeros(16))
  {
    BEZero(4);
    BEZero(8);
    BEZero(16);
    PlainHeaderBytes(name, 0);
    OneItem(ShiftedProof(name).validators);
  }

  lemma SameString(v: seq<byte>, name: seq<byte>, more: seq<byte>, length: seq<byte>)
    ensures v + ([1] + name) + more + Zeros(224) + (Zeros(32) + length + Zeros(8) + Zeros(16))
            == v + ([1] + (name + more)) + Zeros(8) + Zeros(224)
               + (Zeros(24) + length + Zeros(4) + Zeros(4) + [] + Zeros(16))
  {
    assert Zeros(224) + (Zeros(32) + length + Zeros(8) + Zeros(16)) == Zeros(256) + length + Zeros(24);
    assert Zeros(8) + Zeros(224) + (Zeros(24) + length + Zeros(4) + Zeros(4) + [] + Zeros(16))
           == Zeros(256) + length + Zeros(24);
    var tail := Zeros(256) + length + Zeros(24);
    var x, y := v + ([1] + name) + more, v + ([1] + (name + more));
    assert x == y;
    assert x + Zeros(224) + (Zeros(32) + length + Zeros(8) + Zeros(16)) == x + tail;
    assert y + Zeros(8) + Zeros(224) + (Zeros(24) + length + Zeros(4) + Zeros(4) + [] + Zeros(16)) == y + tail;
  }

  lemma OneItem(vs: seq<Validator>)
    requires |vs| == 1
    ensures ValidatorBytes(vs) == vs[0].address + BE(|vs[0].publicKey|, 4) + vs[0].publicKey + BE(vs[0].stake, 16)
  {
    var items := ValidatorItems(vs);
    assert items[1..] == [];
    assert ItemsBytes(items) == ItemBytes(items[0]) + ItemsBytes([]);
  }

  // ------------------------------------------------------------------ what the proof hash binds

  ghost predicate Collision(sha3: Sha3, x: seq<byte>, y: seq<byte>) {
    x != y && sha3(x) == sha3(y)
  }

  /** Equal proof hashes mean equal signatures in order, equal STARK commitments and equal signing
      preimages, or exhibit a SHA3 collision. */
  lemma ProofHashBinds(sha3: Sha3, p: Proof, q: Proof)
    requires ProofFits(p) && ProofFits(q) && ProofHash(sha3, p) == ProofHash(sha3, q)
    ensures || Collision(sha3, ProofPreimage(sha3, p), ProofPreimage(sha3, q))
            || Collision(sha3, SigningPreimage(p), SigningPreimage(q))
            || (&& p.signatures == q.signatures
                && p.header.starkCommitment == q.header.starkCommitment
                && SigningPreimage(p) == SigningPreimage(q))
  {
    if ProofPreimage(sha3, p) == ProofPreimage(sha3, q) {
      var a, b := SigningDigest(sha3, p), SigningDigest(sha3, q);
      var s, t := ItemsBytes(SignatureItems(p.signatures)), ItemsBytes(SignatureItems(q.signatures));
      SplitEqualRight(a + s, p.header.starkCommitment, b + t, q.header.starkCommitment);
      SplitEqual<byte>(a, s, b, t);
      SignaturesBind(p.signatures, q.signatures);
    }
  }

  // ------------------------------------------------------------------ the signed message

  predicate SignsCheckpoint(p: Proof) {
    p.header.externalChain.None? && p.header.checkpointHash != ZERO_HASH
  }

  function SignedMessage(sha3: Sha3, p: Proof): seq<byte> {
    if SignsCheckpoint(p) then WithDomain(DOMAIN_CHECKPOINT, p.header.checkpointHash)
    else SigningDigest(sha3, p)
  }

  /** Both of one kind, with the same checkpoint hash, or the same signing digest. */
  predicate SameMessage(sha3: Sha3, p: Proof, q: Proof) {
    && SignsCheckpoint(p) == SignsCheckpoint(q)
    && (if SignsCheckpoint(p) then p.header.checkpointHash == q.header.checkpointHash
        else SigningDigest(sha3, p) == SigningDigest(sha3, q))
  }

  /** Checkpoint messages and digest messages never coincide; within a kind the message is the same
      exactly when the checkpoint hash, or the signing digest, is. */
  lemma SignedMessagesAgreeIff(sha3: Sha3, p: Proof, q: Proof)
    ensures SignedMessage(sha3, p) == SignedMessage(sha3, q) <==> SameMessage(sha3, p, q)
  {
    if SignsCheckpoint(p) && SignsCheckpoint(q) && SignedMessage(sha3, p) == SignedMessage(sha3, q) {
      TagsBind(DOMAIN_CHECKPOINT, p.header.checkpointHash, DOMAIN_CHECKPOINT, q.header.checkpointHash);
    }
    assert SignsCheckpoint(p) ==> |SignedMessage(sha3, p)| == 55;
    assert SignsCheckpoint(q) ==> |SignedMessage(sha3, q)| == 55;
  }

  /** A native proof with a checkpoint hash that is not all zeros signs that hash under its domain tag; every other
      proof signs its digest. */
  lemma MessageIs(sha3: Sha3, p: Proof)
    ensures var (m, h) := (SignedMessage(sha3, p), p.header);
            var marked := h.externalChain.None? && exists i :: 0 <= i < 32 && h.checkpointHash[i] != 0;
            && (marked ==> |m| == 55 && m[2..23] == DOMAIN_CHECKPOINT && m[23..] == h.checkpointHash)
            && (!marked ==> m == SigningDigest(sha3, p))
  {
    var h := p.header.checkpointHash;
    LEZero(32);
    assert h == ZERO_HASH <==> forall i :: 0 <= i < 32 ==> h[i] == 0;
  }

  // ------------------------------------------------------------------ stake tallies

  function SaturatingAdd(a: nat, b: nat): nat {
    if a + b > U128_MAX then U128_MAX else a + b
  }

  /** The stake a signature stands for, if its index names a validator. */
  function StakeBehind(vs: seq<Validator>, s: Signature): nat {
    if s.validatorIndex < |vs| then vs[s.validatorIndex].stake else 0
  }

  /** `signed_stake`: a left fold with saturating addition. */
  function SignedStake(vs: seq<Validator>, sigs: seq<Signature>): nat {
    if sigs == [] then 0
    else
      var acc, last := SignedStake(vs, sigs[..|sigs| - 1]), sigs[|sigs| - 1];
      if last.validatorIndex < |vs| then SaturatingAdd(acc, vs[last.validatorIndex].stake) else acc
  }

  function ExactStake(vs: seq<Validator>, sigs: seq<Signature>): nat {
    if sigs == [] then 0 else ExactStake(vs, sigs[..|sigs| - 1]) + StakeBehind(vs, sigs[|sigs| - 1])
  }

  /** Saturating step by step is the exact sum cut off once, whatever the order of the signatures. */
  lemma {:induction false} SaturationIsOneCut(vs: seq<Validator>, sigs: seq<Signature>)
    ensures SignedStake(vs, sigs) == Min(ExactStake(vs, sigs), U128_MAX)
  {
    if sigs != [] { SaturationIsOneCut(vs, sigs[..|sigs| - 1]); }
  }

  predicate MeetsThreshold(p: Proof) {
    SignedStake(p.validators, p.signatures) >= p.header.stakeThreshold
  }

  function TotalStake(vs: seq<Validator>): nat {
    if vs == [] then 0 else SaturatingAdd(TotalStake(vs[..|vs| - 1]), vs[|vs| - 1].stake)
  }

  // ------------------------------------------------------------------ verification

  datatype L0Error = UnsupportedVersion(version: nat) | UnknownValidatorSet | InvalidCheckpoint

  datatype Report = Report(signedStake: nat, stakeThreshold: nat, validSignatures: nat, invalidSignatures: nat) {
    predicate IsFinal() { invalidSignatures == 0 && signedStake >= stakeThreshold }
  }

  datatype Outcome = Ok(report: Report) | Err(error: L0Error)

  /** ML-DSA-65 on a public key, a message and a signature; a malformed input counts as false. */
  type MlDsa = (seq<byte>, seq<byte>, seq<byte>) -> bool

  predicate Verifies(mldsa: MlDsa, vs: seq<Validator>, message: seq<byte>, s: Signature) {
    s.validatorIndex < |vs| && mldsa(vs[s.validatorIndex].publicKey, message, s.signature)
  }

  function Verified(mldsa: MlDsa, vs: seq<Validator>, message: seq<byte>, sigs: seq<Signature>): (r: seq<Signature>)
    ensures |r| <= |sigs|
  {
    if sigs == [] then []
    else
      var front := Verified(mldsa, vs, message, sigs[..|sigs| - 1]);
      if Verifies(mldsa, vs, message, sigs[|sigs| - 1]) then front + [sigs[|sigs| - 1]] else front
  }

  /** Why a proof is turned away before any signature is looked at. */
  function Refusal(p: Proof, snapshot: Snapshot): Option<L0Error> {
    if p.header.version != PROOF_VERSION then Some(UnsupportedVersion(p.header.version))
    else if p.header.validatorSetRoot != snapshot.root then Some(UnknownValidatorSet)
    else if |p.validators| != |snapshot.validators| then Some(UnknownValidatorSet)
    else if p.header.totalStake != TotalStake(snapshot.validators) then Some(InvalidCheckpoint)
    else None
  }

  function ExactTotal(vs: seq<Validator>): nat {
    if vs == [] then 0 else ExactTotal(vs[..|vs| - 1]) + vs[|vs| - 1].stake
  }

  lemma {:induction false} TotalIsOneCut(vs: seq<Validator>)
    ensures TotalStake(vs) == Min(ExactTotal(vs), U128_MAX)
  {
    if vs != [] { TotalIsOneCut(vs[..|vs| - 1]); }
  }

  /** Signatures are looked at exactly for a proof of version one that names the snapshot's root, has as many validators
      and gives the snapshot's stake, cut at u128::MAX; the error says what was wrong first. */
  lemma RefusedIff(p: Proof, snapshot: Snapshot)
    ensures var (r, h) := (Refusal(p, snapshot), p.header);
            var sameSet := h.validatorSetRoot == snapshot.root && |p.validators| == |snapshot.validators|;
            var total := Min(ExactTotal(snapshot.validators), U128_MAX);
            && (r.None? <==> h.version == 1 && sameSet && h.totalStake == total)
            && (r == Some(UnsupportedVersion(h.version)) <==> h.version != 1)
            && (r == Some(UnknownValidatorSet) <==> h.version == 1 && !sameSet)
            && (r == Some(InvalidCheckpoint) <==> h.version == 1 && sameSet && h.totalStake != total)
  {
    TotalIsOneCut(snapshot.validators);
  }

  function Tally(sha3: Sha3, mldsa: MlDsa, p: Proof): Report {
    var good := Verified(mldsa, p.validators, SignedMessage(sha3, p), p.signatures);
    Report(SignedStake(p.validators, good), p.header.stakeThreshold, |good|, |p.signatures| - |good|)
  }

  lemma VerifiedStep(mldsa: MlDsa, vs: seq<Validator>, message: seq<byte>, sigs: seq<Signature>, i: nat)
    requires i < |sigs|
    ensures var good, ok := Verified(mldsa, vs, message, sigs[..i]), Verifies(mldsa, vs, message, sigs[i]);
            && Verified(mldsa, vs, message, sigs[..i + 1]) == (if ok then good + [sigs[i]] else good)
            && (ok ==> SignedStake(vs, good + [sigs[i]])
                       == SaturatingAdd(SignedStake(vs, good), vs[sigs[i].validatorIndex].stake))
  {
    var good := Verified(mldsa, vs, message, sigs[..i]);
    assert sigs[..i + 1][..i] == sigs[..i];
    assert (good + [sigs[i]])[..|good|] == good;
  }

  method VerifyProof(sha3: Sha3, mldsa: MlDsa, p: Proof, snapshot: Snapshot) returns (r: Outcome)
    ensures r == match Refusal(p, snapshot)
                 case Some(e) => Err(e)
                 case None => Ok(Tally(sha3, mldsa, p))
  {
    var refusal := Refusal(p, snapshot);
    if refusal.Some? { return Err(refusal.value); }
    var message := SignedMessage(sha3, p);
    var signedStake, valid, invalid := 0, 0, 0;
    ghost var good: seq<Signature> := [];
    for i := 0 to |p.signatures|
      invariant good == Verified(mldsa, p.validators, message, p.signatures[..i])
      invariant valid == |good| && valid + invalid == i && signedStake == SignedStake(p.validators, good)
    {
      var sig := p.signatures[i];
      VerifiedStep(mldsa, p.validators, message, p.signatures, i);
      if sig.validatorIndex >= |p.validators| {
        invalid := invalid + 1;
        continue;
      }
      var validator := p.validators[sig.validatorIndex];
      if mldsa(validator.publicKey, message, sig.signature) {
        valid := valid + 1;
        signedStake := SaturatingAdd(signedStake, validator.stake);
        good := good + [sig];
      } else {
        invalid := invalid + 1;
      }
    }
    assert p.signatures[..|p.signatures|] == p.signatures;
    r := Ok(Report(signedStake, p.header.stakeThreshold, valid, invalid));
  }

  lemma {:induction false} VerifiedStakeBounded(mldsa: MlDsa, vs: seq<Validator>, message: seq<byte>,
                                                sigs: seq<Signature>)
    ensures ExactStake(vs, Verified(mldsa, vs, message, sigs)) <= ExactStake(vs, sigs)
  {
    if sigs != [] {
      var front := Verified(mldsa, vs, message, sigs[..|sigs| - 1]);
      VerifiedStakeBounded(mldsa, vs, message, sigs[..|sigs| - 1]);
      assert (front + [sigs[|sigs| - 1]])[..|front|] == front;
    }
  }

  lemma {:induction false} AllVerified(mldsa: MlDsa, vs: seq<Validator>, message: seq<byte>, sigs: seq<Signature>)
    ensures |Verified(mldsa, vs, message, sigs)| == |sigs| <==>
            forall i :: 0 <= i < |sigs| ==> Verifies(mldsa, vs, message, sigs[i])
    ensures |Verified(mldsa, vs, message, sigs)| == |sigs| ==> Verified(mldsa, vs, message, sigs) == sigs
  {
    if sigs != [] {
      AllVerified(mldsa, vs, message, sigs[..|sigs| - 1]);
      assert sigs == sigs[..|sigs| - 1] + [sigs[|sigs| - 1]];
    }
  }

  /** Every report counts every signature once and never reports more stake than `signed_stake`; it is
      final exactly when every signature verifies and the proof meets its threshold. */
  lemma ReportIsFinalIff(sha3: Sha3, mldsa: MlDsa, p: Proof)
    ensures var report := Tally(sha3, mldsa, p);
            && report.validSignatures + report.invalidSignatures == |p.signatures|
            && report.signedStake <= SignedStake(p.validators, p.signatures)
            && (report.invalidSignatures == 0 ==> report.signedStake == SignedStake(p.validators, p.signatures))
            && (report.IsFinal() <==>
                  && (forall i :: 0 <= i < |p.signatures| ==>
                        Verifies(mldsa, p.validators, SignedMessage(sha3, p), p.signatures[i]))
                  && MeetsThreshold(p))
            && (report.IsFinal() ==> forall i :: 0 <= i < |p.signatures| ==>
                  && p.signatures[i].validatorIndex < |p.validators|
                  && mldsa(p.validators[p.signatures[i].validatorIndex].publicKey, SignedMessage(sha3, p),
                           p.signatures[i].signature))
  {
    var message := SignedMessage(sha3, p);
    var good := Verified(mldsa, p.validators, message, p.signatures);
    SaturationIsOneCut(p.validators, good);
    SaturationIsOneCut(p.validators, p.signatures);
    VerifiedStakeBounded(mldsa, p.validators, message, p.signatures);
    AllVerified(mldsa, p.validators, message, p.signatures);
  }
}
