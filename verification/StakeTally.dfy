/** What the stake in a verification report stands for (quantos-l0-sdk/src/verifier.rs, types.rs, error.rs):
    entries against signers, and the proof's validators against the snapshot's. */
module StakeTally {
  import opened Bytes
  import opened FinalityProof

  /** The validators that signatures name, each once. */
  function Signers(sigs: seq<Signature>): set<nat> {
    set i | 0 <= i < |sigs| :: sigs[i].validatorIndex
  }

  /** The stake of the first `n` validators that are in `who`. */
  function StakeOf(vs: seq<Validator>, who: set<nat>, n: nat): nat
    requires n <= |vs|
  {
    if n == 0 then 0 else StakeOf(vs, who, n - 1) + if n - 1 in who then vs[n - 1].stake else 0
  }

  function SignerStake(vs: seq<Validator>, sigs: seq<Signature>): nat {
    StakeOf(vs, Signers(sigs), |vs|)
  }

  lemma {:induction false} StakeOfMore(vs: seq<Validator>, who: set<nat>, j: nat, n: nat)
    requires n <= |vs|
    ensures StakeOf(vs, who + {j}, n) == StakeOf(vs, who, n) + if j !in who && j < n then vs[j].stake else 0
  {
    if n > 0 { StakeOfMore(vs, who, j, n - 1); }
  }

  lemma {:induction false} StakeOfNone(vs: seq<Validator>, n: nat)
    requires n <= |vs|
    ensures StakeOf(vs, {}, n) == 0
  {
    if n > 0 { StakeOfNone(vs, n - 1); }
  }

  lemma {:induction false} StakeOfAll(vs: seq<Validator>, who: set<nat>, n: nat)
    requires n <= |vs|
    ensures Min(StakeOf(vs, who, n), U128_MAX) <= TotalStake(vs[..n])
  {
    if n > 0 {
      StakeOfAll(vs, who, n - 1);
      assert vs[..n][..n - 1] == vs[..n - 1];
    }
  }

  /** No validator with stake is named twice. */
  ghost predicate CountsOnce(vs: seq<Validator>, sigs: seq<Signature>) {
    forall i, j :: 0 <= i < j < |sigs| && sigs[i].validatorIndex == sigs[j].validatorIndex ==>
      StakeBehind(vs, sigs[j]) == 0
  }

  lemma CountsOnceNext(vs: seq<Validator>, sigs: seq<Signature>)
    requires sigs != []
    ensures var (front, last) := (sigs[..|sigs| - 1], sigs[|sigs| - 1]);
            && Signers(sigs) == Signers(front) + {last.validatorIndex}
            && (CountsOnce(vs, sigs) <==>
                  CountsOnce(vs, front) && (last.validatorIndex in Signers(front) ==> StakeBehind(vs, last) == 0))
  {
    var front, n := sigs[..|sigs| - 1], |sigs| - 1;
    assert forall i :: 0 <= i < n ==> front[i] == sigs[i];
  }

  /** Counting entries never gives less than the signers' stake, and gives exactly it when and only when no
      validator with stake is named twice. */
  lemma {:induction false} EntriesAgainstSigners(vs: seq<Validator>, sigs: seq<Signature>)
    ensures ExactStake(vs, sigs) >= SignerStake(vs, sigs)
    ensures ExactStake(vs, sigs) == SignerStake(vs, sigs) <==> CountsOnce(vs, sigs)
  {
    if sigs == [] {
      StakeOfNone(vs, |vs|);
      assert Signers(sigs) == {};
    } else {
      var front, last := sigs[..|sigs| - 1], sigs[|sigs| - 1];
      EntriesAgainstSigners(vs, front);
      CountsOnceNext(vs, sigs);
      StakeOfMore(vs, Signers(front), last.validatorIndex, |vs|);
    }
  }

  lemma {:induction false} VerifiedAreSignatures(mldsa: MlDsa, vs: seq<Validator>, message: seq<byte>,
                                                 sigs: seq<Signature>)
    ensures CountsOnce(vs, sigs) ==> CountsOnce(vs, Verified(mldsa, vs, message, sigs))
    ensures Signers(Verified(mldsa, vs, message, sigs)) <= Signers(sigs)
  {
    if sigs != [] {
      var front, last := sigs[..|sigs| - 1], sigs[|sigs| - 1];
      var good := Verified(mldsa, vs, message, front);
      VerifiedAreSignatures(mldsa, vs, message, front);
      CountsOnceNext(vs, sigs);
      CountsOnceNext(vs, good + [last]);
      assert (good + [last])[..|good|] == good;
    }
  }

  /** The reported stake is the stake of the validators whose signatures verify, each counted once and cut at
      u128::MAX, exactly when no such validator with stake signs twice or their stake reaches the cut. */
  lemma ReportedStakeIff(sha3: Sha3, mldsa: MlDsa, p: Proof)
    ensures var good := Verified(mldsa, p.validators, SignedMessage(sha3, p), p.signatures);
            Tally(sha3, mldsa, p).signedStake == Min(SignerStake(p.validators, good), U128_MAX) <==>
              CountsOnce(p.validators, good) || SignerStake(p.validators, good) >= U128_MAX
  {
    var good := Verified(mldsa, p.validators, SignedMessage(sha3, p), p.signatures);
    SaturationIsOneCut(p.validators, good);
    EntriesAgainstSigners(p.validators, good);
  }

  /** A proof that names no validator with stake twice is reported with its verifying signers' stake, and is final
      exactly when every signature verifies and its signers' stake meets the threshold. */
  lemma FinalIffSignerStake(sha3: Sha3, mldsa: MlDsa, p: Proof)
    requires CountsOnce(p.validators, p.signatures) && p.header.stakeThreshold <= U128_MAX
    ensures var (report, message) := (Tally(sha3, mldsa, p), SignedMessage(sha3, p));
            && report.signedStake
               == Min(SignerStake(p.validators, Verified(mldsa, p.validators, message, p.signatures)), U128_MAX)
            && (report.IsFinal() <==>
                  && (forall i :: 0 <= i < |p.signatures| ==> Verifies(mldsa, p.validators, message, p.signatures[i]))
                  && SignerStake(p.validators, p.signatures) >= p.header.stakeThreshold)
  {
    VerifiedAreSignatures(mldsa, p.validators, SignedMessage(sha3, p), p.signatures);
    ReportedStakeIff(sha3, mldsa, p);
    ReportIsFinalIff(sha3, mldsa, p);
    SaturationIsOneCut(p.validators, p.signatures);
    EntriesAgainstSigners(p.validators, p.signatures);
  }

  // ------------------------------------------------------------------ the same signature again

  lemma {:induction false} SameSignature(mldsa: MlDsa, v: Validator, message: seq<byte>, s: Signature, k: nat)
    requires s.validatorIndex == 0 && v.stake == 1 && mldsa(v.publicKey, message, s.signature) && k <= U128_MAX
    ensures var sigs := seq(k, _ => s);
            Verified(mldsa, [v], message, sigs) == sigs && SignedStake([v], sigs) == k
  {
    var sigs := seq(k, _ => s);
    if k > 0 {
      SameSignature(mldsa, v, message, s, k - 1);
      assert sigs[..k - 1] == seq(k - 1, _ => s);
      assert sigs == sigs[..k - 1] + [s];
    }
  }

  /** It happens: one validator of stake one, its signature repeated, makes a proof final at every threshold. */
  lemma RepeatedSignatureIsFinal(sha3: Sha3, mldsa: MlDsa, header: Header, v: Validator, s: Signature)
    requires s.validatorIndex == 0 && v.stake == 1 && 0 < header.stakeThreshold <= U128_MAX
    requires mldsa(v.publicKey, SignedMessage(sha3, Proof(header, [v], [])), s.signature)
    ensures var p := Proof(header, [v], seq(header.stakeThreshold, _ => s));
            Tally(sha3, mldsa, p).IsFinal() && SignerStake(p.validators, p.signatures) == 1
  {
    var k := header.stakeThreshold;
    var sigs := seq(k, _ => s);
    var p := Proof(header, [v], sigs);
    var message := SignedMessage(sha3, Proof(header, [v], []));
    assert SignedMessage(sha3, p) == message;
    assert Verified(mldsa, [v], message, sigs) == sigs && SignedStake([v], sigs) == k by {
      SameSignature(mldsa, v, message, s, k);
    }
    assert Tally(sha3, mldsa, p) == Report(k, k, k, 0);
    OneSigner(v, s, k);
  }

  lemma OneSigner(v: Validator, s: Signature, k: nat)
    requires s.validatorIndex == 0 && v.stake == 1 && k > 0
    ensures SignerStake([v], seq(k, _ => s)) == 1
  {
    var sigs := seq(k, _ => s);
    assert sigs[0].validatorIndex in Signers(sigs);
    assert Signers(sigs) == {0};
    assert StakeOf([v], {0}, 0) == 0;
  }

  // ------------------------------------------------------------------ whose stake

  /** The snapshot's root is the root of its validators, as it is built. */
  predicate WellRooted(sha3: Sha3, snapshot: Snapshot) {
    snapshot.root == sha3(ValidatorBytes(snapshot.validators)) && ValidatorsFit(snapshot.validators)
  }

  /** For a proof that is not refused, the stake is that of the snapshot's validators exactly when the proof's
      own list has the root its header names, short of a hash collision. */
  lemma SnapshotStakeIff(sha3: Sha3, p: Proof, snapshot: Snapshot)
    requires Refusal(p, snapshot).None? && WellRooted(sha3, snapshot) && ValidatorsFit(p.validators)
    requires !Collision(sha3, ValidatorBytes(p.validators), ValidatorBytes(snapshot.validators))
    ensures p.validators == snapshot.validators <==> sha3(ValidatorBytes(p.validators)) == p.header.validatorSetRoot
  {
    if sha3(ValidatorBytes(p.validators)) == p.header.validatorSetRoot {
      ValidatorsBind(p.validators, snapshot.validators);
    }
  }

  /** Then signers never carry more than the total the header names. */
  lemma SnapshotStakeBounded(p: Proof, snapshot: Snapshot)
    requires Refusal(p, snapshot).None? && p.validators == snapshot.validators
    ensures Min(SignerStake(p.validators, p.signatures), U128_MAX) <= p.header.totalStake
  {
    StakeOfAll(p.validators, Signers(p.signatures), |p.validators|);
    assert p.validators[..|p.validators|] == p.validators;
  }

  /** The condition is needed: whatever the snapshot, a proof with any other list of its length is not refused. */
  lemma OtherValidatorsNotRefused(header: Header, vs: seq<Validator>, sigs: seq<Signature>, snapshot: Snapshot)
    requires |vs| == |snapshot.validators|
    ensures var h := header.(version := PROOF_VERSION, validatorSetRoot := snapshot.root,
                             totalStake := TotalStake(snapshot.validators));
            Refusal(Proof(h, vs, sigs), snapshot).None?
  {
  }
}
