/** The bytes a wallet signs for a transaction.  The wallet core and the wallet server write them
    independently (quantos-wallet-core/src/lib.rs, quantos-wallet-server/src/crypto.rs); both are proved
    to write one layout, and a reader to invert it. */
module TxSigning {
  import opened Bytes
  import opened Layout

  /** "QUANTOS_TX_V1" */
  const DOMAIN_TX: seq<byte> := [81, 85, 65, 78, 84, 79, 83, 95, 84, 88, 95, 86, 49]

  lemma DomainText()
    ensures DOMAIN_TX == Ascii("QUANTOS_TX_V1")
  {
  }

  datatype TxType = Transfer | Stake | Unstake | StakeTransfer | ValidatorRegister | ValidatorExit
                  | ContractCall | ContractDeploy

  datatype VmKind = Qvm | Evm

  datatype Boost = Boost(lockedTokens: nat, lockDurationBlocks: nat)

  datatype Transaction = Transaction(
    txType: TxType, from: Hash32, to: Hash32, amount: nat, nonce: nat, maxComputeUnits: nat,
    boost: Option<Boost>, vmKind: VmKind, data: seq<byte>, shardId: nat, timestamp: nat,
    signature: seq<byte>, publicKey: seq<byte>, chainId: nat)

  /** What the signature covers: an absent boost counts as a zero one. */
  datatype Signed = Signed(
    txType: TxType, from: Hash32, to: Hash32, amount: nat, nonce: nat, maxComputeUnits: nat,
    boost: Boost, vmKind: VmKind, data: seq<byte>, shardId: nat, timestamp: nat, chainId: nat)

  function EffectiveBoost(b: Option<Boost>): Boost {
    if b.Some? then b.value else Boost(0, 0)
  }

  function Covered(tx: Transaction): Signed {
    Signed(tx.txType, tx.from, tx.to, tx.amount, tx.nonce, tx.maxComputeUnits, EffectiveBoost(tx.boost),
           tx.vmKind, tx.data, tx.shardId, tx.timestamp, tx.chainId)
  }

  predicate Fits(f: Signed) {
    && f.amount <= U128_MAX && f.nonce <= U64_MAX && f.maxComputeUnits <= U64_MAX
    && f.boost.lockedTokens <= U64_MAX && f.boost.lockDurationBlocks <= U64_MAX
    && f.shardId <= U16_MAX && f.timestamp <= U64_MAX && f.chainId <= U64_MAX
  }

  function TypeCode(t: TxType): byte {
    match t
    case Transfer => 0
    case Stake => 1
    case Unstake => 2
    case StakeTransfer => 3
    case ValidatorRegister => 4
    case ValidatorExit => 5
    case ContractCall => 6
    case ContractDeploy => 7
  }

  function TypeOfCode(b: byte): Option<TxType> {
    match b
    case 0 => Some(Transfer)
    case 1 => Some(Stake)
    case 2 => Some(Unstake)
    case 3 => Some(StakeTransfer)
    case 4 => Some(ValidatorRegister)
    case 5 => Some(ValidatorExit)
    case 6 => Some(ContractCall)
    case 7 => Some(ContractDeploy)
    case _ => None
  }

  function VmCode(v: VmKind): byte {
    if v.Qvm? then 0 else 1
  }

  /** The 114 bytes before the call data. */
  function Prefix(f: Signed): (r: seq<byte>)
    ensures |r| == 114
  {
    [TypeCode(f.txType)] + f.from + f.to + LE(f.amount, 16) + LE(f.nonce, 8) + LE(f.maxComputeUnits, 8)
    + LE(f.boost.lockedTokens, 8) + LE(f.boost.lockDurationBlocks, 8) + [VmCode(f.vmKind)]
  }

  function Message(f: Signed): seq<byte> {
    Prefix(f) + f.data + LE(f.shardId, 2) + LE(f.timestamp, 8) + LE(f.chainId, 8)
  }

  function SigningBytes(f: Signed): seq<byte> {
    WithDomain(DOMAIN_TX, Message(f))
  }

  // ------------------------------------------------------------------ the two writers

  /** `Transaction::signing_data` of the wallet core. */
  method CoreSigningData(tx: Transaction) returns (out: seq<byte>)
    ensures out == SigningBytes(Covered(tx))
  {
    var msg: seq<byte> := [TypeCode(tx.txType)];
    msg := msg + tx.from;
    msg := msg + tx.to;
    msg := msg + LE(tx.amount, 16);
    msg := msg + LE(tx.nonce, 8);
    msg := msg + LE(tx.maxComputeUnits, 8);
    if tx.boost.Some? {
      msg := msg + LE(tx.boost.value.lockedTokens, 8);
      msg := msg + LE(tx.boost.value.lockDurationBlocks, 8);
    } else {
      msg := msg + LE(0, 8);
      msg := msg + LE(0, 8);
    }
    msg := msg + [VmCode(tx.vmKind)];
    msg := msg + tx.data;
    msg := msg + LE(tx.shardId, 2);
    msg := msg + LE(tx.timestamp, 8);
    msg := msg + LE(tx.chainId, 8);
    out := BuildWithDomain(DOMAIN_TX, msg);
  }

  /** `transaction_signing_data` of the wallet server, with its own type table and domain prefix. */
  method ServerSigningData(tx: Transaction) returns (out: seq<byte>)
    ensures out == SigningBytes(Covered(tx))
  {
    var data: seq<byte> := [];
    match tx.txType {
      case Transfer => data := data + [0];
      case Stake => data := data + [1];
      case Unstake => data := data + [2];
      case StakeTransfer => data := data + [3];
      case ValidatorRegister => data := data + [4];
      case ValidatorExit => data := data + [5];
      case ContractCall => data := data + [6];
      case ContractDeploy => data := data + [7];
    }
    assert data == [TypeCode(tx.txType)];
    data := data + tx.from;
    data := data + tx.to;
    data := data + LE(tx.amount, 16);
    data := data + LE(tx.nonce, 8);
    data := data + LE(tx.maxComputeUnits, 8);
    var b := if tx.boost.Some? then tx.boost.value else Boost(0, 0);
    data := data + LE(b.lockedTokens, 8);
    data := data + LE(b.lockDurationBlocks, 8);
    data := data + [if tx.vmKind.Qvm? then 0 else 1];
    data := data + tx.data;
    data := data + LE(tx.shardId, 2);
    data := data + LE(tx.timestamp, 8);
    data := data + LE(tx.chainId, 8);
    out := LE(|DOMAIN_TX|, 2);
    out := out + DOMAIN_TX;
    out := out + data;
  }

  // ------------------------------------------------------------------ the layout binds its fields

  lemma TypeBind(a: TxType, b: TxType)
    requires TypeCode(a) == TypeCode(b)
    ensures a == b
  {
    assert TypeOfCode(TypeCode(a)) == Some(a) && TypeOfCode(TypeCode(b)) == Some(b);
  }

  lemma PrefixBinds(a: Signed, b: Signed)
    requires Fits(a) && Fits(b) && Prefix(a) == Prefix(b)
    ensures a == b.(data := a.data, shardId := a.shardId, timestamp := a.timestamp, chainId := a.chainId)
  {
    Widths();
    var x, y := Prefix(a), Prefix(b);
    x, y := Peel(x, y, x[..113], [VmCode(a.vmKind)], y[..113], [VmCode(b.vmKind)]);
    x, y := Peel(x, y, x[..105], LE(a.boost.lockDurationBlocks, 8), y[..105], LE(b.boost.lockDurationBlocks, 8));
    LEInjective(a.boost.lockDurationBlocks, b.boost.lockDurationBlocks, 8);
    x, y := Peel(x, y, x[..97], LE(a.boost.lockedTokens, 8), y[..97], LE(b.boost.lockedTokens, 8));
    LEInjective(a.boost.lockedTokens, b.boost.lockedTokens, 8);
    x, y := Peel(x, y, x[..89], LE(a.maxComputeUnits, 8), y[..89], LE(b.maxComputeUnits, 8));
    LEInjective(a.maxComputeUnits, b.maxComputeUnits, 8);
    x, y := Peel(x, y, x[..81], LE(a.nonce, 8), y[..81], LE(b.nonce, 8));
    LEInjective(a.nonce, b.nonce, 8);
    x, y := Peel(x, y, x[..65], LE(a.amount, 16), y[..65], LE(b.amount, 16));
    LEInjective(a.amount, b.amount, 16);
    x, y := Peel(x, y, x[..33], a.to, y[..33], b.to);
    x, y := Peel(x, y, x[..1], a.from, y[..1], b.from);
    TypeBind(a.txType, b.txType);
  }

  lemma MessageBinds(a: Signed, b: Signed)
    requires Fits(a) && Fits(b) && Message(a) == Message(b)
    ensures a == b
  {
    Widths();
    var x, y := Message(a), Message(b);
    x, y := Peel(x, y, x[..|x| - 8], LE(a.chainId, 8), y[..|y| - 8], LE(b.chainId, 8));
    LEInjective(a.chainId, b.chainId, 8);
    x, y := Peel(x, y, x[..|x| - 8], LE(a.timestamp, 8), y[..|y| - 8], LE(b.timestamp, 8));
    LEInjective(a.timestamp, b.timestamp, 8);
    x, y := Peel(x, y, x[..|x| - 2], LE(a.shardId, 2), y[..|y| - 2], LE(b.shardId, 2));
    LEInjective(a.shardId, b.shardId, 2);
    SplitEqual(Prefix(a), a.data, Prefix(b), b.data);
    PrefixBinds(a, b);
  }

  /** Two transactions have the same signing bytes exactly when they agree on every field except the
      signature and public key, an absent boost counting as a zero one. */
  lemma SameBytesIff(tx: Transaction, tx': Transaction)
    requires Fits(Covered(tx)) && Fits(Covered(tx'))
    ensures SigningBytes(Covered(tx)) == SigningBytes(Covered(tx')) <==> Covered(tx) == Covered(tx')
    ensures Covered(tx) == Covered(tx') <==>
            tx == tx'.(signature := tx.signature, publicKey := tx.publicKey, boost := tx.boost)
            && EffectiveBoost(tx.boost) == EffectiveBoost(tx'.boost)
  {
    if SigningBytes(Covered(tx)) == SigningBytes(Covered(tx')) {
      TagsBind(DOMAIN_TX, Message(Covered(tx)), DOMAIN_TX, Message(Covered(tx')));
      MessageBinds(Covered(tx), Covered(tx'));
    }
  }

  /** No message under any other domain tag is a transaction's signing bytes. */
  lemma OtherDomainsDiffer(f: Signed, tag: seq<byte>, message: seq<byte>)
    requires |tag| <= U16_MAX && tag != DOMAIN_TX
    ensures WithDomain(tag, message) != SigningBytes(f)
  {
    if WithDomain(tag, message) == SigningBytes(f) {
      TagsBind(tag, message, DOMAIN_TX, Message(f));
    }
  }

  // ------------------------------------------------------------------ a reader

  /** Recovers the fields; the call data is what lies between the two fixed parts. */
  function Decode(bs: seq<byte>): Option<Signed> {
    if |bs| < 147 || bs[..15] != LE(13, 2) + DOMAIN_TX then None else DecodeMessage(bs[15..])
  }

  function DecodeMessage(m: seq<byte>): (r: Option<Signed>)
    requires |m| >= 132
    ensures r.Some? ==> Fits(r.value)
  {
    var n := |m|;
    var t := TypeOfCode(m[0]);
    Widths();
    if t.None? || m[113] > 1 then None
    else
      Some(Signed(t.value, m[1..33], m[33..65], FromLE(m[65..81]), FromLE(m[81..89]), FromLE(m[89..97]),
                  Boost(FromLE(m[97..105]), FromLE(m[105..113])), if m[113] == 0 then Qvm else Evm,
                  m[114..n - 18], FromLE(m[n - 18..n - 16]), FromLE(m[n - 16..n - 8]), FromLE(m[n - 8..])))
  }

  lemma CutPrefix(m: seq<byte>)
    requires |m| >= 114
    ensures m[..114] == [m[0]] + m[1..33] + m[33..65] + m[65..81] + m[81..89] + m[89..97] + m[97..105] + m[105..113]
                        + [m[113]]
  {
  }

  lemma CutMessage(m: seq<byte>, n: nat)
    requires |m| == n >= 132
    ensures m == m[..114] + m[114..n - 18] + m[n - 18..n - 16] + m[n - 16..n - 8] + m[n - 8..]
  {
  }

  lemma PrefixOfDecoded(m: seq<byte>)
    requires |m| >= 132 && DecodeMessage(m).Some?
    ensures Prefix(DecodeMessage(m).value) == m[..114]
  {
    FieldsOfDecoded(m);
    PrefixFrom(DecodeMessage(m).value, m);
  }

  /** The fields before the call data are where they are written. */
  predicate InPlace(f: Signed, m: seq<byte>)
    requires |m| >= 114
  {
    && TypeCode(f.txType) == m[0] && f.from == m[1..33] && f.to == m[33..65] && LE(f.amount, 16) == m[65..81]
    && LE(f.nonce, 8) == m[81..89] && LE(f.maxComputeUnits, 8) == m[89..97]
    && LE(f.boost.lockedTokens, 8) == m[97..105] && LE(f.boost.lockDurationBlocks, 8) == m[105..113]
    && VmCode(f.vmKind) == m[113]
  }

  lemma FieldsOfDecoded(m: seq<byte>)
    requires |m| >= 132 && DecodeMessage(m).Some?
    ensures InPlace(DecodeMessage(m).value, m)
  {
    LEOfFromLE(m[65..81]);
    LEOfFromLE(m[81..89]);
    LEOfFromLE(m[89..97]);
    LEOfFromLE(m[97..105]);
    LEOfFromLE(m[105..113]);
  }

  lemma PrefixFrom(f: Signed, m: seq<byte>)
    requires |m| >= 114 && InPlace(f, m)
    ensures Prefix(f) == m[..114]
  {
    CutPrefix(m);
  }

  lemma MessageOfDecoded(m: seq<byte>)
    requires |m| >= 132 && DecodeMessage(m).Some?
    ensures Message(DecodeMessage(m).value) == m
  {
    var n := |m|;
    PrefixOfDecoded(m);
    LEOfFromLE(m[n - 18..n - 16]);
    LEOfFromLE(m[n - 16..n - 8]);
    LEOfFromLE(m[n - 8..]);
    CutMessage(m, n);
  }

  /** Whatever the reader accepts is the signing bytes of what it returns. */
  lemma WriteDecoded(bs: seq<byte>)
    requires Decode(bs).Some?
    ensures Fits(Decode(bs).value) && SigningBytes(Decode(bs).value) == bs
  {
    MessageOfDecoded(bs[15..]);
    assert bs == bs[..15] + bs[15..];
  }

  lemma DecodeAccepts(f: Signed)
    ensures Decode(SigningBytes(f)).Some?
  {
    TagAndMessage(DOMAIN_TX, Message(f));
    CodesInPlace(f);
  }

  lemma TagAndMessage(tag: seq<byte>, message: seq<byte>)
    ensures var bs := WithDomain(tag, message);
            bs[..2 + |tag|] == LE(|tag|, 2) + tag && bs[2 + |tag|..] == message
  {
  }

  lemma CodesInPlace(f: Signed)
    ensures |Message(f)| >= 132 && Message(f)[0] == TypeCode(f.txType) && Message(f)[113] == VmCode(f.vmKind)
  {
    assert Prefix(f)[0] == TypeCode(f.txType) && Prefix(f)[113] == VmCode(f.vmKind);
    var rest := f.data + (LE(f.shardId, 2) + LE(f.timestamp, 8) + LE(f.chainId, 8));
    assert Message(f) == Prefix(f) + rest;
  }

  /** Reading the signing bytes recovers every signed field. */
  lemma DecodeWritten(f: Signed)
    requires Fits(f)
    ensures Decode(SigningBytes(f)) == Some(f)
  {
    DecodeAccepts(f);
    WriteDecoded(SigningBytes(f));
    var g := Decode(SigningBytes(f)).value;
    TagsBind(DOMAIN_TX, Message(f), DOMAIN_TX, Message(g));
    MessageBinds(f, g);
  }
}
