/** Deposit calldata from the wallet to the relayer: what `bridge_deposit` writes
    (quantos-wallet-server/src/routes.rs) and what `verifyBridgeDeposit` reads back from the node's hex
    (bridge-relayer/src/quantos.ts, relayer.ts). */
module BridgeCalldata {
  import opened Bytes
  import opened Text
  import opened Hexadecimal

  // ------------------------------------------------------------------ the wallet

  const DEPOSIT_SELECTOR: seq<byte> := [0x1d, 0xe2, 0x6e, 0x16]
  const TRANSFER_SELECTOR: seq<byte> := [0xa9, 0x05, 0x9c, 0xbb]

  /** A 32-byte value as it is; a 20-byte address right-aligned; nothing else. */
  function Bytes32(raw: seq<byte>): Option<Hash32> {
    if |raw| == 32 then Some(raw) else if |raw| == 20 then Some(Zeros(12) + raw) else None
  }

  method ParseBytes32Hex(value: string) returns (r: Option<Hash32>)
    ensures r.Some? <==> HexDecode(Cleaned(value)).Some? && |HexDecode(Cleaned(value)).value| in {20, 32}
    ensures r.Some? ==> r == Bytes32(HexDecode(Cleaned(value)).value)
  {
    var raw := HexDecode(Cleaned(value));
    if raw.None? { return None; }
    if |raw.value| == 32 { return Some(raw.value); }
    if |raw.value| != 20 { return None; }
    var out := new byte[32](_ => 0);
    for i := 0 to 20
      invariant out[..] == Zeros(12) + raw.value[..i] + Zeros(20 - i)
    {
      out[12 + i] := raw.value[i];
    }
    assert out[..] == Zeros(12) + raw.value;
    return Some(out[..]);
  }

  /** Sixteen little-endian bytes at the front of a cleared word: the word reads back as the amount. */
  method EncodeUint256Le32(value: nat) returns (r: Hash32)
    requires value <= U128_MAX
    ensures r == LE(value, 16) + Zeros(16) && FromLE(r) == value
  {
    var out := new byte[32](_ => 0);
    for i := 0 to 16
      invariant out[..] == LE(value, 16)[..i] + Zeros(32 - i)
    {
      out[i] := LE(value, 16)[i];
    }
    r := out[..];
    assert r == LE(value, 16) + Zeros(16);
    AmountWord(value);
  }

  lemma AmountWord(value: nat)
    requires value <= U128_MAX
    ensures FromLE(LE(value, 16) + Zeros(16)) == value
  {
    Widths();
    LERoundTrip(value, 16);
    FromLEZeroTail(LE(value, 16), 16);
  }

  function Calldata(selector: seq<byte>, word: Hash32, amount: nat): seq<byte> {
    selector + word + (LE(amount, 16) + Zeros(16))
  }

  method DepositCalldata(baseRecipient: Hash32, amount: nat) returns (calldata: seq<byte>)
    requires amount <= U128_MAX
    ensures calldata == Calldata(DEPOSIT_SELECTOR, baseRecipient, amount)
    ensures |calldata| == 68 && calldata[4..36] == baseRecipient && FromLE(calldata[36..]) == amount
  {
    var word := EncodeUint256Le32(amount);
    calldata := [];
    calldata := calldata + DEPOSIT_SELECTOR;
    calldata := calldata + baseRecipient;
    calldata := calldata + word;
    assert calldata[36..] == word;
  }

  // ------------------------------------------------------------------ the relayer

  function DropQtsOrHex(s: string): string {
    if StripAnyCase(s, "QTS:") != s then StripAnyCase(s, "QTS:") else StripAnyCase(s, "0x")
  }

  function LeValue(hex: string): nat {
    FromLE(FromHex(DropQtsOrHex(hex)))
  }

  /** The digits may come after either prefix, in either case. */
  lemma AmountSpellings(s: string, prefix: string)
    requires HexText(s) && prefix in {"", "QTS:", "qts:", "0x", "0X"}
    ensures LeValue(prefix + s) == FromLE(FromHex(s))
  {
    var text := prefix + s;
    NoPrefixInText(s);
    assert "" + s == s;
    if prefix in {"QTS:", "qts:"} {
      assert text[..4] == prefix && text[4..] == s && Lower("qts:") == Lower("QTS:");
    } else if prefix in {"0x", "0X"} {
      assert text[..2] == prefix && text[2..] == s && Lower("0X") == Lower("0x");
      assert |text| >= 4 ==> Lower(text[..4])[0] == '0' && Lower("QTS:")[0] == 'q';
    }
  }

  lemma {:induction false} FromLESnoc(bs: seq<byte>, b: byte)
    ensures FromLE(bs + [b]) == FromLE(bs) + b * Pow256(|bs|)
  {
    if bs != [] {
      FromLESnoc(bs[1..], b);
      assert (bs + [b])[1..] == bs[1..] + [b];
      assert 256 * (b * Pow256(|bs| - 1)) == b * Pow256(|bs|);
    }
  }

  lemma FromLEPrefix(bs: seq<byte>, i: nat)
    requires i < |bs|
    ensures FromLE(bs[..i + 1]) == FromLE(bs[..i]) + bs[i] * Pow256(i)
  {
    FromLESnoc(bs[..i], bs[i]);
    assert bs[..i + 1] == bs[..i] + [bs[i]];
  }

  /** The accumulating loop: each byte shifted by eight bits per place. */
  method LeHexToBigInt(hex: string) returns (result: nat)
    ensures result == LeValue(hex)
  {
    var bytes := FromHex(DropQtsOrHex(hex));
    result := 0;
    for i := 0 to |bytes|
      invariant result == FromLE(bytes[..i])
    {
      FromLEPrefix(bytes, i);
      result := result + bytes[i] * Pow256(i);
    }
    assert bytes[..|bytes|] == bytes;
  }

  datatype Receipt = Receipt(status: string, from: string)

  datatype Transaction = Transaction(to: string, input: string)

  datatype Config = Config(qtestContract: string, bridgeVault: string)

  datatype Fault =
    | ReceiptNotFound | TxFailed | TransactionNotFound | CalldataTooShort | TransferTooShort | WrongToken
    | WrongVault | DepositTooShort | WrongTarget | ZeroRecipient | UnsupportedSelector

  datatype Verdict =
    | Rejected(fault: Fault)
    | TokenTransfer(amount: nat)
    | VaultDeposit(amount: nat, baseRecipient: string)

  function Input(tx: Transaction): string {
    StripAnyCase(StripPrefix(tx.input, "QTS:"), "0x")
  }

  predicate AllZeroDigits(s: string) {
    |s| == 64 && forall i :: 0 <= i < 64 ==> s[i] == '0'
  }

  function VerifyBridgeDeposit(receipt: Option<Receipt>, tx: Option<Transaction>, config: Config): Verdict {
    if receipt.None? then Rejected(ReceiptNotFound)
    else if receipt.value.status != "QTS:1" then Rejected(TxFailed)
    else if tx.None? then Rejected(TransactionNotFound)
    else DecodeInput(Input(tx.value), Lower(tx.value.to), config)
  }

  const DEPOSIT_HEX := "1de26e16"
  const TRANSFER_HEX := "a9059cbb"

  function DecodeInput(input: string, to: string, config: Config): Verdict {
    if |input| < 8 then Rejected(CalldataTooShort)
    else if input[..8] == TRANSFER_HEX then
      if |input| < 136 then Rejected(TransferTooShort)
      else if to != Lower(config.qtestContract) then Rejected(WrongToken)
      else if Lower("QTS:" + input[8..72]) != Lower(config.bridgeVault) then Rejected(WrongVault)
      else TokenTransfer(LeValue(input[72..136]))
    else if input[..8] == DEPOSIT_HEX then
      if |input| < 136 then Rejected(DepositTooShort)
      else if to != Lower(config.bridgeVault) then Rejected(WrongTarget)
      else if AllZeroDigits(input[8..72]) then Rejected(ZeroRecipient)
      else VaultDeposit(LeValue(input[72..136]), "0x" + input[8..72])
    else Rejected(UnsupportedSelector)
  }

  /** The last twenty bytes of a 32-byte value. */
  function EvmAddress(bytes32: string): seq<byte> {
    var raw := StripAnyCase(bytes32, "0x");
    var padded := Fill(if |raw| < 64 then 64 - |raw| else 0) + raw;
    FromHex(padded[24..])
  }

  // ------------------------------------------------------------------ from one to the other

  /** The text a node may give for some bytes. */
  predicate IsInputFor(input: string, bs: seq<byte>) {
    input == Hex(bs) || input == "QTS:" + Hex(bs) || input == "0x" + Hex(bs) || input == "QTS:0x" + Hex(bs)
  }

  lemma NoPrefixInHex(bs: seq<byte>)
    ensures !("QTS:" <= Hex(bs)) && StripAnyCase(Hex(bs), "0x") == Hex(bs) && StripAnyCase(Hex(bs), "QTS:") == Hex(bs)
  {
    var s := Hex(bs);
    HexIsLowerCase(bs);
    if |s| >= 2 {
      assert Lower(s[..2])[1] == s[1] && Lower("0x")[1] == 'x' && HexValue('x').None?;
    }
    if |s| >= 4 {
      assert Lower(s[..4])[0] == s[0] && Lower("QTS:")[0] == 'q' && HexValue('q').None?;
      assert HexValue("QTS:"[0]).None?;
    }
  }

  lemma InputIsHex(tx: Transaction, bs: seq<byte>)
    requires IsInputFor(tx.input, bs)
    ensures Input(tx) == Hex(bs)
  {
    NoPrefixInHex(bs);
    var h := Hex(bs);
    assert ("QTS:" + h)[4..] == h && ("0x" + h)[..2] == "0x" && ("0x" + h)[2..] == h;
    assert ("QTS:0x" + h)[4..] == "0x" + h;
    assert !("QTS:" <= "0x" + h) by { assert ("0x" + h)[0] == '0' && "QTS:"[0] == 'Q'; }
  }

  /** The hex of a call with two words, slice by slice. */
  lemma CallParts(bs: seq<byte>)
    requires |bs| >= 68
    ensures var h := Hex(bs);
            |h| >= 136 && h[..8] == Hex(bs[..4]) && h[8..72] == Hex(bs[4..36]) && h[72..136] == Hex(bs[36..68])
  {
    HexSlice(bs, bs[..4], 0, 4);
    HexSlice(bs, bs[4..36], 4, 36);
    HexSlice(bs, bs[36..68], 36, 68);
  }

  lemma HexSlice(bs: seq<byte>, part: seq<byte>, i: nat, j: nat)
    requires i <= j <= |bs| && part == bs[i..j]
    ensures Hex(bs)[2 * i..2 * j] == Hex(part)
  {
    Cut(bs, i, j);
    HexMiddle(bs, bs[..i], part, bs[j..]);
  }

  lemma Cut<T>(s: seq<T>, i: nat, j: nat)
    requires i <= j <= |s|
    ensures s == s[..i] + (s[i..j] + s[j..])
  {
  }

  lemma HexMiddle(bs: seq<byte>, a: seq<byte>, b: seq<byte>, c: seq<byte>)
    requires bs == a + (b + c)
    ensures Hex(bs)[2 * |a|..2 * |a| + 2 * |b|] == Hex(b)
  {
    var x, y, z := Hex(a), Hex(b), Hex(c);
    assert Hex(bs) == x + (y + z) by {
      HexConcat(a, b + c);
      HexConcat(b, c);
    }
    Middle(x, y, z);
  }

  lemma Middle<T>(a: seq<T>, b: seq<T>, c: seq<T>)
    ensures (a + (b + c))[|a|..|a| + |b|] == b
  {
  }

  lemma CalldataParts(selector: seq<byte>, word: Hash32, amount: nat)
    requires |selector| == 4 && amount <= U128_MAX
    ensures var bs := Calldata(selector, word, amount);
            |bs| == 68 && bs[..4] == selector && bs[4..36] == word && FromLE(bs[36..68]) == amount
  {
    var last := LE(amount, 16) + Zeros(16);
    AmountWord(amount);
    assert Calldata(selector, word, amount)[36..68] == last;
  }

  lemma DepositSelectorHex()
    ensures Hex(DEPOSIT_SELECTOR) == DEPOSIT_HEX
  {
    HexOfFour(0x1d, 0xe2, 0x6e, 0x16);
  }

  lemma TransferSelectorHex()
    ensures Hex(TRANSFER_SELECTOR) == TRANSFER_HEX
  {
    HexOfFour(0xa9, 0x05, 0x9c, 0xbb);
  }

  lemma HexOfFour(a: byte, b: byte, c: byte, d: byte)
    ensures Hex([a, b, c, d]) ==
            [HexDigit(a / 16), HexDigit(a % 16), HexDigit(b / 16), HexDigit(b % 16),
             HexDigit(c / 16), HexDigit(c % 16), HexDigit(d / 16), HexDigit(d % 16)]
  {
    assert [a, b, c, d][1..] == [b, c, d] && [b, c, d][1..] == [c, d] && [c, d][1..] == [d] && [d][1..] == [];
    assert Hex([d]) == [HexDigit(d / 16), HexDigit(d % 16)];
    assert Hex([c, d]) == [HexDigit(c / 16), HexDigit(c % 16)] + Hex([d]);
    assert Hex([b, c, d]) == [HexDigit(b / 16), HexDigit(b % 16)] + Hex([c, d]);
  }

  lemma {:induction false} ZeroDigitsIff(bs: seq<byte>)
    ensures (forall i :: 0 <= i < |Hex(bs)| ==> Hex(bs)[i] == '0') <==> bs == Zeros(|bs|)
  {
    if bs != [] {
      var rest := Hex(bs[1..]);
      ZeroDigitsIff(bs[1..]);
      assert Hex(bs)[2..] == rest;
      assert forall i :: 0 <= i < |rest| ==> rest[i] == Hex(bs)[i + 2];
      assert bs == [bs[0]] + bs[1..] && Zeros(|bs|) == [0] + Zeros(|bs| - 1);
      assert Hex(bs)[0] == '0' && Hex(bs)[1] == '0' <==> bs[0] == 0;
    }
  }

  lemma LeValueOfHex(bs: seq<byte>)
    ensures LeValue(Hex(bs)) == FromLE(bs)
  {
    NoPrefixInHex(bs);
    HexRoundTrip(bs);
  }

  /** The deposit branch on bytes. */
  lemma DecodeDeposit(bs: seq<byte>, to: string, config: Config)
    requires |bs| >= 68 && bs[..4] == DEPOSIT_SELECTOR && to == Lower(config.bridgeVault)
    ensures DecodeInput(Hex(bs), to, config) ==
            if bs[4..36] == Zeros(32) then Rejected(ZeroRecipient)
            else VaultDeposit(FromLE(bs[36..68]), "0x" + Hex(bs[4..36]))
  {
    CallParts(bs);
    DepositSelectorHex();
    ZeroDigitsIff(bs[4..36]);
    LeValueOfHex(bs[36..68]);
    assert DEPOSIT_HEX[0] != TRANSFER_HEX[0];
  }

  lemma DecodeTransfer(bs: seq<byte>, to: string, config: Config)
    requires |bs| >= 68 && bs[..4] == TRANSFER_SELECTOR && to == Lower(config.qtestContract)
    ensures DecodeInput(Hex(bs), to, config) ==
            if Lower("QTS:" + Hex(bs[4..36])) == Lower(config.bridgeVault) then TokenTransfer(FromLE(bs[36..68]))
            else Rejected(WrongVault)
  {
    CallParts(bs);
    TransferSelectorHex();
    LeValueOfHex(bs[36..68]);
  }

  /** The relayer reads from the wallet's calldata exactly the amount and the recipient written into it,
      and turns it away exactly when the recipient is zero. */
  lemma DepositIsDecoded(receipt: Receipt, tx: Transaction, config: Config, recipient: Hash32, amount: nat)
    requires receipt.status == "QTS:1" && amount <= U128_MAX
    requires IsInputFor(tx.input, Calldata(DEPOSIT_SELECTOR, recipient, amount))
    requires Lower(tx.to) == Lower(config.bridgeVault)
    ensures VerifyBridgeDeposit(Some(receipt), Some(tx), config) ==
            if recipient == Zeros(32) then Rejected(ZeroRecipient) else VaultDeposit(amount, "0x" + Hex(recipient))
  {
    var bs := Calldata(DEPOSIT_SELECTOR, recipient, amount);
    InputIsHex(tx, bs);
    CalldataParts(DEPOSIT_SELECTOR, recipient, amount);
    DecodeDeposit(bs, Lower(tx.to), config);
  }

  lemma EvmAddressOfPadded(address: seq<byte>)
    requires |address| == 20
    ensures EvmAddress("0x" + Hex(Zeros(12) + address)) == address
  {
    var h := Hex(Zeros(12) + address);
    HexConcat(Zeros(12), address);
    assert ("0x" + h)[..2] == "0x" && ("0x" + h)[2..] == h;
    assert Fill(0) + h == h;
    assert h[24..] == Hex(address);
    HexRoundTrip(address);
  }

  lemma ZeroWhenPadded(address: seq<byte>)
    requires |address| == 20
    ensures Zeros(12) + address == Zeros(32) <==> address == Zeros(20)
  {
    assert Zeros(32)[12..] == Zeros(20) && (Zeros(12) + address)[12..] == address;
    assert Zeros(12) + Zeros(20) == Zeros(32);
  }

  /** From the address a user types to the address the relayer mints to: for every 20-byte address in any
      accepted spelling and every 128-bit amount, the same address and amount arrive, unless the address
      is zero, which is refused. */
  lemma AddressArrives(receipt: Receipt, tx: Transaction, config: Config, typed: string, address: seq<byte>,
                       amount: nat)
    requires HexDecode(Cleaned(typed)) == Some(address) && |address| == 20 && amount <= U128_MAX
    requires receipt.status == "QTS:1" && Lower(tx.to) == Lower(config.bridgeVault)
    requires IsInputFor(tx.input, Calldata(DEPOSIT_SELECTOR, Bytes32(address).value, amount))
    ensures var v := VerifyBridgeDeposit(Some(receipt), Some(tx), config);
            if address == Zeros(20) then v == Rejected(ZeroRecipient)
            else v.VaultDeposit? && v.amount == amount && EvmAddress(v.baseRecipient) == address
  {
    DepositIsDecoded(receipt, tx, config, Bytes32(address).value, amount);
    EvmAddressOfPadded(address);
    ZeroWhenPadded(address);
  }

  // ------------------------------------------------------------------ any spelling of the digits

  lemma {:induction false} ZeroTextIff(s: string)
    requires HexText(s) && |s| % 2 == 0
    ensures (forall i :: 0 <= i < |s| ==> s[i] == '0') <==> FromHex(s) == Zeros(|s| / 2)
  {
    if s != "" {
      var rest := s[2..];
      ZeroTextIff(rest);
      assert forall i :: 0 <= i < |rest| ==> rest[i] == s[i + 2];
      FromHexLength(rest);
      assert FromHex(s)[0] == 0 <==> s[0] == '0' && s[1] == '0';
      assert FromHex(s)[1..] == FromHex(rest) && Zeros(|s| / 2) == [0] + Zeros(|rest| / 2);
    }
  }

  lemma AcceptedText(input: string, to: string, config: Config)
    requires DecodeInput(input, to, config).VaultDeposit?
    ensures |input| >= 136 && input[..8] == DEPOSIT_HEX && to == Lower(config.bridgeVault)
    ensures !AllZeroDigits(input[8..72])
    ensures DecodeInput(input, to, config) == VaultDeposit(LeValue(input[72..136]), "0x" + input[8..72])
  {
  }

  lemma SelectorText()
    ensures FromHex(DEPOSIT_HEX) == DEPOSIT_SELECTOR
  {
    DepositSelectorHex();
    HexRoundTrip(DEPOSIT_SELECTOR);
  }

  /** The bytes of a call written in digits of either case. */
  lemma TextParts(selector: string, word: string, last: string)
    requires HexText(selector) && HexText(word) && HexText(last)
    requires |selector| == 8 && |word| == 64 && |last| == 64
    ensures FromHex(selector + word + last) == FromHex(selector) + FromHex(word) + FromHex(last)
    ensures |FromHex(word)| == 32 && |FromHex(last)| == 32
    ensures LE(LeValue(last), 32) == FromHex(last)
    ensures AllZeroDigits(word) <==> FromHex(word) == Zeros(32)
  {
    FromHexConcat(selector + word, last);
    FromHexConcat(selector, word);
    FromHexLength(word);
    FromHexLength(last);
    NoPrefixInText(last);
    LEOfFromLE(FromHex(last));
    ZeroTextIff(word);
  }

  lemma EvmAddressOfText(word: string)
    requires HexText(word) && |word| == 64
    ensures |FromHex(word)| == 32 && EvmAddress("0x" + word) == FromHex(word)[12..]
  {
    FromHexLength(word);
    assert ("0x" + word)[..2] == "0x" && ("0x" + word)[2..] == word;
    assert Fill(0) + word == word;
    assert word == word[..24] + word[24..];
    FromHexConcat(word[..24], word[24..]);
    FromHexLength(word[..24]);
  }

  /** The amount whose bytes are the digits that could be read, zero from there on. */
  predicate SpellsAmount(text: string, amount: nat) {
    var read := FromHex(DropQtsOrHex(text));
    |read| <= 32 && LE(amount, 32) == read + Zeros(32 - |read|)
  }

  /** A deposit call in text: the selector, the recipient as written, and the amount. */
  predicate SpellsDeposit(input: string, amount: nat, recipient: string) {
    && |input| >= 136 && input[..8] == Hex(DEPOSIT_SELECTOR) && recipient == "0x" + input[8..72]
    && SpellsAmount(input[72..136], amount)
  }

  /** A call in text that transfers tokens to the vault, its address in digits of either case. */
  predicate SpellsTransfer(input: string, vault: string) {
    |input| >= 136 && input[..8] == Hex(TRANSFER_SELECTOR) && Lower("QTS:" + input[8..72]) == Lower(vault)
  }

  /** A deposit call in bytes, for the recipient's last twenty. */
  predicate EncodesDeposit(bs: seq<byte>, amount: nat, recipient: string) {
    && |bs| == 68 && bs == DEPOSIT_SELECTOR + bs[4..36] + LE(amount, 32)
    && bs[4..36] != Zeros(32) && EvmAddress(recipient) == bs[16..36]
  }

  lemma AcceptedReports(input: string, to: string, config: Config)
    requires DecodeInput(input, to, config).VaultDeposit?
    ensures var v := DecodeInput(input, to, config);
            && to == Lower(config.bridgeVault) && SpellsDeposit(input, v.amount, v.baseRecipient)
            && (HexText(input) ==> EncodesDeposit(FromHex(input[..136]), v.amount, v.baseRecipient))
  {
    AcceptedText(input, to, config);
    var amount, recipient := LeValue(input[72..136]), "0x" + input[8..72];
    assert SpellsDeposit(input, amount, recipient) by {
      DepositSelectorHex();
      ReadAmount(input[72..136]);
    }
    if HexText(input) { AcceptedWords(input); }
  }

  /** Conversely, whatever text the relayer accepts as a deposit went to the vault and spells a deposit call for the
      amount and recipient reported.  Written in hex digits of either case, it starts with the calldata
      of the two; only what follows the two words is ignored. */
  lemma AcceptedIsCalldata(receipt: Option<Receipt>, tx: Transaction, config: Config)
    requires VerifyBridgeDeposit(receipt, Some(tx), config).VaultDeposit?
    ensures var v := VerifyBridgeDeposit(receipt, Some(tx), config);
            && Confirmed(receipt, Some(tx))
            && Lower(tx.to) == Lower(config.bridgeVault) && SpellsDeposit(Input(tx), v.amount, v.baseRecipient)
            && (HexText(Input(tx)) ==> EncodesDeposit(FromHex(Input(tx)[..136]), v.amount, v.baseRecipient))
  {
    AcceptedReports(Input(tx), Lower(tx.to), config);
  }

  /** The node knows the transaction and that it succeeded. */
  predicate Confirmed(receipt: Option<Receipt>, tx: Option<Transaction>) {
    receipt.Some? && receipt.value.status == "QTS:1" && tx.Some?
  }

  lemma SelectorsAsText()
    ensures Hex(DEPOSIT_SELECTOR) == DEPOSIT_HEX && Hex(TRANSFER_SELECTOR) == TRANSFER_HEX
    ensures DEPOSIT_HEX != TRANSFER_HEX && |DEPOSIT_HEX| == |TRANSFER_HEX| == 8
  {
    DepositSelectorHex();
    TransferSelectorHex();
    assert DEPOSIT_HEX[0] == '1' && TRANSFER_HEX[0] == 'a';
  }

  lemma DecodedIff(input: string, to: string, config: Config)
    ensures var v := DecodeInput(input, to, config);
            && (v.TokenTransfer? <==> to == Lower(config.qtestContract) && SpellsTransfer(input, config.bridgeVault))
            && (v.TokenTransfer? ==> SpellsAmount(input[72..136], v.amount))
            && (v.VaultDeposit? <==> && to == Lower(config.bridgeVault)
                                     && |input| >= 136 && input[..8] == Hex(DEPOSIT_SELECTOR)
                                     && exists i :: 8 <= i < 72 && input[i] != '0')
  {
    SelectorsAsText();
    if |input| >= 136 {
      var word := input[8..72];
      assert forall i :: 0 <= i < 64 ==> word[i] == input[i + 8];
      assert AllZeroDigits(word) <==> forall i :: 8 <= i < 72 ==> input[i] == '0' by {
        forall i | 8 <= i < 72 && AllZeroDigits(word) ensures input[i] == '0' { assert word[i - 8] == '0'; }
      }
      ReadAmount(input[72..136]);
    }
  }

  /** Why a known, successful transaction is turned away: the first thing wrong with its call. */
  lemma RejectedFor(input: string, to: string, config: Config)
    ensures var v := DecodeInput(input, to, config);
            var (transfer, deposit) := (|input| >= 8 && input[..8] == Hex(TRANSFER_SELECTOR),
                                        |input| >= 8 && input[..8] == Hex(DEPOSIT_SELECTOR));
            && (v == Rejected(CalldataTooShort) <==> |input| < 8)
            && (v == Rejected(UnsupportedSelector) <==> |input| >= 8 && !transfer && !deposit)
            && (v == Rejected(TransferTooShort) <==> transfer && |input| < 136)
            && (v == Rejected(WrongToken) <==> transfer && |input| >= 136 && to != Lower(config.qtestContract))
            && (v == Rejected(WrongVault) <==> && transfer && |input| >= 136 && to == Lower(config.qtestContract)
                                               && !SpellsTransfer(input, config.bridgeVault))
            && (v == Rejected(DepositTooShort) <==> deposit && |input| < 136)
            && (v == Rejected(WrongTarget) <==> deposit && |input| >= 136 && to != Lower(config.bridgeVault))
            && (v == Rejected(ZeroRecipient) <==> && deposit && |input| >= 136 && to == Lower(config.bridgeVault)
                                                  && !v.VaultDeposit?)
  {
    SelectorsAsText();
  }

  /** The relayer's whole decision.  A transaction is a deposit only if its receipt is a success and the node has it: as
      a token transfer exactly when it goes to the token contract and pays the vault, as a vault deposit
      exactly when it goes to the vault with the selector and a recipient that is not all zeros. */
  lemma AcceptedIff(receipt: Option<Receipt>, tx: Option<Transaction>, config: Config)
    ensures var v := VerifyBridgeDeposit(receipt, tx, config);
            && (v.TokenTransfer? <==> && Confirmed(receipt, tx) && Lower(tx.value.to) == Lower(config.qtestContract)
                                      && SpellsTransfer(Input(tx.value), config.bridgeVault))
            && (v.TokenTransfer? ==> SpellsAmount(Input(tx.value)[72..136], v.amount))
            && (v.VaultDeposit? <==> && Confirmed(receipt, tx) && Lower(tx.value.to) == Lower(config.bridgeVault)
                                     && |Input(tx.value)| >= 136 && Input(tx.value)[..8] == Hex(DEPOSIT_SELECTOR)
                                     && exists i :: 8 <= i < 72 && Input(tx.value)[i] != '0')
            && (v == Rejected(ReceiptNotFound) <==> receipt.None?)
            && (v == Rejected(TxFailed) <==> receipt.Some? && receipt.value.status != "QTS:1")
  {
    if tx.Some? { DecodedIff(Input(tx.value), Lower(tx.value.to), config); }
  }

  lemma {:induction false} FromHexShort(s: string)
    ensures 2 * |FromHex(s)| <= |s|
  {
    if |s| >= 2 { FromHexShort(s[2..]); }
  }

  lemma ReadAmount(text: string)
    requires |text| == 64
    ensures SpellsAmount(text, LeValue(text))
  {
    var read := FromHex(DropQtsOrHex(text));
    FromHexShort(DropQtsOrHex(text));
    FromLEZeroTail(read, 32 - |read|);
    LEOfFromLE(read + Zeros(32 - |read|));
  }

  lemma AcceptedWords(input: string)
    requires HexText(input) && |input| >= 136 && input[..8] == DEPOSIT_HEX && !AllZeroDigits(input[8..72])
    ensures EncodesDeposit(FromHex(input[..136]), LeValue(input[72..136]), "0x" + input[8..72])
  {
    var word, last := input[8..72], input[72..136];
    assert input[..136] == DEPOSIT_HEX + word + last;
    WordsEncode(DEPOSIT_HEX, word, last);
  }

  lemma WordsEncode(selector: string, word: string, last: string)
    requires selector == DEPOSIT_HEX && HexText(selector) && HexText(word) && HexText(last)
    requires |word| == 64 && |last| == 64 && !AllZeroDigits(word)
    ensures EncodesDeposit(FromHex(selector + word + last), LeValue(last), "0x" + word)
  {
    var bs, w, l := FromHex(selector + word + last), FromHex(word), FromHex(last);
    assert bs == DEPOSIT_SELECTOR + w + l && |w| == |l| == 32 && l == LE(LeValue(last), 32) && w != Zeros(32) by {
      SelectorText();
      TextParts(selector, word, last);
    }
    assert EvmAddress("0x" + word) == w[12..] by { EvmAddressOfText(word); }
    PartsOfCall(bs, DEPOSIT_SELECTOR, w, l);
  }

  lemma PartsOfCall(bs: seq<byte>, selector: seq<byte>, word: seq<byte>, last: seq<byte>)
    requires bs == selector + word + last && |selector| == 4 && |word| == 32 && |last| == 32
    ensures |bs| == 68 && bs[4..36] == word && bs[16..36] == word[12..]
  {
  }

  /** The legacy flow: a transfer of the token is a deposit exactly when it pays the vault, and then for
      the amount written. */
  lemma TransferIsDecoded(receipt: Receipt, tx: Transaction, config: Config, payee: Hash32, amount: nat)
    requires receipt.status == "QTS:1" && amount <= U128_MAX
    requires IsInputFor(tx.input, Calldata(TRANSFER_SELECTOR, payee, amount))
    requires Lower(tx.to) == Lower(config.qtestContract)
    ensures VerifyBridgeDeposit(Some(receipt), Some(tx), config) ==
            if Lower("QTS:" + Hex(payee)) == Lower(config.bridgeVault) then TokenTransfer(amount)
            else Rejected(WrongVault)
  {
    var bs := Calldata(TRANSFER_SELECTOR, payee, amount);
    InputIsHex(tx, bs);
    CalldataParts(TRANSFER_SELECTOR, payee, amount);
    DecodeTransfer(bs, Lower(tx.to), config);
  }
}
