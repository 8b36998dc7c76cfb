/** Hexadecimal text: the encoder the services write with, the decoders they read with, and the prefixes they
    strip. */
module Hexadecimal {
  import opened Bytes
  import opened Text

  function HexDigit(n: nat): (c: char)
    requires n < 16
    ensures HexValue(c) == Some(n) && LowerChar(c) == c
  {
    if n < 10 then '0' + n as char else 'a' + (n - 10) as char
  }

  /** Hexadecimal digits of either case. */
  function HexValue(c: char): (r: Option<nat>)
    ensures r.Some? ==> r.value < 16
  {
    if '0' <= c <= '9' then Some((c - '0') as nat)
    else if 'a' <= c <= 'f' then Some((c - 'a') as nat + 10)
    else if 'A' <= c <= 'F' then Some((c - 'A') as nat + 10)
    else None
  }

  function Hex(bs: seq<byte>): (s: string)
    ensures |s| == 2 * |bs|
  {
    if bs == [] then "" else [HexDigit(bs[0] / 16), HexDigit(bs[0] % 16)] + Hex(bs[1..])
  }

  lemma {:induction false} HexIsLowerCase(bs: seq<byte>)
    ensures forall i :: 0 <= i < |Hex(bs)| ==> HexValue(Hex(bs)[i]).Some? && LowerChar(Hex(bs)[i]) == Hex(bs)[i]
  {
    if bs != [] { HexIsLowerCase(bs[1..]); }
  }

  /** Strict decoding, as the wallet's hex library does it: every pair of digits, or nothing. */
  function HexDecode(s: string): Option<seq<byte>> {
    if s == "" then Some([])
    else if |s| == 1 || HexValue(s[0]).None? || HexValue(s[1]).None? then None
    else
      var rest := HexDecode(s[2..]);
      if rest.None? then None else Some([16 * HexValue(s[0]).value + HexValue(s[1]).value] + rest.value)
  }

  /** Lenient decoding, as a Node.js buffer does it: the pairs before the first that is not one. */
  function FromHex(s: string): seq<byte> {
    if |s| < 2 || HexValue(s[0]).None? || HexValue(s[1]).None? then []
    else [16 * HexValue(s[0]).value + HexValue(s[1]).value] + FromHex(s[2..])
  }

  lemma {:induction false} HexConcat(a: seq<byte>, b: seq<byte>)
    ensures Hex(a + b) == Hex(a) + Hex(b)
  {
    if a == [] {
      assert a + b == b;
    } else {
      var pair, x, y := [HexDigit(a[0] / 16), HexDigit(a[0] % 16)], Hex(a[1..]), Hex(b);
      assert Hex(a + b) == pair + (x + y) by {
        HexConcat(a[1..], b);
        assert (a + b)[1..] == a[1..] + b;
      }
      Associative(pair, x, y);
    }
  }

  lemma {:induction false} HexRoundTrip(bs: seq<byte>)
    ensures FromHex(Hex(bs)) == bs && HexDecode(Hex(bs)) == Some(bs)
  {
    if bs != [] {
      HexRoundTrip(bs[1..]);
      assert Hex(bs)[2..] == Hex(bs[1..]);
      assert bs == [bs[0]] + bs[1..];
    }
  }

  predicate HexText(s: string) {
    forall i :: 0 <= i < |s| ==> HexValue(s[i]).Some?
  }

  lemma {:induction false} FromHexConcat(a: string, b: string)
    requires HexText(a) && |a| % 2 == 0
    ensures FromHex(a + b) == FromHex(a) + FromHex(b)
  {
    if a == "" {
      assert a + b == b;
    } else {
      var first: seq<byte> := [16 * HexValue(a[0]).value + HexValue(a[1]).value];
      var x, y := FromHex(a[2..]), FromHex(b);
      assert FromHex(a + b) == first + (x + y) by {
        FromHexConcat(a[2..], b);
        assert (a + b)[2..] == a[2..] + b;
      }
      assert FromHex(a) == first + x;
      Associative(first, x, y);
    }
  }

  lemma {:induction false} FromHexLength(a: string)
    requires HexText(a) && |a| % 2 == 0
    ensures 2 * |FromHex(a)| == |a|
  {
    if a != "" { FromHexLength(a[2..]); }
  }

  lemma NoPrefixInText(s: string)
    requires HexText(s)
    ensures StripAnyCase(s, "0x") == s && StripAnyCase(s, "QTS:") == s
  {
    if |s| >= 2 {
      assert Lower(s[..2])[1] == LowerChar(s[1]) && Lower("0x")[1] == 'x' && HexValue(s[1]).Some?;
    }
    if |s| >= 4 {
      assert Lower(s[..4])[0] == LowerChar(s[0]) && Lower("QTS:")[0] == 'q' && HexValue(s[0]).Some?;
    }
  }

  /** Decoding succeeds exactly on an even number of digits. */
  lemma {:induction false} DecodesIff(s: string)
    ensures HexDecode(s).Some? <==> HexText(s) && |s| % 2 == 0
    ensures HexDecode(s).Some? ==> 2 * |HexDecode(s).value| == |s|
  {
    if |s| >= 2 {
      var rest := s[2..];
      DecodesIff(rest);
      assert forall i :: 2 <= i < |s| ==> s[i] == rest[i - 2];
      assert forall i :: 0 <= i < |rest| ==> rest[i] == s[i + 2];
    }
  }

  /** Encoding again gives the digits in lower case. */
  lemma {:induction false} HexOfDecoded(s: string)
    requires HexDecode(s).Some?
    ensures Hex(HexDecode(s).value) == Lower(s)
  {
    if s != "" {
      var rest, bs := HexDecode(s[2..]).value, HexDecode(s).value;
      HexOfDecoded(s[2..]);
      assert bs[1..] == rest;
      assert Hex(bs) == [LowerChar(s[0]), LowerChar(s[1])] + Hex(rest) by { PairOfDigits(s[0], s[1]); }
      LowerPair(s);
    }
  }

  lemma LowerPair(s: string)
    requires |s| >= 2
    ensures Lower(s) == [LowerChar(s[0]), LowerChar(s[1])] + Lower(s[2..])
  {
  }

  lemma PairOfDigits(x: char, y: char)
    requires HexValue(x).Some? && HexValue(y).Some?
    ensures var b := 16 * HexValue(x).value + HexValue(y).value;
            HexDigit(b / 16) == LowerChar(x) && HexDigit(b % 16) == LowerChar(y)
  {
  }

  lemma HexInjective(a: seq<byte>, b: seq<byte>)
    requires Hex(a) == Hex(b)
    ensures a == b
  {
    HexRoundTrip(a);
    HexRoundTrip(b);
  }

  // ------------------------------------------------------------------ prefixes and hashes

  lemma LowerValue(c: char)
    ensures HexValue(LowerChar(c)) == HexValue(c)
  {
  }

  /** Both decoders read digits of either case alike. */
  lemma {:induction false} CaseDoesNotMatter(s: string)
    ensures HexDecode(Lower(s)) == HexDecode(s) && FromHex(Lower(s)) == FromHex(s)
  {
    if |s| >= 2 {
      CaseDoesNotMatter(s[2..]);
      assert Lower(s)[2..] == Lower(s[2..]);
      LowerValue(s[0]);
      LowerValue(s[1]);
    }
  }

  /** One of the three prefixes that the wallet and the node strip. */
  function Cleaned(value: string): string {
    if "QTS:" <= value then StripPrefix(value, "QTS:")
    else if "qts:" <= value then StripPrefix(value, "qts:")
    else StripPrefix(value, "0x")
  }

  /** The transaction hash a text stands for at the node, if any. */
  function NodeHash(s: string): Option<Hash32> {
    var bytes := HexDecode(Cleaned(s));
    if bytes.Some? && |bytes.value| == 32 then Some(bytes.value) else None
  }

  /** Each prefix is dropped once, whatever comes after it; text without one is kept. */
  lemma CleanedSpellings(s: string)
    ensures Cleaned("QTS:" + s) == s && Cleaned("qts:" + s) == s && Cleaned("0x" + s) == s
    ensures HexText(s) ==> Cleaned(s) == s
  {
    var a, b, c := "QTS:" + s, "qts:" + s, "0x" + s;
    assert a[0] == 'Q' && a[..4] == "QTS:" && a[4..] == s;
    assert b[0] == 'q' && b[..4] == "qts:" && b[4..] == s;
    assert c[0] == '0' && c[..2] == "0x" && c[2..] == s;
    if HexText(s) && |s| >= 2 {
      assert HexValue(s[0]).Some? && HexValue(s[1]).Some?;
      assert HexValue('Q').None? && HexValue('q').None? && HexValue('x').None?;
    }
  }

  /** Every transaction hash is found under each of its four spellings. */
  lemma SpellingsResolve(hash: Hash32)
    ensures forall prefix :: prefix in {"", "0x", "QTS:", "qts:"} ==> NodeHash(prefix + Hex(hash)) == Some(hash)
  {
    var text := Hex(hash);
    HexRoundTrip(hash);
    HexIsLowerCase(hash);
    CleanedSpellings(text);
    assert "" + text == text;
  }
}
