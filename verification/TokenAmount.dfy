/** Token amounts as text: `parse_token_amount` (quantos-wallet-server/src/routes.rs) and the number that
    `format_token` displays (quantos-wallet-server/src/crypto.rs).  Text is ASCII. */
module TokenAmount {
  import opened Bytes
  import opened Text

  function Pow10(k: nat): (r: nat)
    ensures r > 0
  {
    if k == 0 then 1 else 10 * Pow10(k - 1)
  }

  /** `n` with `k` zeros appended: the product with a power of ten. */
  function Shift(n: nat, k: nat): (r: nat)
    ensures r >= n
  {
    if k == 0 then n else 10 * Shift(n, k - 1)
  }

  lemma {:induction false} ShiftIsTimes(n: nat, k: nat)
    ensures Shift(n, k) == n * Pow10(k)
  {
    if k > 0 {
      ShiftIsTimes(n, k - 1);
      TenTimes(n, Pow10(k - 1));
    }
  }

  lemma TenTimes(v: nat, p: nat)
    ensures 10 * (v * p) == v * (10 * p)
  {
  }

  lemma {:induction false} ShiftAdds(a: nat, b: nat, k: nat)
    ensures Shift(a + b, k) == Shift(a, k) + Shift(b, k)
  {
    if k > 0 { ShiftAdds(a, b, k - 1); }
  }

  lemma {:induction false} ShiftTwice(n: nat, i: nat, j: nat)
    ensures Shift(Shift(n, i), j) == Shift(n, i + j)
  {
    if j > 0 { ShiftTwice(n, i, j - 1); }
  }

  /** Division and remainder, with what is known of them. */
  function Div(n: nat, d: nat): (q: nat)
    requires d > 0
    ensures q * d <= n
  {
    n / d
  }

  function Mod(n: nat, d: nat): (r: nat)
    requires d > 0
    ensures r < d && n == Div(n, d) * d + r
  {
    n % d
  }

  lemma DivAtMost(n: nat, d: nat)
    requires d > 0
    ensures Div(n, d) <= n
  {
    MulOrder(d, 1, Div(n, d));
  }

  lemma MulOrder(a: int, b: int, c: int)
    requires c >= 0
    ensures a >= b ==> a * c >= b * c
  {
    if a >= b {
      assert a * c == b * c + (a - b) * c;
    }
  }

  // ------------------------------------------------------------------ decimal numbers

  predicate IsDigit(c: char) {
    '0' <= c <= '9'
  }

  function Digit(n: nat): (c: char)
    requires n < 10
    ensures IsDigit(c) && (c - '0') as nat == n
  {
    '0' + n as char
  }

  predicate AllDigits(s: string) {
    forall i :: 0 <= i < |s| ==> IsDigit(s[i])
  }

  function Value(s: string): nat
    requires AllDigits(s)
  {
    if s == "" then 0 else 10 * Value(s[..|s| - 1]) + (s[|s| - 1] - '0') as nat
  }

  /** Rust's `parse::<u128>`: an optional plus sign, then digits, and the value must fit. */
  function ParseU128(s: string): Option<nat> {
    var digits := if s != "" && s[0] == '+' then s[1..] else s;
    if digits == "" || !AllDigits(digits) || Value(digits) > U128_MAX then None else Some(Value(digits))
  }

  function Decimal(n: nat): (s: string)
    ensures s != ""
  {
    if n < 10 then [Digit(n)] else Decimal(n / 10) + [Digit(n % 10)]
  }

  function PadZeros(s: string, width: nat): string {
    Fill(if |s| < width then width - |s| else 0) + s
  }

  function Split(s: string): (parts: seq<string>)
    ensures |parts| > 0
  {
    if s == "" then [""]
    else
      var rest := Split(s[1..]);
      if s[0] == '.' then [""] + rest else [[s[0]] + rest[0]] + rest[1..]
  }

  // ------------------------------------------------------------------ the two operations

  /** `Overflow`: an operation leaves its integer type, so the answer depends on the build. */
  datatype Parsed = Ok(amount: nat) | InvalidAmount | InvalidWhole | InvalidFraction | Overflow

  function ParseTokenAmount(s: string, decimals: nat): Parsed {
    var parts := Split(s);
    if |parts| > 2 then InvalidAmount
    else
      var fracStr := if |parts| == 1 then "" else parts[1];
      var whole := ParseU128(parts[0]);
      if whole.None? then InvalidWhole
      else
        var trimmed := if |fracStr| > decimals then fracStr[..decimals] else fracStr;
        var frac := if fracStr == "" then Some(0) else ParseU128(trimmed);
        if frac.None? then InvalidFraction
        else Scaled(whole.value, frac.value, |fracStr|, decimals)
  }

  /** The arithmetic at the end, operation by operation. */
  function Scaled(whole: nat, frac: nat, fracLen: nat, decimals: nat): Parsed {
    if Pow10(decimals) > U128_MAX then Overflow
    else if frac != 0 && fracLen > decimals then Overflow
    else
      var fracScaled := if frac == 0 then 0 else Shift(frac, decimals - fracLen);
      if fracScaled > U128_MAX || Shift(whole, decimals) > U128_MAX
         || Shift(whole, decimals) + fracScaled > U128_MAX then Overflow
      else Ok(Shift(whole, decimals) + fracScaled)
  }

  function Saturating(a: nat, b: nat): nat {
    if a < b then 0 else a - b
  }

  /** The number `format_token` shows, without the symbol. */
  function FormatToken(amount: nat, decimals: nat, display: nat): string {
    var whole, fraction := Div(amount, Pow10(decimals)), Mod(amount, Pow10(decimals));
    Decimal(whole) + "." + PadZeros(Decimal(Div(fraction, Pow10(Saturating(decimals, display)))), display)
  }

  // ------------------------------------------------------------------ digits and back

  lemma ValueSnoc(s: string, c: char)
    requires AllDigits(s) && IsDigit(c)
    ensures AllDigits(s + [c]) && Value(s + [c]) == 10 * Value(s) + (c - '0') as nat
  {
    assert (s + [c])[..|s|] == s;
  }

  lemma {:induction false} DecimalRoundTrip(n: nat)
    ensures AllDigits(Decimal(n)) && Value(Decimal(n)) == n
  {
    if n < 10 {
      assert Decimal(n) == "" + [Digit(n)];
      ValueSnoc("", Digit(n));
    } else {
      DecimalRoundTrip(n / 10);
      ValueSnoc(Decimal(n / 10), Digit(n % 10));
    }
  }

  lemma {:induction false} DecimalLength(n: nat, k: nat)
    requires n < Pow10(k) && k > 0
    ensures |Decimal(n)| <= k
    decreases k
  {
    if n >= 10 { DecimalLength(n / 10, k - 1); }
  }

  lemma {:induction false} PaddingKeepsValue(s: string, zeros: nat)
    requires AllDigits(s)
    ensures var p := Fill(zeros) + s; AllDigits(p) && Value(p) == Value(s)
    decreases |s|, zeros
  {
    var p := Fill(zeros) + s;
    if s != "" {
      PaddingKeepsValue(s[..|s| - 1], zeros);
      assert p[..|p| - 1] == Fill(zeros) + s[..|s| - 1];
    } else if zeros > 0 {
      PaddingKeepsValue("", zeros - 1);
      assert p[..|p| - 1] == Fill(zeros - 1) + "";
    }
  }

  lemma {:induction false} ValueBound(s: string)
    requires AllDigits(s)
    ensures Value(s) < Pow10(|s|)
  {
    if s != "" { ValueBound(s[..|s| - 1]); }
  }

  lemma ParseDigits(s: string)
    requires AllDigits(s) && s != "" && Value(s) <= U128_MAX
    ensures ParseU128(s) == Some(Value(s))
  {
    assert IsDigit(s[0]);
  }

  // ------------------------------------------------------------------ splitting

  lemma {:induction false} SplitPlain(s: string)
    requires '.' !in s
    ensures Split(s) == [s]
  {
    if s != "" {
      SplitPlain(s[1..]);
      assert s == [s[0]] + s[1..];
    }
  }

  lemma {:induction false} SplitAtDot(a: string, b: string)
    requires '.' !in a && '.' !in b
    ensures Split(a + "." + b) == [a, b]
  {
    var s := a + "." + b;
    if a == "" {
      SplitPlain(b);
      assert s[1..] == b;
    } else {
      SplitAtDot(a[1..], b);
      assert s[1..] == a[1..] + "." + b;
      assert a == [a[0]] + a[1..];
    }
  }

  lemma DigitsHaveNoDot(s: string)
    requires AllDigits(s)
    ensures '.' !in s
  {
  }

  // ------------------------------------------------------------------ the round trip

  function RoundDown(amount: nat, unit: nat): nat
    requires unit > 0
  {
    Div(amount, unit) * unit
  }

  lemma Pow10Sum(a: nat, b: nat)
    ensures Pow10(a + b) == Pow10(a) * Pow10(b)
  {
    if a > 0 {
      Pow10Sum(a - 1, b);
      assert 10 * (Pow10(a - 1) * Pow10(b)) == (10 * Pow10(a - 1)) * Pow10(b);
    }
  }

  /** A quotient is the only multiplier that leaves a remainder below the divisor. */
  lemma DivUnique(n: nat, d: nat, q: nat, r: nat)
    requires d > 0 && r < d && n == q * d + r
    ensures Div(n, d) == q && Mod(n, d) == r
  {
    var q', r' := Div(n, d), Mod(n, d);
    NoFullStep(q - q', d, r' - r);
  }

  lemma NoFullStep(k: int, d: int, e: int)
    requires -d < e < d && k * d == e
    ensures k == 0
  {
    MulOrder(k, 1, d);
    MulOrder(-1, k, d);
  }

  /** Dividing the fraction and putting it back rounds the whole amount down. */
  lemma RoundDownParts(amount: nat, unit: nat, units: nat)
    requires unit > 0 && units > 0 && units * unit > 0
    ensures var (whole, fraction) := (Div(amount, units * unit), Mod(amount, units * unit));
            && whole * (units * unit) + Div(fraction, unit) * unit == RoundDown(amount, unit)
            && Div(fraction, unit) < units
  {
    var whole, fraction := Div(amount, units * unit), Mod(amount, units * unit);
    var q, r := Div(fraction, unit), Mod(fraction, unit);
    assert whole * (units * unit) + q * unit == (whole * units + q) * unit;
    DivUnique(amount, unit, whole * units + q, r);
    BelowUnits(q, unit, units, r);
  }

  lemma BelowUnits(q: nat, unit: nat, units: nat, r: nat)
    requires unit > 0 && q * unit + r < units * unit
    ensures q < units
  {
    MulOrder(q, units, unit);
  }

  /** What the parser sees of a displayed amount. */
  lemma ParseOfFormat(amount: nat, decimals: nat, display: nat)
    requires amount <= U128_MAX
    ensures var whole := Div(amount, Pow10(decimals));
            && Split(FormatToken(amount, decimals, display)) == [Decimal(whole), Shown(amount, decimals, display)]
            && ParseU128(Decimal(whole)) == Some(whole)
  {
    var whole, scaled := Div(amount, Pow10(decimals)), ShownValue(amount, decimals, display);
    DecimalRoundTrip(whole);
    ShownDigits(amount, decimals, display);
    DigitsHaveNoDot(Decimal(whole));
    DigitsHaveNoDot(Shown(amount, decimals, display));
    SplitAtDot(Decimal(whole), Shown(amount, decimals, display));
    DivAtMost(amount, Pow10(decimals));
    ParseDigits(Decimal(whole));
  }

  function ShownValue(amount: nat, decimals: nat, display: nat): nat {
    Div(Mod(amount, Pow10(decimals)), Pow10(Saturating(decimals, display)))
  }

  /** The digits after the point. */
  function Shown(amount: nat, decimals: nat, display: nat): string {
    PadZeros(Decimal(ShownValue(amount, decimals, display)), display)
  }

  lemma ShownDigits(amount: nat, decimals: nat, display: nat)
    ensures var shown := Shown(amount, decimals, display);
            AllDigits(shown) && shown != "" && Value(shown) == ShownValue(amount, decimals, display)
  {
    var digits := Decimal(ShownValue(amount, decimals, display));
    DecimalRoundTrip(ShownValue(amount, decimals, display));
    PaddingKeepsValue(digits, if |digits| < display then display - |digits| else 0);
  }

  /** With no more places shown than the token has, the digits after the point are exactly that many
      (one, if none is asked for). */
  lemma ShownLength(amount: nat, decimals: nat, display: nat)
    requires display <= decimals
    ensures ShownValue(amount, decimals, display) < Pow10(display)
    ensures |Shown(amount, decimals, display)| == if display == 0 then 1 else display
  {
    var unit, units := Pow10(decimals - display), Pow10(display);
    Pow10Sum(display, decimals - display);
    RoundDownParts(amount, unit, units);
    if display > 0 { DecimalLength(ShownValue(amount, decimals, display), display); }
  }

  /** The parser on a displayed amount, down to its arithmetic. */
  lemma ParseShown(amount: nat, decimals: nat, display: nat)
    requires amount <= U128_MAX && 0 < decimals && display <= decimals
    ensures ParseTokenAmount(FormatToken(amount, decimals, display), decimals) ==
            Scaled(Div(amount, Pow10(decimals)), ShownValue(amount, decimals, display),
                   |Shown(amount, decimals, display)|, decimals)
  {
    var shown := Shown(amount, decimals, display);
    ParseOfFormat(amount, decimals, display);
    ShownLength(amount, decimals, display);
    ShownDigits(amount, decimals, display);
    DivAtMost(Mod(amount, Pow10(decimals)), Pow10(Saturating(decimals, display)));
    DivAtMost(amount, 1);
    ModAtMost(amount, Pow10(decimals));
    ParseDigits(shown);
  }

  lemma ModAtMost(n: nat, d: nat)
    requires d > 0
    ensures Mod(n, d) <= n
  {
    var q := Div(n, d);
    assert q * d >= 0;
  }

  /** Showing `display` of the token's places and parsing that gives the amount rounded down to them. */
  lemma DisplayRoundsDown(amount: nat, decimals: nat, display: nat)
    requires amount <= U128_MAX && Pow10(decimals) <= U128_MAX && 0 < decimals && display <= decimals
    ensures ParseTokenAmount(FormatToken(amount, decimals, display), decimals) ==
            Ok(RoundDown(amount, Pow10(decimals - display)))
  {
    var whole, shown := Div(amount, Pow10(decimals)), ShownValue(amount, decimals, display);
    var length := if display == 0 then 1 else display;
    var wholePart, shownPart := Shift(whole, decimals), Shift(shown, decimals - length);
    assert wholePart + shownPart == RoundDown(amount, Pow10(decimals - display)) <= amount by {
      ShownLength(amount, decimals, display);
      ShownAddsUp(amount, decimals, display);
      ShiftIsTimes(whole, decimals);
      ShiftIsTimes(shown, decimals - length);
    }
    assert Scaled(whole, shown, length, decimals) == Ok(wholePart + shownPart) by {
      ScaledSum(whole, shown, length, decimals);
    }
    assert |Shown(amount, decimals, display)| == length by { ShownLength(amount, decimals, display); }
    ParseShown(amount, decimals, display);
  }

  lemma ShownAddsUp(amount: nat, decimals: nat, display: nat)
    requires display <= decimals
    ensures Div(amount, Pow10(decimals)) * Pow10(decimals)
            + ShownValue(amount, decimals, display) * Pow10(decimals - display)
            == RoundDown(amount, Pow10(decimals - display)) <= amount
  {
    Pow10Sum(display, decimals - display);
    RoundDownParts(amount, Pow10(decimals - display), Pow10(display));
  }

  lemma NoPlacesFails(amount: nat, display: nat)
    requires amount <= U128_MAX
    ensures ParseTokenAmount(FormatToken(amount, 0, display), 0) == InvalidFraction
  {
    ParseOfFormat(amount, 0, display);
    ShownDigits(amount, 0, display);
    assert Shown(amount, 0, display)[..0] == "";
  }

  lemma DivByOne(n: nat)
    ensures Div(n, 1) == n && RoundDown(n, 1) == n
  {
  }

  lemma AllDigitsPrefix(s: string, n: nat)
    requires AllDigits(s) && n <= |s|
    ensures AllDigits(s[..n]) && Value(s[..n]) < Pow10(n)
  {
    ValueBound(s[..n]);
  }

  /** With more places shown than the token has, the fraction comes back only if there is none. */
  lemma TooManyPlaces(amount: nat, decimals: nat, display: nat)
    requires amount <= U128_MAX && Pow10(decimals) <= U128_MAX && 0 < decimals < display
    ensures ParseTokenAmount(FormatToken(amount, decimals, display), decimals) == Ok(amount) <==>
            Mod(amount, Pow10(decimals)) == 0
  {
    var whole, fraction := Div(amount, Pow10(decimals)), Mod(amount, Pow10(decimals));
    var shown := Shown(amount, decimals, display);
    ParseOfFormat(amount, decimals, display);
    ShownDigits(amount, decimals, display);
    DivByOne(fraction);
    DecimalLength(fraction, decimals);
    AllDigitsPrefix(shown, decimals);
    ParseDigits(shown[..decimals]);
    ShiftIsTimes(whole, decimals);
    if fraction == 0 {
      assert shown[..decimals] == Fill(decimals) + "";
      PaddingKeepsValue("", decimals);
    }
  }

  /** Exactly when a displayed amount parses back to itself rounded down to the places shown. */
  lemma RoundTripIff(amount: nat, decimals: nat, display: nat)
    requires amount <= U128_MAX && Pow10(decimals) <= U128_MAX
    ensures ParseTokenAmount(FormatToken(amount, decimals, display), decimals)
            == Ok(RoundDown(amount, Pow10(Saturating(decimals, display))))
            <==> decimals > 0 && (display <= decimals || Mod(amount, Pow10(decimals)) == 0)
  {
    DivByOne(amount);
    if decimals == 0 {
      NoPlacesFails(amount, display);
    } else if display <= decimals {
      DisplayRoundsDown(amount, decimals, display);
    } else {
      TooManyPlaces(amount, decimals, display);
    }
  }

  // ------------------------------------------------------------------ what parsing means

  lemma {:induction false} ValueConcat(a: string, b: string)
    requires AllDigits(a) && AllDigits(b)
    ensures AllDigits(a + b) && Value(a + b) == Shift(Value(a), |b|) + Value(b)
  {
    if b == "" {
      assert a + b == a;
    } else {
      var front, c := b[..|b| - 1], b[|b| - 1];
      ValueConcat(a, front);
      ValueSnoc(a + front, c);
      assert a + b == a + front + [c];
    }
  }

  /** Parsing is exact: digits before and after the point are read as one number in units of the last
      place, and the parser answers unless that number of raw units does not fit. */
  lemma ParseIsExact(whole: string, frac: string, decimals: nat)
    requires AllDigits(whole) && whole != "" && AllDigits(frac) && |frac| <= decimals
    requires Pow10(decimals) <= U128_MAX
    ensures var exact := Shift(Value(whole + frac), decimals - |frac|);
            var r := ParseTokenAmount(whole + "." + frac, decimals);
            (exact <= U128_MAX ==> r == Ok(exact)) && (exact > U128_MAX ==> !r.Ok?)
  {
    var w, f := Value(whole), Value(frac);
    var r := ParseTokenAmount(whole + "." + frac, decimals);
    ValueConcat(whole, frac);
    assert r == if w > U128_MAX then InvalidWhole else Scaled(w, f, |frac|, decimals) by {
      ParseParts(whole, frac, decimals);
    }
    InUnits(w, f, |frac|, decimals, Value(whole + frac), r);
  }

  lemma InUnits(w: nat, f: nat, len: nat, decimals: nat, v: nat, r: Parsed)
    requires len <= decimals && Pow10(decimals) <= U128_MAX && v == Shift(w, len) + f
    requires r == if w > U128_MAX then InvalidWhole else Scaled(w, f, len, decimals)
    ensures var exact := Shift(v, decimals - len);
            (exact <= U128_MAX ==> r == Ok(exact)) && (exact > U128_MAX ==> !r.Ok?)
  {
    ScaledIsExact(w, f, len, decimals);
  }

  lemma ParseParts(whole: string, frac: string, decimals: nat)
    requires AllDigits(whole) && whole != "" && AllDigits(frac) && |frac| <= decimals
    requires Pow10(decimals) <= U128_MAX
    ensures ParseTokenAmount(whole + "." + frac, decimals) ==
            if Value(whole) > U128_MAX then InvalidWhole else Scaled(Value(whole), Value(frac), |frac|, decimals)
  {
    DigitsHaveNoDot(whole);
    DigitsHaveNoDot(frac);
    SplitAtDot(whole, frac);
    ParsesUnlessTooBig(whole);
    if frac != "" {
      ValueBound(frac);
      Pow10Order(|frac|, decimals);
      ParsesUnlessTooBig(frac);
    }
  }

  lemma ParsesUnlessTooBig(s: string)
    requires AllDigits(s) && s != ""
    ensures ParseU128(s) == if Value(s) > U128_MAX then None else Some(Value(s))
  {
    assert IsDigit(s[0]);
  }

  lemma Pow10Order(a: nat, b: nat)
    requires a <= b
    ensures Pow10(a) <= Pow10(b)
  {
    Pow10Sum(a, b - a);
    MulOrder(Pow10(b - a), 1, Pow10(a));
  }

  lemma ScaledIsExact(w: nat, f: nat, len: nat, decimals: nat)
    requires len <= decimals && Pow10(decimals) <= U128_MAX
    ensures var exact := Shift(Shift(w, len) + f, decimals - len);
            && (exact <= U128_MAX ==> w <= U128_MAX && Scaled(w, f, len, decimals) == Ok(exact))
            && (exact > U128_MAX ==> Scaled(w, f, len, decimals) == Overflow)
  {
    ShiftAdds(Shift(w, len), f, decimals - len);
    ShiftTwice(w, len, decimals - len);
    ScaledSum(w, f, len, decimals);
  }

  lemma {:induction false} ShiftZero(k: nat)
    ensures Shift(0, k) == 0
  {
    if k > 0 { ShiftZero(k - 1); }
  }

  lemma ScaledSum(w: nat, f: nat, len: nat, decimals: nat)
    requires len <= decimals && Pow10(decimals) <= U128_MAX
    ensures var sum := Shift(w, decimals) + Shift(f, decimals - len);
            Scaled(w, f, len, decimals) == if sum > U128_MAX then Overflow else Ok(sum)
  {
    ShiftZero(decimals - len);
  }

  /** Text without a point is a whole number of tokens. */
  lemma PlainIsScaled(whole: string, decimals: nat)
    requires AllDigits(whole) && whole != "" && Pow10(decimals) <= U128_MAX
    ensures var (exact, r) := (Value(whole) * Pow10(decimals), ParseTokenAmount(whole, decimals));
            (exact <= U128_MAX ==> r == Ok(exact)) && (exact > U128_MAX ==> !r.Ok?)
  {
    DigitsHaveNoDot(whole);
    SplitPlain(whole);
    ParsesUnlessTooBig(whole);
    ShiftIsTimes(Value(whole), decimals);
    ShiftZero(decimals);
    ScaledSum(Value(whole), 0, 0, decimals);
  }

  /** The text writes the amount: digits, and if there is a point, up to as many digits after it as the token has
      places. */
  ghost predicate Writes(text: string, decimals: nat, amount: nat) {
    exists whole: string, frac: string :: WritesParts(text, whole, frac, decimals, amount)
  }

  predicate WritesParts(text: string, whole: string, frac: string, decimals: nat, amount: nat) {
    && whole != "" && AllDigits(whole) && AllDigits(frac) && |frac| <= decimals
    && ((text == whole && frac == "") || text == whole + "." + frac)
    && amount == Value(whole) * Pow10(decimals) + Value(frac) * Pow10(decimals - |frac|)
  }

  /** Text that writes an amount is parsed to it, with a point or without, unless it is too big. */
  lemma WrittenIsParsed(text: string, decimals: nat, amount: nat)
    requires Writes(text, decimals, amount) && Pow10(decimals) <= U128_MAX
    ensures amount <= U128_MAX ==> ParseTokenAmount(text, decimals) == Ok(amount)
    ensures amount > U128_MAX ==> !ParseTokenAmount(text, decimals).Ok?
  {
    var whole, frac :| WritesParts(text, whole, frac, decimals, amount);
    if text == whole && frac == "" {
      PlainIsScaled(whole, decimals);
    } else {
      UnitsAddUp(whole, frac, decimals);
      ParseIsExact(whole, frac, decimals);
    }
  }

  lemma UnitsAddUp(whole: string, frac: string, decimals: nat)
    requires AllDigits(whole) && AllDigits(frac) && |frac| <= decimals
    ensures AllDigits(whole + frac)
    ensures Shift(Value(whole + frac), decimals - |frac|)
            == Value(whole) * Pow10(decimals) + Value(frac) * Pow10(decimals - |frac|)
  {
    var w, f, k := Value(whole), Value(frac), decimals - |frac|;
    ValueConcat(whole, frac);
    ShiftAdds(Shift(w, |frac|), f, k);
    ShiftTwice(w, |frac|, k);
    ShiftIsTimes(w, decimals);
    ShiftIsTimes(f, k);
  }

  /** More digits than the token has places are accepted exactly when those that fit are zeros, and then dropped. */
  lemma LongFraction(whole: string, frac: string, decimals: nat)
    requires AllDigits(whole) && whole != "" && AllDigits(frac) && |frac| > decimals && Pow10(decimals) <= U128_MAX
    ensures var (exact, r) := (Value(whole) * Pow10(decimals), ParseTokenAmount(whole + "." + frac, decimals));
            && (r.Ok? <==> decimals > 0 && exact <= U128_MAX && forall i :: 0 <= i < decimals ==> frac[i] == '0')
            && (r.Ok? ==> r.amount == exact)
  {
    var kept := frac[..decimals];
    DigitsHaveNoDot(whole);
    DigitsHaveNoDot(frac);
    SplitAtDot(whole, frac);
    ParsesUnlessTooBig(whole);
    AllDigitsPrefix(frac, decimals);
    ZeroDigits(kept);
    ShiftIsTimes(Value(whole), decimals);
    if decimals > 0 {
      ParsesUnlessTooBig(kept);
      assert (forall i :: 0 <= i < decimals ==> frac[i] == '0') <==> Value(kept) == 0;
    }
  }

  lemma {:induction false} ZeroDigits(s: string)
    requires AllDigits(s)
    ensures Value(s) == 0 <==> forall i :: 0 <= i < |s| ==> s[i] == '0'
  {
    if s != "" { ZeroDigits(s[..|s| - 1]); }
  }

  // ------------------------------------------------------------------ what is refused

  lemma {:induction false} SplitMany(s: string, i: nat, j: nat)
    requires i < |s| && s[i] == '.'
    ensures |Split(s)| >= 2
    ensures i < j < |s| && s[j] == '.' ==> |Split(s)| >= 3
  {
    if i > 0 {
      SplitMany(s[1..], i - 1, if j > 0 then j - 1 else 0);
    } else if i < j < |s| && s[j] == '.' {
      SplitMany(s[1..], j - 1, 0);
    }
  }

  /** Two points are one too many. */
  lemma TwoPointsRefused(s: string, i: nat, j: nat, decimals: nat)
    requires i < j < |s| && s[i] == '.' && s[j] == '.'
    ensures ParseTokenAmount(s, decimals) == InvalidAmount
  {
    SplitMany(s, i, j);
  }

  /** Digits, after a plus sign or not. */
  predicate Numeral(s: string) {
    (s != "" && AllDigits(s)) || (|s| > 1 && s[0] == '+' && AllDigits(s[1..]))
  }

  function NumeralValue(s: string): nat
    requires Numeral(s)
  {
    if s[0] == '+' then Value(s[1..]) else Value(s)
  }

  lemma NumeralIff(s: string)
    ensures ParseU128(s).Some? <==> Numeral(s) && NumeralValue(s) <= U128_MAX
    ensures ParseU128(s).Some? ==> ParseU128(s).value == NumeralValue(s)
  {
    if s != "" && AllDigits(s) { assert IsDigit(s[0]); }
  }

  /** Nothing but numerals around at most one point is an amount, the digits beyond the token's places aside. */
  lemma AmountsAreNumerals(whole: string, frac: string, decimals: nat)
    requires '.' !in whole && '.' !in frac
    ensures ParseTokenAmount(whole, decimals).Ok? ==> Numeral(whole)
    ensures ParseTokenAmount(whole + "." + frac, decimals).Ok? ==>
              && Numeral(whole)
              && (frac != "" ==> Numeral(if |frac| > decimals then frac[..decimals] else frac))
    ensures !Numeral(whole) ==> ParseTokenAmount(whole, decimals) == InvalidWhole
    ensures !Numeral(whole) ==> ParseTokenAmount(whole + "." + frac, decimals) == InvalidWhole
  {
    SplitPlain(whole);
    SplitAtDot(whole, frac);
    NumeralIff(whole);
    NumeralIff(if |frac| > decimals then frac[..decimals] else frac);
  }
}
