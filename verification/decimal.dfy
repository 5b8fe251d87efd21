/** Signed decimal integers: the part of Python's `float()` that NOAA readings
    use, an optional sign followed by decimal digits (`"+0150"`, `"-0050"`,
    `"9999"`), together with a formatter that writes such numbers. */
module Decimal {
  import opened Wrappers

  predicate IsDigit(c: char) { '0' <= c <= '9' }

  predicate IsSign(c: char) { c == '+' || c == '-' }

  function DigitValue(c: char): (d: nat)
    requires IsDigit(c)
    ensures d < 10
  {
    c as int - '0' as int
  }

  function DigitChar(d: nat): (c: char)
    requires d < 10
    ensures IsDigit(c) && DigitValue(c) == d
  {
    ('0' as int + d) as char
  }

  predicate AllDigits(s: string) {
    forall i :: 0 <= i < |s| ==> IsDigit(s[i])
  }

  /** The accepted grammar, stated position by position: every character is a
      digit, except that the first may be a sign, and the last is a digit. */
  predicate IsSignedDecimal(s: string) {
    && |s| > 0
    && IsDigit(s[|s| - 1])
    && forall i :: 0 <= i < |s| ==> IsDigit(s[i]) || (i == 0 && IsSign(s[i]))
  }

  function Pow10(n: nat): nat {
    if n == 0 then 1 else 10 * Pow10(n - 1)
  }

  /** Reference value of a digit string: each digit weighted by its place. */
  function DigitsValue(s: string): nat
    requires AllDigits(s)
  {
    if s == [] then 0 else DigitValue(s[0]) * Pow10(|s| - 1) + DigitsValue(s[1..])
  }

  /** The digits of a possibly signed string, without its sign. */
  function Unsigned(s: string): string {
    if |s| > 0 && IsSign(s[0]) then s[1..] else s
  }

  /** The number a signed decimal denotes: its digits' place value, negated
      after a `-`. */
  function SignedValue(s: string): int
    requires IsSignedDecimal(s)
  {
    var m: int := DigitsValue(Unsigned(s));
    if s[0] == '-' then -m else m
  }

  lemma ShiftDigit(acc: nat, d: nat, p: nat)
    ensures (acc * 10 + d) * p == acc * (10 * p) + d * p
  {
  }

  lemma ScaleDigit(d: nat, p: nat, v: nat)
    ensures d * (10 * p) + v * 10 == (d * p + v) * 10
  {
  }

  /** Left-to-right scan of a digit string into an accumulator, as a number
      parser reads it; gives up at the first character that is not a digit. */
  function Accumulate(s: string, acc: nat): (r: Option<nat>)
    ensures r.Some? <==> AllDigits(s)
    ensures r.Some? ==> r.value == acc * Pow10(|s|) + DigitsValue(s)
  {
    if s == [] then Some(acc)
    else if IsDigit(s[0]) then
      ShiftDigit(acc, DigitValue(s[0]), Pow10(|s| - 1));
      Accumulate(s[1..], acc * 10 + DigitValue(s[0]))
    else None
  }

  /** `float(s)` restricted to signed decimal integers: the number `s` denotes,
      or None where Python raises `ValueError`. */
  function ParseSigned(s: string): (r: Option<int>)
    ensures r.Some? <==> IsSignedDecimal(s)
    ensures r.Some? ==> AllDigits(Unsigned(s))
    ensures r.Some? ==> r.value == SignedValue(s)
  {
    var digits := Unsigned(s);
    if digits == [] then None
    else match Accumulate(digits, 0)
      case None => None
      case Some(m) => Some(if s[0] == '-' then -(m as int) else m)
  }

  lemma {:induction false} DigitsValueAppend(s: string, c: char)
    requires AllDigits(s) && IsDigit(c)
    ensures AllDigits(s + [c])
    ensures DigitsValue(s + [c]) == DigitsValue(s) * 10 + DigitValue(c)
  {
    if s == [] {
      assert [] + [c] == [c];
    } else {
      var t := s[1..];
      assert (s + [c])[1..] == t + [c];
      DigitsValueAppend(t, c);
      var d := DigitValue(s[0]);
      var p := Pow10(|t|);
      assert Pow10(|s|) == 10 * p;
      ScaleDigit(d, p, DigitsValue(t));
      calc {
        DigitsValue(s + [c]);
        d * Pow10(|s|) + DigitsValue(t + [c]);
        d * (10 * p) + (DigitsValue(t) * 10 + DigitValue(c));
        (d * p + DigitsValue(t)) * 10 + DigitValue(c);
      }
    }
  }

  /** The decimal digits of `k`, most significant first, without leading zeros. */
  function DigitsOf(k: nat): (s: string)
    ensures |s| > 0 && AllDigits(s)
    ensures DigitsValue(s) == k
  {
    if k < 10 then [DigitChar(k)]
    else
      var init := DigitsOf(k / 10);
      DigitsValueAppend(init, DigitChar(k % 10));
      init + [DigitChar(k % 10)]
  }

  function Zeros(n: nat): (z: string)
    ensures |z| == n && AllDigits(z)
  {
    if n == 0 then [] else ['0'] + Zeros(n - 1)
  }

  /** Leading zeros do not change the value of a digit string. */
  lemma {:induction false} ZerosPrefix(n: nat, s: string)
    requires AllDigits(s)
    ensures AllDigits(Zeros(n) + s)
    ensures DigitsValue(Zeros(n) + s) == DigitsValue(s)
  {
    if n > 0 {
      ZerosPrefix(n - 1, s);
      var z := Zeros(n) + s;
      assert z[0] == '0' && z[1..] == Zeros(n - 1) + s;
      assert DigitsValue(z) == DigitValue('0') * Pow10(|z| - 1) + DigitsValue(z[1..]);
    } else {
      assert Zeros(n) + s == s;
    }
  }

  /** `k` in at least `width` digits, padded on the left with zeros. */
  function PadDigits(k: nat, width: nat): (s: string)
    ensures |s| > 0 && |s| >= width && AllDigits(s)
    ensures DigitsValue(s) == k
  {
    var d := DigitsOf(k);
    if |d| >= width then d
    else
      ZerosPrefix(width - |d|, d);
      Zeros(width - |d|) + d
  }

  /** `n` written with an explicit sign and at least `width` digits, the way
      NOAA writes its readings (`+0150`, `-0050`). */
  function FormatSigned(n: int, width: nat): (s: string)
    ensures |s| > 1 && IsSign(s[0]) && AllDigits(s[1..])
  {
    (if n < 0 then "-" else "+") + PadDigits(if n < 0 then -n else n, width)
  }

  /** Parsing a formatted number gives the number back. */
  lemma ParseFormatRoundTrip(n: int, width: nat)
    ensures ParseSigned(FormatSigned(n, width)) == Some(n)
  {
    var s := FormatSigned(n, width);
    assert Unsigned(s) == PadDigits(if n < 0 then -n else n, width);
    assert IsSignedDecimal(s);
  }
}
