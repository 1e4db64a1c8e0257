/**
 The number in a score line: the group `(\d+\.?\d*)` of the label pattern,
 read by Python's `float`. Values are exact rationals, so binary rounding
 is not part of this model.
 */
module Numbers {
  import opened Chars
  import opened Strings
  import opened Options

  predicate AllDigits(s: string) {
    forall i | 0 <= i < |s| :: IsDigit(s[i])
  }

  function DigitValue(c: char): (d: nat)
    requires IsDigit(c)
    ensures d < 10
  {
    c as int - '0' as int
  }

  function DigitChar(d: nat): (c: char)
    requires d < 10
    ensures IsDigit(c) && DigitValue(c) == d
  {
    ('0' as int + d) as char
  }

  function Pow10(n: nat): (r: nat)
    ensures r >= 1
  {
    if n == 0 then 1 else 10 * Pow10(n - 1)
  }

  /** The value of a decimal digit string, most significant digit first;
      `k` digits never reach `10^k`. */
  function DigitsValue(ds: string): (v: nat)
    requires AllDigits(ds)
    ensures v < Pow10(|ds|)
    decreases |ds|
  {
    if ds == [] then 0 else DigitsValue(ds[..|ds| - 1]) * 10 + DigitValue(ds[|ds| - 1])
  }

  /** `float(whole + "." + frac)`: the fraction digits are tenths,
      hundredths and so on, and an empty fraction adds nothing. */
  function DecimalValue(whole: string, frac: string): (v: real)
    requires AllDigits(whole) && AllDigits(frac)
    ensures AllDigits(whole + frac) && v == DigitsValue(whole + frac) as real / Pow10(|frac|) as real
    ensures DigitsValue(whole) as real <= v < DigitsValue(whole) as real + 1.0
  {
    DigitsValueAppend(whole, frac);
    Fraction(DigitsValue(whole), DigitsValue(frac), Pow10(|frac|), DigitsValue(whole + frac))
  }

  /** `w + f / scale` for a proper fraction `f / scale`: it lies in
      `[w, w + 1)` and is the whole number `w * scale + f` divided by `scale`. */
  function Fraction(w: nat, f: nat, scale: nat, total: nat): (v: real)
    requires f < scale && total == w * scale + f
    ensures v == total as real / scale as real
    ensures w as real <= v < w as real + 1.0
  {
    var x, y, z := w as real, f as real, scale as real;
    ProperFraction(y, z);
    assert (w * scale) as real == x * z;
    assert x * z / z == x;
    x + y / z
  }

  /** The digits of `a` followed by those of `b` are worth `a` shifted left
      by `|b|` places plus `b`. */
  lemma {:induction false} DigitsValueAppend(a: string, b: string)
    requires AllDigits(a) && AllDigits(b)
    ensures AllDigits(a + b)
    ensures DigitsValue(a + b) == DigitsValue(a) * Pow10(|b|) + DigitsValue(b)
    decreases |b|
  {
    if b == [] {
      assert a + b == a;
    } else {
      var front, last := b[..|b| - 1], b[|b| - 1];
      DigitsValueAppend(a, front);
      assert (a + b)[..|a + b| - 1] == a + front;
      assert (a + b)[|a + b| - 1] == last;
      ShiftOne(DigitsValue(a), Pow10(|front|), DigitsValue(front), DigitValue(last));
    }
  }

  lemma ShiftOne(x: nat, p: nat, y: nat, d: nat)
    ensures (x * p + y) * 10 + d == x * (10 * p) + (y * 10 + d)
  {
  }

  lemma ProperFraction(a: real, b: real)
    requires 0.0 <= a < b
    ensures 0.0 <= a / b < 1.0
  {
    assert a / b * b == a;
  }

  /** The greedy match of `\d+\.?\d*` at the front of `t`, as a number: the
      digit run, then, if a point follows, the point and the digit run after
      it. It matches exactly when `t` starts with a digit, and having no
      sign, its value is never negative. */
  function NumberAt(t: string): (r: Option<real>)
    ensures r.Some? <==> |t| > 0 && IsDigit(t[0])
    ensures r.Some? ==> r.value >= 0.0
  {
    var w := RunLen(t, Digit);
    if w == 0 then None
    else if w < |t| && t[w] == '.' then
      var f := RunLen(t[w + 1..], Digit);
      Some(DecimalValue(t[..w], t[w + 1..w + 1 + f]))
    else
      Some(DigitsValue(t[..w]) as real)
  }

  /** A digit string followed by something that is neither a digit nor a
      point is read as that whole number. */
  lemma NumberOfWhole(whole: string, rest: string)
    requires whole != [] && AllDigits(whole)
    requires rest == [] || (!IsDigit(rest[0]) && rest[0] != '.')
    ensures NumberAt(whole + rest) == Some(DigitsValue(whole) as real)
  {
    var t := whole + rest;
    RunLenIs(t, Digit, |whole|);
    assert t[..|whole|] == whole;
  }

  /** Digits, a point and more digits, followed by a non-digit, are read as
      the decimal fraction they spell. */
  lemma NumberOfDecimal(whole: string, frac: string, rest: string)
    requires whole != [] && AllDigits(whole) && AllDigits(frac)
    requires rest == [] || !IsDigit(rest[0])
    ensures NumberAt(whole + ['.'] + frac + rest) == Some(DecimalValue(whole, frac))
  {
    var t := whole + ['.'] + frac + rest;
    var w := |whole|;
    RunLenIs(t, Digit, w);
    assert t[..w] == whole;
    assert t[w + 1..] == frac + rest;
    RunLenIs(frac + rest, Digit, |frac|);
    assert t[w + 1..w + 1 + |frac|] == frac;
  }

  /** The decimal spelling of a natural number, without leading zeros, as
      it fills the `X`, `Y` and `Z` placeholders of the reply format the
      prompt asks for; reading it back gives `n`. */
  function ShowNat(n: nat): (s: string)
    ensures s != [] && AllDigits(s)
    ensures s[0] != '0' || n == 0
    ensures DigitsValue(s) == n
  {
    if n < 10 then [DigitChar(n)]
    else
      var front := ShowNat(n / 10);
      var s := front + [DigitChar(n % 10)];
      assert s[..|s| - 1] == front;
      s
  }

  /** A digit string with a non-zero first digit is worth at least 1. */
  lemma {:induction false} LeadingDigitPositive(ds: string)
    requires ds != [] && AllDigits(ds) && ds[0] != '0'
    ensures DigitsValue(ds) >= 1
    decreases |ds|
  {
    if |ds| > 1 {
      LeadingDigitPositive(ds[..|ds| - 1]);
    }
  }

  /** The other half of the round trip: printing the value of a digit
      string without leading zeros gives the string back. */
  lemma {:induction false} ShowDigitsValue(ds: string)
    requires ds != [] && AllDigits(ds)
    requires ds[0] != '0' || |ds| == 1
    ensures ShowNat(DigitsValue(ds)) == ds
    decreases |ds|
  {
    if |ds| > 1 {
      var front, last := ds[..|ds| - 1], ds[|ds| - 1];
      var q, d := DigitsValue(front), DigitValue(last);
      LeadingDigitPositive(front);
      ShowDigitsValue(front);
      LastDigit(q, d);
      DigitOfValue(last);
      assert ShowNat(q * 10 + d) == ShowNat(q) + [DigitChar(d)];
      assert ds == front + [last];
    }
  }

  lemma DigitOfValue(c: char)
    requires IsDigit(c)
    ensures DigitChar(DigitValue(c)) == c
  {
  }

  /** The last decimal digit of `q * 10 + d` is `d`, and the rest is `q`. */
  lemma LastDigit(q: nat, d: nat)
    requires d < 10
    ensures (q * 10 + d) / 10 == q && (q * 10 + d) % 10 == d
  {
  }
}
