/** `parseFloat` on the strings the extractor hands it, with the value kept
    as an exact rational instead of an IEEE-754 double. */
module Number {
  import opened Text

  function Pow10(n: nat): (r: nat)
    ensures r >= 1
  {
    if n == 0 then 1 else 10 * Pow10(n - 1)
  }

  function DigitValue(c: char): (r: nat)
    requires IsDigit(c)
    ensures r <= 9
  {
    c as int - '0' as int
  }

  /** The value of a decimal digit string, most significant digit first. */
  function DigitsValue(d: string): (r: nat)
    requires IsDigits(d)
    ensures r < Pow10(|d|)
  {
    if |d| == 0 then 0 else 10 * DigitsValue(d[..|d| - 1]) + DigitValue(d[|d| - 1])
  }

  /** A digit string followed by another reads as the first shifted left by
      the length of the second, plus the second. */
  lemma {:induction false} DigitsValueAppend(a: string, b: string)
    requires IsDigits(a) && IsDigits(b)
    ensures IsDigits(a + b)
    ensures DigitsValue(a + b) == DigitsValue(a) * Pow10(|b|) + DigitsValue(b)
    decreases |b|
  {
    assert IsDigits(a + b) by {
      forall k | 0 <= k < |a + b| ensures IsDigit((a + b)[k]) {
        if k >= |a| { assert (a + b)[k] == b[k - |a|]; }
      }
    }
    if |b| > 0 {
      var b' := b[..|b| - 1];
      assert (a + b)[..|a + b| - 1] == a + b';
      DigitsValueAppend(a, b');
      assert (a + b)[|a + b| - 1] == b[|b| - 1];
      assert DigitsValue(a + b) == 10 * DigitsValue(a + b') + DigitValue(b[|b| - 1]);
      ShiftStep(DigitsValue(a), Pow10(|b'|), DigitsValue(b'), DigitValue(b[|b| - 1]));
    } else {
      assert a + b == a;
    }
  }

  lemma ShiftStep(va: nat, p: nat, vb: nat, d: nat)
    ensures 10 * (va * p + vb) + d == va * (10 * p) + (10 * vb + d)
  {
  }

  /** Leading zeros do not change a digit string's value. */
  lemma {:induction false} LeadingZerosValue(z: string, d: string)
    requires forall k | 0 <= k < |z| :: z[k] == '0'
    requires IsDigits(d)
    ensures IsDigits(z + d) && DigitsValue(z + d) == DigitsValue(d)
    decreases |z|
  {
    if |z| == 0 {
      assert z + d == d;
    } else {
      assert IsDigits(z);
      DigitsValueAppend(z, d);
      ZerosValue(z);
    }
  }

  lemma {:induction false} ZerosValue(z: string)
    requires forall k | 0 <= k < |z| :: z[k] == '0'
    ensures IsDigits(z) && DigitsValue(z) == 0
    decreases |z|
  {
    if |z| > 0 {
      ZerosValue(z[..|z| - 1]);
    }
  }

  /** A digit string that does not start with zero is at least one. */
  lemma {:induction false} LeadingDigitValue(d: string)
    requires IsNumber(d) && d[0] != '0'
    ensures DigitsValue(d) >= 1
    decreases |d|
  {
    if |d| > 1 {
      var d' := d[..|d| - 1];
      assert d'[0] == d[0];
      LeadingDigitValue(d');
    }
  }

  /** The exact value of the decimal numeral `whole.frac`. */
  function DecimalValue(whole: string, frac: string): (r: real)
    requires IsDigits(whole) && IsDigits(frac)
    ensures r >= DigitsValue(whole) as real
  {
    var f := DigitsValue(frac) as real / Pow10(|frac|) as real;
    assert f >= 0.0;
    DigitsValue(whole) as real + f
  }

  /** A numeral starts the string: a digit, or a dot followed by a digit. */
  predicate StartsNumeral(t: string) {
    (|t| > 0 && IsDigit(t[0])) || (|t| > 1 && t[0] == '.' && IsDigit(t[1]))
  }

  /** `parseFloat`: after leading white space, the longest prefix of the form
      `digits`, `digits.digits?` or `.digits` is read; `None` stands for NaN. */
  function ParseFloat(s: string): (r: Option<real>)
    ensures r.None? <==> !StartsNumeral(TrimStart(s))
    ensures r.Some? ==> r.value >= 0.0
  {
    var t := TrimStart(s);
    var a := RunEnd(t, 0, Digit);
    if a < |t| && t[a] == '.' then
      var b := RunEnd(t, a + 1, Digit);
      if a == 0 && b == a + 1 then None
      else Some(DecimalValue(t[..a], t[a + 1..b]))
    else if a == 0 then None
    else Some(DigitsValue(t[..a]) as real)
  }

  /** `parseFloat` of a string that starts, without white space, with a
      digit run up to `a`, a dot, and a digit run up to `b`. */
  lemma ParseDotted(t: string, a: nat, b: nat)
    requires a < b <= |t| && t[a] == '.' && 0 < |t| && !IsSpace(t[0])
    requires a > 0 || b > a + 1
    requires forall k | 0 <= k < a :: IsDigit(t[k])
    requires forall k | a < k < b :: IsDigit(t[k])
    requires b == |t| || !IsDigit(t[b])
    ensures ParseFloat(t) == Some(DecimalValue(t[..a], t[a + 1..b]))
  {
    assert TrimStart(t) == t;
    RunEndIs(t, 0, a, Digit);
    RunEndIs(t, a + 1, b, Digit);
  }

  /** Reading back a numeral written as `whole.frac`, with anything but a
      digit after it, yields its exact value. */
  lemma ParseDecimal(whole: string, frac: string, rest: string)
    requires IsDigits(whole) && IsDigits(frac) && |whole| + |frac| > 0
    requires rest == [] || !IsDigit(rest[0])
    ensures ParseFloat(whole + "." + frac + rest) == Some(DecimalValue(whole, frac))
  {
    var s := whole + "." + frac + rest;
    var a, b := |whole|, |whole| + 1 + |frac|;
    assert forall k | 0 <= k < a :: s[k] == whole[k];
    assert forall k | a < k < b :: s[k] == frac[k - a - 1];
    assert s[a] == '.';
    assert b < |s| ==> s[b] == rest[0];
    assert s[..a] == whole;
    assert s[a + 1..b] == frac;
    ParseDotted(s, a, b);
  }

  /** A digit run with neither a digit nor a dot after it reads as that
      whole number. */
  lemma ParseWhole(whole: string, rest: string)
    requires IsNumber(whole)
    requires rest == [] || (!IsDigit(rest[0]) && rest[0] != '.')
    ensures ParseFloat(whole + rest) == Some(DigitsValue(whole) as real)
  {
    var s := whole + rest;
    assert forall k | 0 <= k < |whole| :: s[k] == whole[k];
    assert rest != [] ==> s[|whole|] == rest[0];
    ParseRun(s, |whole|);
    assert s[..|whole|] == whole;
  }

  /** `parseFloat` of a string that starts with a digit run up to `a`,
      followed by neither a digit nor a dot. */
  lemma ParseRun(t: string, a: nat)
    requires 0 < a <= |t| && forall k | 0 <= k < a :: IsDigit(t[k])
    requires a == |t| || (!IsDigit(t[a]) && t[a] != '.')
    ensures ParseFloat(t) == Some(DigitsValue(t[..a]) as real)
  {
    assert !IsSpace(t[0]);
    assert TrimStart(t) == t;
    RunEndIs(t, 0, a, Digit);
  }
}
