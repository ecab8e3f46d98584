/** Python's `int(str)`, `float(str)` and `int(float)`, restricted to plain
    decimal literals: optional surrounding whitespace, an optional sign, and
    digits with at most one decimal point. Exponents, `inf`/`nan` and digit
    separators (`1_000`) are treated as unparsable. */
module Numbers {
  import opened Results
  import opened Text

  predicate IsDigit(c: char) {
    '0' <= c <= '9'
  }

  predicate AllDigits(s: string) {
    forall i :: 0 <= i < |s| ==> IsDigit(s[i])
  }

  function DigitValue(c: char): nat
    requires IsDigit(c)
  {
    c as int - '0' as int
  }

  /** The value of a digit string, most significant digit first. */
  function DigitsValue(s: string): nat
    requires AllDigits(s)
    decreases |s|
  {
    if |s| == 0 then 0 else DigitsValue(s[..|s| - 1]) * 10 + DigitValue(s[|s| - 1])
  }

  function Pow10(n: nat): (r: nat)
    ensures r >= 1
  {
    if n == 0 then 1 else 10 * Pow10(n - 1)
  }

  /** A non-empty digit string, or nothing. */
  function ParseNatural(s: string): (r: Option<nat>)
    ensures r.Some? <==> |s| > 0 && AllDigits(s)
  {
    if |s| > 0 && AllDigits(s) then Some(DigitsValue(s)) else None
  }

  /** Splits a leading sign off an already stripped literal. */
  function SignAndBody(t: string): (bool, string)
  {
    if |t| > 0 && (t[0] == '-' || t[0] == '+') then (t[0] == '-', t[1..]) else (false, t)
  }

  /** Python's `int(s)` for a string `s`; `None` where Python raises `ValueError`. */
  function ParseInteger(s: string): (r: Option<int>)
    ensures r.Some? ==> Strip(s) != []
  {
    var (negative, body) := SignAndBody(Strip(s));
    var n :- ParseNatural(body);
    var v: int := if negative then 0 - n as int else n;
    Some(v)
  }

  /** An unsigned decimal literal: `12`, `12.5`, `12.` or `.5`. */
  function ParseUnsignedDecimal(s: string): (r: Option<real>)
    ensures r.Some? ==> r.value >= 0.0
  {
    if '.' in s then
      var (whole, frac) := SplitFirst(s, '.');
      if |whole| + |frac| > 0 && AllDigits(whole) && AllDigits(frac) then
        Some(DigitsValue(whole) as real + DigitsValue(frac) as real / Pow10(|frac|) as real)
      else
        None
    else
      var n :- ParseNatural(s);
      Some(n as real)
  }

  /** Python's `float(s)` for a string `s`; `None` where Python raises `ValueError`. */
  function ParseDecimal(s: string): (r: Option<real>)
    ensures r.Some? ==> Strip(s) != []
  {
    var (negative, body) := SignAndBody(Strip(s));
    var x :- ParseUnsignedDecimal(body);
    Some(if negative then -x else x)
  }

  function DigitChar(d: nat): (c: char)
    requires d < 10
    ensures IsDigit(c) && DigitValue(c) == d
  {
    ('0' as int + d) as char
  }

  /** The decimal spelling of a natural number, without leading zeros. */
  function FormatNat(n: nat): (s: string)
    ensures |s| >= 1 && AllDigits(s)
    decreases n
  {
    if n < 10 then [DigitChar(n)] else FormatNat(n / 10) + [DigitChar(n % 10)]
  }

  /** Python's `int(x)` for a float `x`: truncation toward zero. */
  function Trunc(x: real): (r: int)
    ensures 0.0 <= x ==> r as real <= x < r as real + 1.0
    ensures x < 0.0 ==> r as real - 1.0 < x <= r as real
  {
    if x >= 0.0 then x.Floor else -((-x).Floor)
  }

  function Min(a: real, b: real): real {
    if a <= b then a else b
  }

  function MinInt(a: int, b: int): int {
    if a <= b then a else b
  }

  function MaxInt(a: int, b: int): int {
    if a >= b then a else b
  }

  lemma DigitsAreNotSpace(s: string)
    requires AllDigits(s)
    ensures Trimmed(s)
  {
  }

  /** Reading back a formatted natural gives the natural. */
  lemma {:induction false} DigitsValueOfFormat(n: nat)
    ensures DigitsValue(FormatNat(n)) == n
  {
    if n >= 10 {
      var s := FormatNat(n);
      assert s[..|s| - 1] == FormatNat(n / 10);
      DigitsValueOfFormat(n / 10);
    }
  }

  /** `int(str(n)) == n` and `int("-" + str(n)) == -n`. */
  lemma ParseIntegerFormat(n: nat)
    ensures ParseInteger(FormatNat(n)) == Some(n)
    ensures ParseInteger("-" + FormatNat(n)) == Some(-(n as int))
  {
    var s := FormatNat(n);
    DigitsValueOfFormat(n);
    DigitsAreNotSpace(s);
    UnsignedLiteral(s, n);
    NegativeLiteral(s, n);
  }

  /** A trimmed digit string reads as its value. */
  lemma UnsignedLiteral(s: string, n: nat)
    requires |s| > 0 && AllDigits(s) && Trimmed(s) && DigitsValue(s) == n
    ensures ParseInteger(s) == Some(n)
  {
    assert Strip(s) == s;
    assert SignAndBody(s) == (false, s);
  }

  /** A minus sign before a digit string negates its value. */
  lemma NegativeLiteral(s: string, n: nat)
    requires |s| > 0 && AllDigits(s) && Trimmed(s) && DigitsValue(s) == n
    ensures ParseInteger("-" + s) == Some(-(n as int))
  {
    var m := "-" + s;
    assert Trimmed(m);
    assert Strip(m) == m;
    assert m[1..] == s;
    assert SignAndBody(m) == (true, s);
  }


  /** `float(str(n)) == n`. */
  lemma ParseDecimalFormat(n: nat)
    ensures ParseDecimal(FormatNat(n)) == Some(n as real)
  {
    var s := FormatNat(n);
    DigitsValueOfFormat(n);
    DigitsAreNotSpace(s);
    assert SignAndBody(s) == (false, s);
    assert forall i :: 0 <= i < |s| ==> s[i] != '.';
  }

  /** Truncating a whole number changes nothing. */
  lemma TruncOfWhole(n: int)
    ensures Trunc(n as real) == n
  {
  }

  predicate LowerAlnum(c: char) {
    IsDigit(c) || 'a' <= c <= 'z'
  }

  lemma LowerOfLowerAlnum(s: string)
    requires forall i :: 0 <= i < |s| ==> LowerAlnum(s[i])
    ensures Lower(s) == s
  {
    assert forall i :: 0 <= i < |s| ==> Lower(s)[i] == s[i];
  }

  /** Digits followed by a lower-case unit are already normalised. */
  lemma NormalisedDigits(d: string, unit: string)
    requires |d| >= 1 && AllDigits(d)
    requires forall i :: 0 <= i < |unit| ==> 'a' <= unit[i] <= 'z'
    ensures Lower(Strip(d + unit)) == d + unit
    ensures (d + unit)[..|d|] == d
    ensures (d + unit)[0] == d[0]
  {
    var s := d + unit;
    assert forall i :: 0 <= i < |s| ==> LowerAlnum(s[i]) by {
      forall i | 0 <= i < |s| ensures LowerAlnum(s[i]) {
        if i < |d| { assert s[i] == d[i]; } else { assert s[i] == unit[i - |d|]; }
      }
    }
    assert !IsSpace(s[0]) && !IsSpace(s[|s| - 1]);
    assert Strip(s) == s;
    LowerOfLowerAlnum(s);
  }
}
