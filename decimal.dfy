/** Base-10 text: rendering of integers (as `strconv.Itoa` does) and parsing
    of signed 32-bit decimal text (as `strconv.ParseInt(s, 10, 32)` does). */
module Decimal {
  import opened Base

  predicate IsDigit(c: char) {
    '0' <= c <= '9'
  }

  function DigitValue(c: char): (d: nat)
    requires IsDigit(c)
    ensures d < 10
  {
    c as int - '0' as int
  }

  function DigitChar(d: nat): (c: char)
    requires d < 10
    ensures IsDigit(c) && DigitValue(c) == d
  {
    ('0' as int + d) as char
  }

  predicate AllDigits(t: string) {
    forall k :: 0 <= k < |t| ==> IsDigit(t[k])
  }

  /** The value of a digit string, most significant digit first. */
  function DigitsValue(t: string): (n: nat)
    requires AllDigits(t)
  {
    if t == [] then 0 else DigitsValue(t[..|t| - 1]) * 10 + DigitValue(t[|t| - 1])
  }

  /** A non-empty digit string without leading zeros: the only form `FormatNat` produces. */
  predicate Canonical(t: string) {
    |t| > 0 && AllDigits(t) && (t[0] == '0' ==> |t| == 1)
  }

  /** The shortest decimal rendering of `n`. */
  function FormatNat(n: nat): (t: string)
    ensures |t| > 0 && AllDigits(t)
  {
    if n < 10 then [DigitChar(n)] else FormatNat(n / 10) + [DigitChar(n % 10)]
  }

  /** `strconv.Itoa`: a minus sign for negative values, then the digits of the magnitude. */
  function FormatInt(i: int): (t: string)
    ensures |t| > 0 && (t[0] == '-' <==> i < 0)
    ensures forall k :: (if i < 0 then 1 else 0) <= k < |t| ==> IsDigit(t[k])
  {
    if i < 0 then "-" + FormatNat(-i) else FormatNat(i)
  }

  /** The two kinds of `*strconv.NumError`. */
  datatype NumError = Syntax | Range

  predicate InInt32Range(v: int) {
    -0x8000_0000 <= v < 0x8000_0000
  }

  /** `strconv.ParseInt(s, 10, 32)`: an optional `+` or `-`, then one or more decimal
      digits (leading zeros allowed); malformed text is a syntax error, a well-formed
      value outside the `int32` range a range error. */
  function ParseInt32(s: string): (r: Result<Int32, NumError>)
    ensures s == "" ==> r == Err(Syntax)
    ensures r.Ok? ==> |s| > 0 && (IsDigit(s[0]) || s[0] == '+' || s[0] == '-')
    ensures r.Ok? ==> forall k :: 1 <= k < |s| ==> IsDigit(s[k])
    ensures r.Ok? ==> (s[0] == '-' ==> r.value <= 0) && (s[0] != '-' ==> r.value >= 0)
  {
    var digits := if |s| > 0 && (s[0] == '+' || s[0] == '-') then s[1..] else s;
    if digits == [] || !AllDigits(digits) then Err(Syntax)
    else
      var magnitude: int := DigitsValue(digits);
      var v: int := if s[0] == '-' then -magnitude else magnitude;
      if InInt32Range(v) then Ok(v) else Err(Range)
  }

  /** One step of `FormatNat`: the last digit is split off. */
  lemma FormatNatStep(n: nat)
    requires n >= 10
    ensures FormatNat(n) == FormatNat(n / 10) + [DigitChar(n % 10)]
  {
  }

  lemma {:induction false} DigitsValuePositive(t: string)
    requires AllDigits(t) && |t| > 0 && t[0] != '0'
    ensures DigitsValue(t) >= 1
  {
    if |t| > 1 {
      var p := t[..|t| - 1];
      assert p[0] == t[0];
      DigitsValuePositive(p);
    }
  }

  /** Rendering then reading a natural number gives it back, in canonical form. */
  lemma {:induction false} FormatNatInverse(n: nat)
    ensures Canonical(FormatNat(n)) && DigitsValue(FormatNat(n)) == n
  {
    var t := FormatNat(n);
    if n >= 10 {
      FormatNatInverse(n / 10);
      var p := FormatNat(n / 10);
      assert t == p + [DigitChar(n % 10)];
      assert t[..|t| - 1] == p;
      assert t[0] == p[0];
    }
  }

  /** Reading then rendering a canonical digit string gives it back. */
  lemma {:induction false} CanonicalInverse(t: string)
    requires Canonical(t)
    ensures FormatNat(DigitsValue(t)) == t
  {
    var n := DigitsValue(t);
    var last := t[|t| - 1];
    if |t| == 1 {
      assert t == [last];
      assert t[..0] == [];
      assert DigitChar(DigitValue(last)) == last;
    } else {
      var p := t[..|t| - 1];
      assert p[0] == t[0];
      DigitsValuePositive(p);
      CanonicalInverse(p);
      assert n / 10 == DigitsValue(p) && n % 10 == DigitValue(last);
      assert DigitChar(DigitValue(last)) == last;
      assert t == p + [last];
    }
  }

  /** `ParseInt32` reads back every `int32` that `FormatInt` renders. */
  lemma ParseFormatInt32(i: Int32)
    ensures ParseInt32(FormatInt(i)) == Ok(i)
  {
    var m: nat := if i < 0 then -(i as int) else i;
    FormatNatInverse(m);
    var t := FormatNat(m);
    if i < 0 {
      assert FormatInt(i) == "-" + t;
      assert ("-" + t)[1..] == t;
    } else {
      assert FormatInt(i) == t;
      assert IsDigit(t[0]);
    }
  }

  /** A leading zero does not change the value of a digit string. */
  lemma {:induction false} DigitsValueLeadingZero(t: string)
    requires AllDigits(t)
    ensures AllDigits("0" + t) && DigitsValue("0" + t) == DigitsValue(t)
  {
    var z := "0" + t;
    assert forall k :: 0 <= k < |z| ==> IsDigit(z[k]) by {
      forall k | 0 <= k < |z| ensures IsDigit(z[k]) {
        if k > 0 { assert z[k] == t[k - 1]; }
      }
    }
    if t != [] {
      var p := t[..|t| - 1];
      DigitsValueLeadingZero(p);
      assert z[..|z| - 1] == "0" + p;
      assert z[|z| - 1] == t[|t| - 1];
    }
  }

  /** `strconv.ParseInt` also reads text that `FormatInt` never produces: a `+` sign
      and leading zeros (after the sign, if any) do not change the result, value or
      error. */
  lemma ParseInt32SignAndZeros(t: string)
    requires |t| > 0 && AllDigits(t)
    ensures ParseInt32("+" + t) == ParseInt32(t)
    ensures ParseInt32("0" + t) == ParseInt32(t)
    ensures ParseInt32("-0" + t) == ParseInt32("-" + t)
  {
    DigitsValueLeadingZero(t);
    assert IsDigit(t[0]);
    assert ("+" + t)[1..] == t;
    assert ("-" + t)[1..] == t;
    assert ("-0" + t)[1..] == "0" + t;
  }

  /** A canonical signed decimal: what `FormatInt` produces. */
  predicate IsFormattedInt(s: string) {
    Canonical(s) || (|s| > 1 && s[0] == '-' && Canonical(s[1..]) && s[1..] != "0")
  }

  /** On canonical text, parsing then rendering gives the text back. */
  lemma FormatParseInt32(s: string)
    requires IsFormattedInt(s) && ParseInt32(s).Ok?
    ensures FormatInt(ParseInt32(s).value) == s
  {
    if s[0] == '-' {
      var d := s[1..];
      CanonicalInverse(d);
      DigitsValuePositive(d);
      assert s == "-" + d;
    } else {
      CanonicalInverse(s);
    }
  }
}
