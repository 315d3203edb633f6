/**
 * The two Python built-in conversions the annotation step relies on:
 * `int(x)` applied to a float (truncation toward zero) and the decimal
 * rendering of an `int` inside an f-string (`str(n)`), together with a
 * decimal parser that serves as the rendering's inverse.
 */
module Conversions {
  import opened Optional

  /** Python's `int(x)` on a finite float: the integer part, rounding toward zero. */
  function Trunc(x: real): (t: int)
    ensures 0.0 <= x ==> 0 <= t && t as real <= x < t as real + 1.0
    ensures x < 0.0 ==> t <= 0 && t as real - 1.0 < x <= t as real
  {
    if x >= 0.0 then x.Floor else -((-x).Floor)
  }

  /** The two bounds above pin down one integer: Trunc is that integer. */
  lemma TruncUnique(x: real, t: int)
    requires 0.0 <= x ==> 0 <= t && t as real <= x < t as real + 1.0
    requires x < 0.0 ==> t <= 0 && t as real - 1.0 < x <= t as real
    ensures t == Trunc(x)
  {
  }

  /** Truncation never moves away from zero: |Trunc(x)| <= |x| < |Trunc(x)| + 1. */
  lemma TruncMagnitude(x: real)
    ensures var t := Trunc(x) as real;
      (if t < 0.0 then -t else t) <= (if x < 0.0 then -x else x) < (if t < 0.0 then -t else t) + 1.0
  {
  }

  predicate IsDigit(c: char) {
    '0' <= c <= '9'
  }

  predicate AllDigits(s: string) {
    forall i :: 0 <= i < |s| ==> IsDigit(s[i])
  }

  function DigitChar(d: nat): (c: char)
    requires d < 10
    ensures IsDigit(c) && (c as int) - ('0' as int) == d
  {
    (('0' as int) + d) as char
  }

  function DigitValue(c: char): (d: nat)
    requires IsDigit(c)
    ensures d < 10
  {
    (c as int) - ('0' as int)
  }

  /** A non-empty digit string without a leading zero (the only one starting with '0' is "0"). */
  predicate IsCanonicalNat(s: string) {
    1 <= |s| && AllDigits(s) && (s[0] == '0' ==> |s| == 1)
  }

  /** Decimal digits of a natural number, most significant first, without leading zeros. */
  function FormatNat(n: nat): (s: string)
    ensures 1 <= |s| && AllDigits(s)
    ensures s[0] == '0' ==> n == 0 && s == "0"
  {
    if n < 10 then [DigitChar(n)] else FormatNat(n / 10) + [DigitChar(n % 10)]
  }

  /** Python's `str(n)` for an `int`: a leading '-' only for negative values. */
  function FormatInt(n: int): (s: string)
    ensures 1 <= |s|
    ensures n < 0 <==> s[0] == '-'
    ensures n >= 0 ==> IsCanonicalNat(s)
    ensures n < 0 ==> 2 <= |s| && IsCanonicalNat(s[1..]) && s[1] != '0'
    ensures forall i :: 0 <= i < |s| ==> s[i] != ',' && s[i] != ' '
  {
    if n < 0 then "-" + FormatNat(-n) else FormatNat(n)
  }

  /** The value of a string of decimal digits. */
  function ParseNat(s: string): nat
    requires AllDigits(s)
  {
    if s == [] then 0 else ParseNat(s[..|s| - 1]) * 10 + DigitValue(s[|s| - 1])
  }

  /**
   * Reads a decimal integer in the form `str` writes it: digits without a
   * leading zero, negated by a '-' unless the value is zero; None otherwise.
   */
  function ParseInt(s: string): (r: Option<int>)
    ensures r.Some? ==> 1 <= |s|
  {
    if |s| >= 2 && s[0] == '-' && IsCanonicalNat(s[1..]) && s[1] != '0' then Some(-(ParseNat(s[1..]) as int))
    else if IsCanonicalNat(s) then Some(ParseNat(s))
    else None
  }

  lemma {:induction false} ParseNatPositive(s: string)
    requires 1 <= |s| && AllDigits(s) && s[0] != '0'
    ensures ParseNat(s) >= 1
  {
    if |s| > 1 {
      ParseNatPositive(s[..|s| - 1]);
    }
  }

  lemma {:induction false} FormatParseNat(s: string)
    requires IsCanonicalNat(s)
    ensures FormatNat(ParseNat(s)) == s
  {
    var last := s[|s| - 1];
    assert DigitChar(DigitValue(last)) == last;
    if |s| == 1 {
      assert s[..0] == [];
    } else {
      var t := s[..|s| - 1];
      ParseNatPositive(t);
      FormatParseNat(t);
      var n := ParseNat(s);
      assert n / 10 == ParseNat(t) && n % 10 == DigitValue(last);
      assert s == t + [last];
    }
  }

  /** Only the rendering of an integer reads back as that integer. */
  lemma FormatParseInt(s: string, n: int)
    requires ParseInt(s) == Some(n)
    ensures s == FormatInt(n)
  {
    if |s| >= 2 && s[0] == '-' && IsCanonicalNat(s[1..]) && s[1] != '0' {
      ParseNatPositive(s[1..]);
      FormatParseNat(s[1..]);
      assert s == "-" + s[1..];
    } else {
      FormatParseNat(s);
    }
  }

  lemma {:induction false} ParseFormatNat(n: nat)
    ensures ParseNat(FormatNat(n)) == n
  {
    var s := FormatNat(n);
    if n < 10 {
      assert s[..|s| - 1] == [];
    } else {
      assert s[..|s| - 1] == FormatNat(n / 10);
      ParseFormatNat(n / 10);
    }
  }

  /** The rendering of every integer reads back as that integer. */
  lemma ParseFormatInt(n: int)
    ensures ParseInt(FormatInt(n)) == Some(n)
  {
    var s := FormatInt(n);
    if n < 0 {
      assert s[1..] == FormatNat(-n);
      ParseFormatNat(-n);
    } else {
      ParseFormatNat(n);
    }
  }

  /** So distinct integers are rendered as distinct strings. */
  lemma FormatIntInjective(m: int, n: int)
    requires FormatInt(m) == FormatInt(n)
    ensures m == n
  {
    ParseFormatInt(m);
    ParseFormatInt(n);
  }
}
