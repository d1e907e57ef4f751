/**
 * Decimal rendering of integers, as Python's `f'{days}'` formats an `int`:
 * an optional minus sign followed by the digits, without leading zeros.
 * `ParseInt` is the inverse used to state what the rendering means.
 */
module Decimal {
  import opened Wrappers
  import opened TextOps

  predicate AllDigits(s: string) {
    forall i :: 0 <= i < |s| ==> IsDigit(s[i])
  }

  /** Digits without a leading zero, except for "0" itself. */
  predicate CanonicalDigits(d: string) {
    |d| > 0 && AllDigits(d) && (d[0] == '0' ==> d == "0")
  }

  /** The form `str(n)` gives an `int`: canonical digits, with a minus sign
      in front unless they are "0". */
  predicate Canonical(s: string) {
    if |s| > 0 && s[0] == '-' then CanonicalDigits(s[1..]) && s[1..] != "0" else CanonicalDigits(s)
  }

  function DigitValue(c: char): (d: nat)
    requires IsDigit(c)
    ensures d < 10
  {
    c as int - '0' as int
  }

  function DigitChar(d: nat): (c: char)
    requires d < 10
    ensures IsDigit(c) && DigitValue(c) == d
  {
    ('0' as int + d) as char
  }

  /** The decimal digits of `n`, most significant first. */
  function NatToDecimal(n: nat): (s: string)
    ensures CanonicalDigits(s)
    ensures s == "0" <==> n == 0
    decreases n
  {
    if n < 10 then [DigitChar(n)] else NatToDecimal(n / 10) + [DigitChar(n % 10)]
  }

  /** Python's `str(n)` for an `int`. */
  function IntToDecimal(n: int): (s: string)
    ensures Canonical(s)
    ensures n < 0 <==> s[0] == '-'
  {
    if n < 0 then "-" + NatToDecimal(-n) else NatToDecimal(n)
  }

  /** The value of a string of decimal digits (the empty string reads as 0). */
  function ParseNat(s: string): nat
    requires AllDigits(s)
    decreases |s|
  {
    if |s| == 0 then 0 else 10 * ParseNat(s[..|s| - 1]) + DigitValue(s[|s| - 1])
  }

  /** Reads an optionally signed decimal integer; `None` for anything else. */
  function ParseInt(s: string): Option<int> {
    if |s| > 1 && s[0] == '-' && AllDigits(s[1..]) then Some(-(ParseNat(s[1..]) as int))
    else if |s| > 0 && AllDigits(s) then Some(ParseNat(s))
    else None
  }

  lemma {:induction false} ParseNatOfDecimal(n: nat)
    ensures ParseNat(NatToDecimal(n)) == n
    decreases n
  {
    if n >= 10 {
      var s := NatToDecimal(n);
      var p := NatToDecimal(n / 10);
      assert s == p + [DigitChar(n % 10)];
      assert s[..|s| - 1] == p;
      ParseNatOfDecimal(n / 10);
    }
  }

  /** Rendering an integer and reading it back gives the integer. */
  lemma IntRoundTrip(n: int)
    ensures ParseInt(IntToDecimal(n)) == Some(n)
  {
    if n < 0 {
      var s := IntToDecimal(n);
      assert s[1..] == NatToDecimal(-n);
      ParseNatOfDecimal(-n);
    } else {
      ParseNatOfDecimal(n);
    }
  }

  /** Distinct integers are rendered differently. */
  lemma IntToDecimalInjective(m: int, n: int)
    ensures IntToDecimal(m) == IntToDecimal(n) ==> m == n
  {
    IntRoundTrip(m);
    IntRoundTrip(n);
  }

  lemma {:induction false} ParseNatPositive(d: string)
    requires CanonicalDigits(d) && d != "0"
    ensures ParseNat(d) > 0
    decreases |d|
  {
    if |d| > 1 {
      var p := d[..|d| - 1];
      assert p[0] == d[0];
      assert CanonicalDigits(p) && p != "0";
      ParseNatPositive(p);
    }
  }

  /** Canonical digits are the rendering of their own value. */
  lemma {:induction false} CanonicalDigitsUnique(d: string)
    requires CanonicalDigits(d)
    ensures NatToDecimal(ParseNat(d)) == d
    decreases |d|
  {
    var c := d[|d| - 1];
    assert DigitChar(DigitValue(c)) == c;
    if |d| == 1 {
      assert d[..0] == "";
    } else {
      var p := d[..|d| - 1];
      assert p[0] == d[0];
      assert CanonicalDigits(p) && p != "0";
      ParseNatPositive(p);
      CanonicalDigitsUnique(p);
      var n := ParseNat(d);
      assert n / 10 == ParseNat(p) && n % 10 == DigitValue(c);
      assert d == p + [c];
    }
  }

  /** A canonical string reads as an integer, and it is that integer's
      rendering: `IntToDecimal` gives the only canonical text for each value. */
  lemma CanonicalUnique(s: string)
    requires Canonical(s)
    ensures ParseInt(s).Some? && IntToDecimal(ParseInt(s).value) == s
  {
    if |s| > 0 && s[0] == '-' {
      var d := s[1..];
      CanonicalDigitsUnique(d);
      ParseNatPositive(d);
      assert s == "-" + d;
    } else {
      CanonicalDigitsUnique(s);
    }
  }
}
