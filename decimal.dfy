/**
 * Decimal text of an integer, as Python's `str(int)` and f-string
 * interpolation write it: digits without leading zeros, `-` before a
 * negative number.  The parser is the partner that shows the text
 * determines the number.
 */
module Decimal {
  import opened Wrappers

  predicate IsDigit(c: char) { '0' <= c <= '9' }

  predicate AllDigits(s: string) { forall k :: 0 <= k < |s| ==> IsDigit(s[k]) }

  function DigitChar(d: nat): (c: char)
    requires d < 10
    ensures IsDigit(c) && c as int - '0' as int == d
  {
    ('0' as int + d) as char
  }

  function DigitValue(c: char): (d: nat)
    requires IsDigit(c)
    ensures d < 10
  {
    c as int - '0' as int
  }

  /** The digits of `n`, most significant first, with no leading zero. */
  function NatToString(n: nat): (r: string)
    ensures |r| >= 1 && AllDigits(r)
    ensures |r| > 1 ==> r[0] != '0'
    ensures r == "0" <==> n == 0
  {
    if n < 10 then [DigitChar(n)]
    else
      var prefix := NatToString(n / 10);
      prefix + [DigitChar(n % 10)]
  }

  /** Digits without a leading zero, the only form `str` gives a natural number. */
  predicate CanonicalDigits(d: string) {
    d != [] && AllDigits(d) && (|d| > 1 ==> d[0] != '0')
  }

  /** Canonical digits, or a minus sign before canonical digits other than `0`. */
  predicate CanonicalInt(s: string) {
    CanonicalDigits(s) || (|s| > 1 && s[0] == '-' && CanonicalDigits(s[1..]) && s[1..] != "0")
  }

  /** `str(i)`. */
  function IntToString(i: int): (r: string)
    ensures |r| >= 1 && CanonicalInt(r)
    ensures i < 0 <==> r[0] == '-'
    ensures r == "0" <==> i == 0
  {
    if i < 0 then
      var digits := NatToString(-i);
      assert ("-" + digits)[1..] == digits;
      "-" + digits
    else NatToString(i)
  }

  /** The number a string of digits denotes. */
  function DigitsValue(s: string): nat
    requires AllDigits(s)
  {
    if s == [] then 0 else DigitsValue(s[..|s| - 1]) * 10 + DigitValue(s[|s| - 1])
  }

  /** Reads an optionally signed decimal integer; anything else is refused. */
  function ParseInt(s: string): (r: Option<int>)
    ensures r.Some? ==> |s| >= 1
    ensures AllDigits(s) && s != [] ==> r == Some(DigitsValue(s))
  {
    if s != [] && s[0] == '-' && |s| > 1 && AllDigits(s[1..]) then Some(-(DigitsValue(s[1..]) as int))
    else if s != [] && AllDigits(s) then Some(DigitsValue(s))
    else None
  }

  lemma {:induction false} NatRoundTrip(n: nat)
    ensures DigitsValue(NatToString(n)) == n
  {
    var r := NatToString(n);
    if n >= 10 {
      NatRoundTrip(n / 10);
      var prefix := NatToString(n / 10);
      assert r[..|r| - 1] == prefix;
    }
  }

  /** The text of an integer reads back as that integer. */
  lemma IntRoundTrip(i: int)
    ensures ParseInt(IntToString(i)) == Some(i)
  {
    if i < 0 {
      NegativeRoundTrip(i);
    } else {
      NatRoundTrip(i);
      ParseDigits(NatToString(i));
    }
  }

  lemma NegativeRoundTrip(i: int)
    requires i < 0
    ensures ParseInt(IntToString(i)) == Some(i)
  {
    var n: nat := -i;
    var digits := NatToString(n);
    assert IntToString(i) == "-" + digits;
    ParseSigned(digits);
    NatRoundTrip(n);
  }

  /** A minus sign before a string of digits reads as the negated value. */
  lemma ParseSigned(d: string)
    requires d != [] && AllDigits(d)
    ensures ParseInt("-" + d) == Some(-(DigitsValue(d) as int))
  {
    var s := "-" + d;
    assert s[0] == '-' && s[1..] == d;
  }

  /** A string of digits never starts with a sign and reads as its value. */
  lemma ParseDigits(d: string)
    requires d != [] && AllDigits(d)
    ensures ParseInt(d) == Some(DigitsValue(d))
  {
    assert IsDigit(d[0]);
  }

  /** Canonical digits are the text of the number they denote. */
  lemma {:induction false} CanonicalDigitsAreText(d: string)
    requires CanonicalDigits(d)
    ensures NatToString(DigitsValue(d)) == d
  {
    var n := |d| - 1;
    var p, c := d[..n], d[n];
    assert d == p + [c];
    if n == 0 {
      assert DigitsValue(d) == DigitValue(c);
    } else {
      assert p[0] == d[0];
      assert CanonicalDigits(p);
      CanonicalDigitsAreText(p);
      assert p != "0";
      var v := DigitsValue(p);
      assert v != 0;
      assert DigitsValue(d) == v * 10 + DigitValue(c);
      assert DigitsValue(d) / 10 == v && DigitsValue(d) % 10 == DigitValue(c);
      assert DigitChar(DigitValue(c)) == c;
    }
  }

  /**
   * A canonical integer text is the text of the number it reads as, so
   * `IntToString` is the only text of each number that has this form.
   */
  lemma CanonicalIntIsText(s: string)
    requires CanonicalInt(s)
    ensures ParseInt(s).Some? && IntToString(ParseInt(s).value) == s
  {
    if CanonicalDigits(s) {
      ParseDigits(s);
      CanonicalDigitsAreText(s);
    } else {
      var d := s[1..];
      assert s == "-" + d;
      ParseSigned(d);
      CanonicalDigitsAreText(d);
      assert DigitsValue(d) != 0;
    }
  }

  /** Different integers have different texts. */
  lemma IntToStringInjective(i: int, j: int)
    requires IntToString(i) == IntToString(j)
    ensures i == j
  {
    IntRoundTrip(i);
    IntRoundTrip(j);
  }
}
