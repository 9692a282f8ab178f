/** Decimal text of natural numbers: what JavaScript's `String(n)` produces
    for a non-negative safe integer (below 2^53), and the reading of a digit
    string back into the number it denotes. Above that bound JavaScript
    prints rounded digits, and from 1e21 on it uses exponent form; the
    countdown never passes it numbers that large. */
module Decimal {

  predicate IsDigit(c: char) {
    '0' <= c <= '9'
  }

  predicate AllDigits(s: string) {
    forall i :: 0 <= i < |s| ==> IsDigit(s[i])
  }

  /** A canonical decimal numeral: non-empty, digits only, no leading zero
      unless the numeral is "0" itself. */
  predicate Canonical(s: string) {
    |s| >= 1 && AllDigits(s) && (|s| > 1 ==> s[0] != '0')
  }

  function DigitChar(d: nat): (c: char)
    requires d < 10
    ensures IsDigit(c)
    ensures c as int - '0' as int == d
  {
    ('0' as int + d) as char
  }

  function DigitValue(c: char): (d: nat)
    requires IsDigit(c)
    ensures d < 10
    ensures DigitChar(d) == c
  {
    c as int - '0' as int
  }

  /** `String(n)` for a natural number `n`: most significant digit first. */
  function DecimalString(n: nat): (s: string)
    ensures Canonical(s)
    ensures |s| == 1 <==> n < 10
    decreases n
  {
    if n < 10 then [DigitChar(n)] else DecimalString(n / 10) + [DigitChar(n % 10)]
  }

  /** The number a string of decimal digits denotes (leading zeros allowed). */
  function ParseDecimal(s: string): nat
    requires AllDigits(s)
    decreases |s|
  {
    if s == [] then 0 else 10 * ParseDecimal(s[..|s| - 1]) + DigitValue(s[|s| - 1])
  }

  /** Reading back what `DecimalString` wrote gives the number again. */
  lemma {:induction false} ParseDecimalString(n: nat)
    ensures ParseDecimal(DecimalString(n)) == n
    decreases n
  {
    var s := DecimalString(n);
    if n >= 10 {
      ParseDecimalString(n / 10);
      assert s[..|s| - 1] == DecimalString(n / 10);
    }
  }

  /** A canonical numeral of two or more digits denotes a number of at least 10. */
  lemma {:induction false} CanonicalAtLeastTen(s: string)
    requires Canonical(s) && |s| >= 2
    ensures ParseDecimal(s) >= 10
    decreases |s|
  {
    var p := s[..|s| - 1];
    if |p| >= 2 {
      CanonicalAtLeastTen(p);
    } else {
      assert p == [s[0]];
      assert ParseDecimal(p) == DigitValue(s[0]);
    }
  }

  /** Writing out what a canonical numeral denotes gives the numeral back,
      so `DecimalString` and `ParseDecimal` are inverse bijections between
      the naturals and the canonical numerals. */
  lemma {:induction false} DecimalStringOfParse(s: string)
    requires Canonical(s)
    ensures DecimalString(ParseDecimal(s)) == s
    decreases |s|
  {
    var n := ParseDecimal(s);
    if |s| == 1 {
      assert s[..0] == [];
      assert ParseDecimal(s[..0]) == 0;
    } else {
      var p := s[..|s| - 1];
      assert Canonical(p) by {
        assert p[0] == s[0];
      }
      CanonicalAtLeastTen(s);
      DecimalStringOfParse(p);
      assert n / 10 == ParseDecimal(p);
      assert n % 10 == DigitValue(s[|s| - 1]);
      assert s == p + [s[|s| - 1]];
    }
  }

  /** A leading zero does not change the number a digit string denotes. */
  lemma {:induction false} ParseLeadingZero(s: string)
    requires AllDigits(s)
    ensures AllDigits(['0'] + s)
    ensures ParseDecimal(['0'] + s) == ParseDecimal(s)
    decreases |s|
  {
    var z := ['0'] + s;
    if s == [] {
      assert z[..0] == [];
    } else {
      var p := s[..|s| - 1];
      assert z[..|z| - 1] == ['0'] + p;
      ParseLeadingZero(p);
    }
  }
}
