/**
 * Decimal rendering of natural numbers, as JavaScript converts an integral
 * number to text inside a template literal for the magnitudes a date field
 * takes (below 10^21, where JavaScript switches to exponent notation), and
 * its inverse.
 */
module Decimal {

  predicate IsDigit(c: char) {
    '0' <= c <= '9'
  }

  /** A non-empty string of decimal digits. */
  predicate IsNumeral(s: string) {
    |s| > 0 && forall i :: 0 <= i < |s| ==> IsDigit(s[i])
  }

  function DigitChar(d: nat): (c: char)
    requires d < 10
    ensures IsDigit(c)
  {
    ('0' as int + d) as char
  }

  function DigitValue(c: char): (d: nat)
    requires IsDigit(c)
    ensures d < 10 && DigitChar(d) == c
  {
    c as int - '0' as int
  }

  /** The shortest decimal numeral of n: no leading zero unless n is 0. */
  function FromNat(n: nat): (s: string)
    ensures IsNumeral(s)
    ensures |s| == 1 <==> n < 10
  {
    if n < 10 then [DigitChar(n)] else FromNat(n / 10) + [DigitChar(n % 10)]
  }

  /** The value of a string of digits; leading zeros add nothing. */
  function ToNat(s: string): nat
    requires forall i :: 0 <= i < |s| ==> IsDigit(s[i])
  {
    if |s| == 0 then 0 else ToNat(s[..|s| - 1]) * 10 + DigitValue(s[|s| - 1])
  }

  /** Reading back a rendered number gives the number. */
  lemma {:induction false} ToNatFromNat(n: nat)
    ensures ToNat(FromNat(n)) == n
  {
    if n >= 10 {
      var s := FromNat(n);
      assert s[..|s| - 1] == FromNat(n / 10);
      ToNatFromNat(n / 10);
    }
  }

  /** A leading zero does not change the value of a numeral. */
  lemma {:induction false} ToNatLeadingZero(s: string)
    requires forall i :: 0 <= i < |s| ==> IsDigit(s[i])
    ensures ToNat("0" + s) == ToNat(s)
  {
    if |s| > 0 {
      var t := "0" + s;
      assert t[..|t| - 1] == "0" + s[..|s| - 1];
      ToNatLeadingZero(s[..|s| - 1]);
    }
  }

  /** Only 0 is rendered with a leading '0'. */
  lemma {:induction false} FromNatNoLeadingZero(n: nat)
    ensures FromNat(n)[0] == '0' <==> n == 0
  {
    if n >= 10 {
      FromNatNoLeadingZero(n / 10);
      assert FromNat(n)[0] == FromNat(n / 10)[0];
    }
  }

  /** A number from 10 to 99 takes exactly two digits. */
  lemma TwoDigits(n: nat)
    requires 10 <= n < 100
    ensures |FromNat(n)| == 2
  {
    assert FromNat(n) == FromNat(n / 10) + [DigitChar(n % 10)];
  }
}
