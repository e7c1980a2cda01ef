/**
 * Decimal rendering of integers as `String.format("%02d", n)` does it with
 * ASCII digits, and the decimal value of a digit string, its inverse.
 */
module TextFormat {

  predicate IsDigit(c: char) {
    '0' <= c <= '9'
  }

  predicate AllDigits(s: string) {
    forall i :: 0 <= i < |s| ==> IsDigit(s[i])
  }

  function DigitChar(d: int): (c: char)
    requires 0 <= d < 10
    ensures IsDigit(c) && c as int - '0' as int == d
  {
    ('0' as int + d) as char
  }

  /** The number a string of decimal digits denotes, most significant digit first. */
  function DecimalValue(s: string): (n: nat)
    requires AllDigits(s)
  {
    if s == [] then 0 else DecimalValue(s[..|s| - 1]) * 10 + (s[|s| - 1] as int - '0' as int)
  }

  /** The shortest decimal representation of `n` (`Long.toString` for `n >= 0`). */
  function Digits(n: nat): (s: string)
    ensures AllDigits(s) && DecimalValue(s) == n
    ensures 1 <= |s|
    ensures |s| > 1 ==> s[0] != '0'
    ensures |s| == 1 <==> n < 10
    ensures |s| <= 2 <==> n < 100
  {
    if n < 10 then [DigitChar(n)]
    else
      var s := Digits(n / 10) + [DigitChar(n % 10)];
      assert s[..|s| - 1] == Digits(n / 10);
      assert s[0] == Digits(n / 10)[0];
      s
  }

  /** A digit string that does not start with `0` denotes a positive number. */
  lemma {:induction false} NoLeadingZeroPositive(s: string)
    requires AllDigits(s) && s != [] && s[0] != '0'
    ensures DecimalValue(s) >= 1
  {
    if |s| > 1 {
      var p := s[..|s| - 1];
      assert p[0] == s[0];
      NoLeadingZeroPositive(p);
    }
  }

  /**
   * `Digits` is the only decimal form without a leading zero: every other
   * such string of digits is `Digits` of its own value.
   */
  lemma {:induction false} DigitsCanonical(s: string)
    requires AllDigits(s) && s != [] && (|s| > 1 ==> s[0] != '0')
    ensures s == Digits(DecimalValue(s))
  {
    var n := DecimalValue(s);
    if |s| > 1 {
      var p := s[..|s| - 1];
      assert p[0] == s[0];
      NoLeadingZeroPositive(p);
      DigitsCanonical(p);
      var d := s[|s| - 1] as int - '0' as int;
      assert n == DecimalValue(p) * 10 + d;
      assert n / 10 == DecimalValue(p) && n % 10 == d;
      assert s == p + [DigitChar(d)];
    }
  }

  /** A leading zero does not change a decimal value. */
  lemma {:induction false} LeadingZero(s: string)
    requires AllDigits(s)
    ensures AllDigits("0" + s) && DecimalValue("0" + s) == DecimalValue(s)
  {
    if s != [] {
      var z := "0" + s;
      assert z[..|z| - 1] == "0" + s[..|s| - 1];
      LeadingZero(s[..|s| - 1]);
    }
  }

  /**
   * `"%02d".format(n)`: at least two characters, a leading zero for 0..9; a
   * negative number already fills the width with its sign.
   */
  function ZeroPad2(n: int): (s: string)
    ensures |s| >= 2
    ensures n >= 0 ==> AllDigits(s) && DecimalValue(s) == n && (|s| == 2 <==> n < 100)
    ensures n < 0 ==> s[0] == '-' && AllDigits(s[1..]) && DecimalValue(s[1..]) == -n
    ensures n >= 10 ==> s == Digits(n)
    ensures n < 0 ==> s == "-" + Digits(-n)
  {
    if n < 0 then
      var s := "-" + Digits(-n);
      assert s[1..] == Digits(-n);
      s
    else if n < 10 then
      LeadingZero(Digits(n));
      "0" + Digits(n)
    else
      Digits(n)
  }
}
