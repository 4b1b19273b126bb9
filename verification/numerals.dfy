/** Decimal text of counters and timestamps, and the two ways the system
    reads a number back out of text. */
module Numerals {

  predicate IsDigit(c: char) {
    '0' <= c <= '9'
  }

  predicate AllDigits(s: string) {
    forall i :: 0 <= i < |s| ==> IsDigit(s[i])
  }

  /** A digit string holds no character other than digits. */
  lemma NoOtherChar(s: string, c: char)
    requires AllDigits(s) && !IsDigit(c)
    ensures c !in s
  {
    forall i | 0 <= i < |s|
      ensures s[i] != c
    {
    }
  }

  function DigitChar(d: nat): char
    requires d < 10
  {
    ('0' as int + d) as char
  }

  function DigitValue(c: char): nat
    requires IsDigit(c)
  {
    c as int - '0' as int
  }

  /** `n.toString()` on an integer type: canonical decimal digits, with a
      leading zero only for zero itself. */
  function Decimal(n: nat): (s: string)
    ensures |s| >= 1 && AllDigits(s)
    ensures s[0] == '0' <==> n == 0
    decreases n
  {
    if n < 10 then [DigitChar(n)] else Decimal(n / 10) + [DigitChar(n % 10)]
  }

  /** The number a string of decimal digits denotes. */
  function DigitsValue(s: string): nat
    requires AllDigits(s)
  {
    if |s| == 0 then 0 else 10 * DigitsValue(s[..|s| - 1]) + DigitValue(s[|s| - 1])
  }

  /** Reading a rendered number gives the number back. */
  lemma {:induction false} DecimalRoundTrip(n: nat)
    ensures DigitsValue(Decimal(n)) == n
    decreases n
  {
    if n >= 10 {
      var s := Decimal(n);
      assert s[..|s| - 1] == Decimal(n / 10);
      DecimalRoundTrip(n / 10);
    }
  }

  /** Distinct numbers have distinct decimal texts. */
  lemma DecimalInjective(a: nat, b: nat)
    requires Decimal(a) == Decimal(b)
    ensures a == b
  {
    DecimalRoundTrip(a);
    DecimalRoundTrip(b);
  }

  /** The longest prefix of `s` made of decimal digits: what a regular
      expression group `(\d+)` captures when it starts at the front of `s`
      (empty when no digit is there). */
  function LeadingDigits(s: string): (p: string)
    ensures AllDigits(p) && p <= s
    ensures |p| < |s| ==> !IsDigit(s[|p|])
  {
    if |s| == 0 || !IsDigit(s[0]) then "" else [s[0]] + LeadingDigits(s[1..])
  }

  /** AssemblyScript's `f64.toString()` of an integral value below 10^21:
      the decimal digits followed by ".0". */
  function IntegralF64Text(n: nat): string {
    Decimal(n) + ".0"
  }

  /** The digit capture of a decimal text is the whole text. */
  lemma {:induction false} LeadingDigitsOfDecimal(s: string)
    requires AllDigits(s)
    ensures LeadingDigits(s) == s
    decreases |s|
  {
    if |s| > 0 {
      LeadingDigitsOfDecimal(s[1..]);
    }
  }

  /** The digit capture of an f64 text stops at the decimal point. */
  lemma {:induction false} LeadingDigitsOfF64Text(n: nat)
    ensures LeadingDigits(IntegralF64Text(n)) == Decimal(n)
  {
    LeadingDigitsAppend(Decimal(n), ".0");
  }

  lemma {:induction false} LeadingDigitsAppend(s: string, t: string)
    requires AllDigits(s)
    requires |t| > 0 && !IsDigit(t[0])
    ensures LeadingDigits(s + t) == s
    decreases |s|
  {
    if |s| > 0 {
      assert (s + t)[1..] == s[1..] + t;
      LeadingDigitsAppend(s[1..], t);
    }
  }
}
