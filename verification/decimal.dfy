/**
 * Decimal rendering of unsigned integers, as done by `Print` in the example
 * firmware (digits collected least significant first, then reversed) and by
 * Rust's `{}` formatting of a non-zero integer.
 */
module Decimal {

  predicate IsDigit(c: char) {
    '0' <= c <= '9'
  }

  function DigitChar(d: nat): (c: char)
    requires d < 10
    ensures IsDigit(c)
  {
    ('0' as int + d) as char
  }

  function DigitValue(c: char): (d: nat)
    requires IsDigit(c)
    ensures d < 10
  {
    c as int - '0' as int
  }

  /** The decimal digits of `n`, most significant first; empty for zero. */
  function Digits(n: nat): (s: string)
  {
    if n == 0 then "" else Digits(n / 10) + [DigitChar(n % 10)]
  }

  /** The number a string of decimal digits denotes. */
  function Value(s: string): nat
    requires forall i :: 0 <= i < |s| ==> IsDigit(s[i])
  {
    if s == [] then 0 else 10 * Value(s[..|s| - 1]) + DigitValue(s[|s| - 1])
  }

  lemma {:induction false} DigitsAreDigits(n: nat)
    ensures forall i :: 0 <= i < |Digits(n)| ==> IsDigit(Digits(n)[i])
  {
    if n != 0 {
      DigitsAreDigits(n / 10);
    }
  }

  /** Reading the digits back gives the number: rendering is injective. */
  lemma {:induction false} ValueOfDigits(n: nat)
    ensures forall i :: 0 <= i < |Digits(n)| ==> IsDigit(Digits(n)[i])
    ensures Value(Digits(n)) == n
  {
    DigitsAreDigits(n);
    if n != 0 {
      ValueOfDigits(n / 10);
      var s := Digits(n);
      assert s[..|s| - 1] == Digits(n / 10);
    }
  }

  /** No leading zero: the first digit of a positive number is not '0'. */
  lemma {:induction false} NoLeadingZero(n: nat)
    requires n > 0
    ensures |Digits(n)| > 0 && Digits(n)[0] != '0'
  {
    if n / 10 != 0 {
      NoLeadingZero(n / 10);
    }
  }

  function Pow10(k: nat): (p: nat)
    ensures p > 0
  {
    if k == 0 then 1 else 10 * Pow10(k - 1)
  }

  /** `n` has exactly k digits iff 10^(k-1) <= n < 10^k. */
  lemma {:induction false} DigitsLength(n: nat, k: nat)
    requires n < Pow10(k)
    ensures |Digits(n)| <= k
  {
    if n != 0 {
      assert k > 0;
      DigitsLength(n / 10, k - 1);
    }
  }

  lemma DigitsInjective(a: nat, b: nat)
    requires Digits(a) == Digits(b)
    ensures a == b
  {
    ValueOfDigits(a);
    ValueOfDigits(b);
  }

  /** Rust's `{}` for an integer: "0" for zero, a minus sign before the digits of a negative number. */
  function SignedText(x: int): (s: string)
    ensures |s| > 0
    ensures x >= 0 ==> forall i :: 0 <= i < |s| ==> IsDigit(s[i])
  {
    if x == 0 then "0"
    else if x < 0 then NoLeadingZero(-x); "-" + Digits(-x)
    else DigitsAreDigits(x); NoLeadingZero(x); Digits(x)
  }

  /** Different integers render differently, so the text can be read back. */
  lemma SignedTextInjective(a: int, b: int)
    requires SignedText(a) == SignedText(b)
    ensures a == b
  {
    var s := SignedText(a);
    if a > 0 {
      NoLeadingZero(a);
      DigitsAreDigits(a);
    }
    if b > 0 {
      NoLeadingZero(b);
      DigitsAreDigits(b);
    }
    if a < 0 && b < 0 {
      assert Digits(-a) == s[1..] == Digits(-b);
      DigitsInjective(-a, -b);
    } else if a > 0 && b > 0 {
      DigitsInjective(a, b);
    }
  }
}
