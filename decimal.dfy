/**
 * Decimal rendering of integers, as JavaScript's `String(n)` and template
 * literals print an integral number (below 10^21, where exponent notation
 * would start), and the inverse reading of a digit string.
 */
module Decimal {

  predicate IsDigit(c: char)
  {
    '0' <= c <= '9'
  }

  predicate IsDigits(s: string)
  {
    forall i :: 0 <= i < |s| ==> IsDigit(s[i])
  }

  /** A string of digits holds no other character. */
  lemma NoDigit(s: string, c: char)
    requires IsDigits(s) && !IsDigit(c)
    ensures c !in s
  {
  }

  /** The canonical form: at least one digit and no leading zero. */
  predicate IsCanonical(s: string)
  {
    |s| >= 1 && IsDigits(s) && (s[0] != '0' || |s| == 1)
  }

  function DigitChar(d: nat): (c: char)
    requires d < 10
    ensures IsDigit(c) && c as int - '0' as int == d
  {
    (d + '0' as int) as char
  }

  /** The value of a string of decimal digits (leading zeros allowed). */
  function Value(s: string): nat
    requires IsDigits(s)
  {
    if s == [] then 0
    else 10 * Value(s[..|s| - 1]) + (s[|s| - 1] as int - '0' as int)
  }

  /** `String(n)` for a natural number. */
  function NatToString(n: nat): (s: string)
    ensures IsCanonical(s)
  {
    if n < 10 then [DigitChar(n)]
    else NatToString(n / 10) + [DigitChar(n % 10)]
  }

  /** `String(i)` for any integer: a minus sign, then the digits of `-i`. */
  function IntToString(i: int): string
  {
    if i < 0 then "-" + NatToString(-i) else NatToString(i)
  }

  /** Reading back the rendered digits gives the number. */
  lemma {:induction false} ValueOfNatToString(n: nat)
    ensures Value(NatToString(n)) == n
  {
    if n >= 10 {
      ValueOfNatToString(n / 10);
      var s := NatToString(n);
      assert s[..|s| - 1] == NatToString(n / 10);
    }
  }

  /** A digit string whose value is zero holds only zeros. */
  lemma {:induction false} ZeroValue(s: string)
    requires IsDigits(s) && Value(s) == 0
    ensures forall i :: 0 <= i < |s| ==> s[i] == '0'
  {
    if s != [] {
      ZeroValue(s[..|s| - 1]);
      assert forall i :: 0 <= i < |s| - 1 ==> s[i] == s[..|s| - 1][i];
    }
  }

  /** Rendering the value of a canonical digit string gives back the string. */
  lemma {:induction false} NatToStringOfValue(s: string)
    requires IsCanonical(s)
    ensures NatToString(Value(s)) == s
  {
    if |s| >= 2 {
      var p := s[..|s| - 1];
      assert p[0] == s[0] != '0';
      assert IsCanonical(p);
      NatToStringOfValue(p);
      if Value(p) == 0 {
        ZeroValue(p);
        assert false;
      }
      var v := Value(s);
      assert v / 10 == Value(p) && v % 10 == s[|s| - 1] as int - '0' as int;
      assert s == p + [s[|s| - 1]];
    }
  }

  /** `IntToString` starts with a minus sign exactly for negative numbers. */
  lemma IntToStringSign(i: int)
    ensures i < 0 ==> IntToString(i) == "-" + NatToString(-i)
    ensures i >= 0 ==> IsCanonical(IntToString(i)) && Value(IntToString(i)) == i
  {
    if i >= 0 {
      ValueOfNatToString(i);
    }
  }
}
