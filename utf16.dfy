/**
 * JavaScript strings are sequences of UTF-16 code units, while a Dafny string
 * is a sequence of Unicode scalar values. This module gives the two JavaScript
 * notions the pipeline depends on in terms of code units: a string's `length`
 * (used by the minimum-length checks) and the `<` order (used by `string.Ord`
 * to sort topic names).
 */
module Utf16 {

  /** The UTF-16 encoding of one scalar value: one unit, or a surrogate pair. */
  function CharUnits(c: char): (u: seq<int>)
    ensures |u| == (if c as int < 0x10000 then 1 else 2)
    ensures c as int < 0x10000 ==> !(0xD800 <= u[0] < 0xDC00)
    ensures c as int >= 0x10000 ==> 0xD800 <= u[0] < 0xDC00
  {
    var v := c as int;
    if v < 0x10000 then [v]
    else [0xD800 + (v - 0x10000) / 0x400, 0xDC00 + (v - 0x10000) % 0x400]
  }

  /** The UTF-16 code units of `s`, in order. */
  function CodeUnits(s: string): seq<int>
  {
    if s == [] then [] else CharUnits(s[0]) + CodeUnits(s[1..])
  }

  /** JavaScript's `s.length`. */
  function Length(s: string): nat
  {
    |CodeUnits(s)|
  }

  /** A string has a non-zero JavaScript length exactly when it is non-empty. */
  lemma {:induction false} LengthPositive(s: string)
    ensures Length(s) >= |s|
    ensures Length(s) == 0 <==> s == []
  {
    if s != [] {
      LengthPositive(s[1..]);
    }
  }

  /** Two scalar values with the same encoding are the same. */
  lemma CharUnitsInjective(a: char, b: char)
    requires CharUnits(a) == CharUnits(b)
    ensures a == b
  {
    if a as int >= 0x10000 {
      var x, y := a as int - 0x10000, b as int - 0x10000;
      assert x == x / 0x400 * 0x400 + x % 0x400;
      assert y == y / 0x400 * 0x400 + y % 0x400;
    }
  }

  /** Different strings have different encodings, so `<` below is strict on them. */
  lemma {:induction false} CodeUnitsInjective(a: string, b: string)
    requires CodeUnits(a) == CodeUnits(b)
    ensures a == b
  {
    if a != [] {
      assert b != [] by {
        assert |CodeUnits(a)| >= |CharUnits(a[0])| >= 1;
      }
      var ua, ub := CharUnits(a[0]), CharUnits(b[0]);
      var u := CodeUnits(a);
      assert u == ua + CodeUnits(a[1..]) && u == ub + CodeUnits(b[1..]);
      assert u[0] == ua[0] == ub[0];
      assert |ua| == |ub|;
      assert ua == u[..|ua|] && ub == u[..|ub|];
      CharUnitsInjective(a[0], b[0]);
      assert CodeUnits(a[1..]) == u[|ua|..] == CodeUnits(b[1..]);
      CodeUnitsInjective(a[1..], b[1..]);
      assert a == [a[0]] + a[1..] && b == [b[0]] + b[1..];
    }
  }

  /** Lexicographic order on code-unit sequences; a proper prefix comes first. */
  predicate LexLess(x: seq<int>, y: seq<int>)
  {
    if x == [] then y != []
    else y != [] && (x[0] < y[0] || (x[0] == y[0] && LexLess(x[1..], y[1..])))
  }

  lemma {:induction false} LexLessIrreflexive(x: seq<int>)
    ensures !LexLess(x, x)
  {
    if x != [] {
      LexLessIrreflexive(x[1..]);
    }
  }

  lemma {:induction false} LexLessTransitive(x: seq<int>, y: seq<int>, z: seq<int>)
    requires LexLess(x, y) && LexLess(y, z)
    ensures LexLess(x, z)
  {
    if x != [] && x[0] == y[0] == z[0] {
      LexLessTransitive(x[1..], y[1..], z[1..]);
    }
  }

  lemma {:induction false} LexLessTotal(x: seq<int>, y: seq<int>)
    ensures x == y || LexLess(x, y) || LexLess(y, x)
  {
    if x != [] && y != [] && x[0] == y[0] {
      LexLessTotal(x[1..], y[1..]);
      if x[1..] == y[1..] {
        assert x == [x[0]] + x[1..] && y == [y[0]] + y[1..];
      }
    }
  }

  /** JavaScript's `a < b` on strings. */
  predicate Less(a: string, b: string)
  {
    LexLess(CodeUnits(a), CodeUnits(b))
  }

  /** `<` on strings is a strict total order. */
  lemma StringOrder(a: string, b: string, c: string)
    ensures !Less(a, a)
    ensures Less(a, b) && Less(b, c) ==> Less(a, c)
    ensures a == b || Less(a, b) || Less(b, a)
  {
    LexLessIrreflexive(CodeUnits(a));
    if Less(a, b) && Less(b, c) {
      LexLessTransitive(CodeUnits(a), CodeUnits(b), CodeUnits(c));
    }
    LexLessTotal(CodeUnits(a), CodeUnits(b));
    if CodeUnits(a) == CodeUnits(b) {
      CodeUnitsInjective(a, b);
    }
  }
}
