/**
 * The two sorts the pipeline performs with fp-ts `sort`, which copies its
 * input and calls `Array.prototype.sort` (a stable sort) with an `Ord`:
 * records by date, newest first (`date.Ord` reversed), and topic names by
 * `string.Ord`. Both are insertion sorts here; any stable sort returns the
 * same result for the same order.
 */
module Sorting {
  import Utf16

  /** Non-increasing in `key`. */
  ghost predicate Descending<T>(s: seq<T>, key: T -> int)
  {
    forall i, j :: 0 <= i < j < |s| ==> key(s[i]) >= key(s[j])
  }

  /** The elements of `s` whose key is `k`, in order. */
  function WithKey<T>(s: seq<T>, key: T -> int, k: int): seq<T>
  {
    if s == [] then [] else (if key(s[0]) == k then [s[0]] else []) + WithKey(s[1..], key, k)
  }

  /** Puts `x` before the first element whose key is not greater than its own. */
  function InsertByKey<T>(x: T, s: seq<T>, key: T -> int): seq<T>
  {
    if s == [] || key(s[0]) <= key(x) then [x] + s
    else [s[0]] + InsertByKey(x, s[1..], key)
  }

  lemma {:induction false} InsertByKeyPermutes<T>(x: T, s: seq<T>, key: T -> int)
    ensures multiset(InsertByKey(x, s, key)) == multiset(s) + multiset{x}
  {
    if s != [] && key(s[0]) > key(x) {
      InsertByKeyPermutes(x, s[1..], key);
      assert s == [s[0]] + s[1..];
    }
  }

  /** Inserting keeps every key at most `b` when `x` and `s` respect that bound. */
  lemma {:induction false} InsertByKeyBounded<T>(x: T, s: seq<T>, key: T -> int, b: int)
    requires key(x) <= b
    requires forall i :: 0 <= i < |s| ==> key(s[i]) <= b
    ensures forall i :: 0 <= i < |InsertByKey(x, s, key)| ==> key(InsertByKey(x, s, key)[i]) <= b
  {
    if s != [] && key(s[0]) > key(x) {
      InsertByKeyBounded(x, s[1..], key, b);
    }
  }

  lemma {:induction false} InsertByKeyDescending<T>(x: T, s: seq<T>, key: T -> int)
    requires Descending(s, key)
    ensures Descending(InsertByKey(x, s, key), key)
  {
    if s != [] && key(s[0]) > key(x) {
      InsertByKeyDescending(x, s[1..], key);
      InsertByKeyBounded(x, s[1..], key, key(s[0]));
    }
  }

  /** The records ordered by key, largest first; records with equal keys keep their order. */
  function SortByKeyDescending<T>(s: seq<T>, key: T -> int): (r: seq<T>)
    ensures multiset(r) == multiset(s)
    ensures Descending(r, key)
  {
    if s == [] then []
    else
      var sorted := SortByKeyDescending(s[1..], key);
      InsertByKeyPermutes(s[0], sorted, key);
      InsertByKeyDescending(s[0], sorted, key);
      assert s == [s[0]] + s[1..];
      InsertByKey(s[0], sorted, key)
  }

  lemma WithKeyCons<T>(y: T, t: seq<T>, key: T -> int, k: int)
    ensures WithKey([y] + t, key, k) == (if key(y) == k then [y] else []) + WithKey(t, key, k)
  {
    assert ([y] + t)[1..] == t;
  }

  lemma {:induction false} InsertByKeyStable<T>(x: T, s: seq<T>, key: T -> int, k: int)
    ensures WithKey(InsertByKey(x, s, key), key, k)
         == (if key(x) == k then [x] else []) + WithKey(s, key, k)
  {
    if s == [] || key(s[0]) <= key(x) {
      WithKeyCons(x, s, key, k);
    } else {
      var rest := InsertByKey(x, s[1..], key);
      InsertByKeyStable(x, s[1..], key, k);
      WithKeyCons(s[0], rest, key, k);
      WithKeyCons(s[0], s[1..], key, k);
      assert [s[0]] + s[1..] == s;
      if key(x) == k {
        assert WithKey(s, key, k) == WithKey(s[1..], key, k);
      } else {
        assert WithKey(rest, key, k) == WithKey(s[1..], key, k);
      }
    }
  }

  /** Stability: among records with the same key, the sorted order is the input order. */
  lemma {:induction false} SortByKeyDescendingStable<T>(s: seq<T>, key: T -> int, k: int)
    ensures WithKey(SortByKeyDescending(s, key), key, k) == WithKey(s, key, k)
  {
    if s != [] {
      SortByKeyDescendingStable(s[1..], key, k);
      InsertByKeyStable(s[0], SortByKeyDescending(s[1..], key), key, k);
    }
  }

  /** Non-decreasing in JavaScript's string order. */
  ghost predicate Ascending(s: seq<string>)
  {
    forall i, j :: 0 <= i < j < |s| ==> !Utf16.Less(s[j], s[i])
  }

  /** "Not less than" is transitive. */
  lemma NotLessTransitive(a: string, b: string, c: string)
    requires !Utf16.Less(b, a) && !Utf16.Less(c, b)
    ensures !Utf16.Less(c, a)
  {
    Utf16.StringOrder(a, b, c);
    Utf16.StringOrder(b, c, a);
    Utf16.StringOrder(c, a, b);
  }

  /** Puts `x` before the first element that is not less than it. */
  function InsertString(x: string, s: seq<string>): seq<string>
  {
    if s == [] || !Utf16.Less(s[0], x) then [x] + s
    else [s[0]] + InsertString(x, s[1..])
  }

  lemma {:induction false} InsertStringPermutes(x: string, s: seq<string>)
    ensures multiset(InsertString(x, s)) == multiset(s) + multiset{x}
  {
    if s != [] && Utf16.Less(s[0], x) {
      InsertStringPermutes(x, s[1..]);
      assert s == [s[0]] + s[1..];
    }
  }

  /** Inserting keeps every name at least `b` when `x` and `s` respect that bound. */
  lemma {:induction false} InsertStringBounded(x: string, s: seq<string>, b: string)
    requires !Utf16.Less(x, b)
    requires forall i :: 0 <= i < |s| ==> !Utf16.Less(s[i], b)
    ensures forall i :: 0 <= i < |InsertString(x, s)| ==> !Utf16.Less(InsertString(x, s)[i], b)
  {
    if s != [] && Utf16.Less(s[0], x) {
      InsertStringBounded(x, s[1..], b);
    }
  }

  lemma {:induction false} InsertStringAscending(x: string, s: seq<string>)
    requires Ascending(s)
    ensures Ascending(InsertString(x, s))
  {
    if s != [] {
      if Utf16.Less(s[0], x) {
        InsertStringAscending(x, s[1..]);
        Utf16.StringOrder(s[0], x, s[0]);
        InsertStringBounded(x, s[1..], s[0]);
      } else {
        forall j | 0 <= j < |s| ensures !Utf16.Less(s[j], x) {
          if j > 0 {
            NotLessTransitive(x, s[0], s[j]);
          }
        }
      }
    }
  }

  /** `array.sort(string.Ord)`: the names in ascending JavaScript string order. */
  function SortStrings(s: seq<string>): (r: seq<string>)
    ensures multiset(r) == multiset(s)
    ensures Ascending(r)
  {
    if s == [] then []
    else
      var sorted := SortStrings(s[1..]);
      InsertStringPermutes(s[0], sorted);
      InsertStringAscending(s[0], sorted);
      assert s == [s[0]] + s[1..];
      InsertString(s[0], sorted)
  }
}
