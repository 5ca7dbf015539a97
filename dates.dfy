/**
 * Ordering of date keys and Python list slicing.
 *
 * Python compares `str` values lexicographically by code point; on
 * `YYYY-MM-DD` keys that order is chronological. `sorted(d.keys())` is
 * modelled as the unique strictly increasing sequence of a key set.
 */
module Dates {

  /** Python's `a < b` on `str`: lexicographic order by code point. */
  predicate Below(a: string, b: string)
  {
    if a == [] then b != []
    else if b == [] then false
    else if a[0] != b[0] then a[0] < b[0]
    else Below(a[1..], b[1..])
  }

  lemma {:induction false} BelowAsymmetric(a: string, b: string)
    ensures Below(a, b) ==> !Below(b, a)
  {
    if a != [] && b != [] && a[0] == b[0] { BelowAsymmetric(a[1..], b[1..]); }
  }

  lemma {:induction false} BelowTransitive(a: string, b: string, c: string)
    requires Below(a, b) && Below(b, c)
    ensures Below(a, c)
  {
    if a != [] && a[0] == b[0] && b[0] == c[0] {
      BelowTransitive(a[1..], b[1..], c[1..]);
    }
  }

  lemma {:induction false} BelowTotal(a: string, b: string)
    ensures a == b || Below(a, b) || Below(b, a)
  {
    if a != [] && b != [] && a[0] == b[0] {
      BelowTotal(a[1..], b[1..]);
      if a[1..] == b[1..] {
        assert a == [a[0]] + a[1..] && b == [b[0]] + b[1..];
      }
    }
  }

  /** Every later element is strictly above every earlier one. */
  predicate StrictlyIncreasing(s: seq<string>)
  {
    forall i, j :: 0 <= i < j < |s| ==> Below(s[i], s[j])
  }

  /** `m` is the least element of `ks`. */
  predicate IsLeast(m: string, ks: set<string>)
  {
    m in ks && forall x :: x in ks && x != m ==> Below(m, x)
  }

  lemma LeastExists(ks: set<string>)
    requires ks != {}
    ensures exists m :: IsLeast(m, ks)
    decreases ks
  {
    var x :| x in ks;
    if ks == {x} {
      assert IsLeast(x, ks);
    } else {
      LeastExists(ks - {x});
      var m :| IsLeast(m, ks - {x});
      BelowTotal(m, x);
      if Below(m, x) {
        assert IsLeast(m, ks);
      } else {
        forall y | y in ks && y != x
          ensures Below(x, y)
        {
          if y != m { BelowTransitive(x, m, y); }
        }
        assert IsLeast(x, ks);
      }
    }
  }

  lemma LeastUnique(ks: set<string>)
    ensures forall m1, m2 :: IsLeast(m1, ks) && IsLeast(m2, ks) ==> m1 == m2
  {
    forall m1, m2 | IsLeast(m1, ks) && IsLeast(m2, ks)
      ensures m1 == m2
    {
      BelowAsymmetric(m1, m2);
    }
  }

  /**
   * `sorted(ks)`: the keys in ascending order, each once. The recursive
   * calls' contracts carry the proof that the result is increasing.
   */
  function SortedKeys(ks: set<string>): (s: seq<string>)
    ensures StrictlyIncreasing(s)
    ensures |s| == |ks|
    ensures forall x :: x in s <==> x in ks
    decreases ks
  {
    if ks == {} then []
    else
      LeastExists(ks);
      LeastUnique(ks);
      var m :| IsLeast(m, ks);
      [m] + SortedKeys(ks - {m})
  }

  /** The first sorted key is the least key, the last is the greatest. */
  lemma SortedKeysEnds(ks: set<string>)
    requires ks != {}
    ensures forall x :: x in ks && x != SortedKeys(ks)[0] ==> Below(SortedKeys(ks)[0], x)
    ensures forall x :: x in ks && x != SortedKeys(ks)[|ks| - 1] ==> Below(x, SortedKeys(ks)[|ks| - 1])
  {
    var s := SortedKeys(ks);
    forall x | x in ks
      ensures x != s[0] ==> Below(s[0], x)
      ensures x != s[|s| - 1] ==> Below(x, s[|s| - 1])
    {
      var k :| 0 <= k < |s| && s[k] == x;
    }
  }

  /** The Python slice `s[i:]`: a negative `i` counts from the end, and any `i` is clamped. */
  function PySliceFrom<T>(s: seq<T>, i: int): (r: seq<T>)
    ensures |r| == if i >= 0 then (if i <= |s| then |s| - i else 0)
                   else (if -i <= |s| then -i else |s|)
  {
    if i >= 0 then (if i <= |s| then s[i..] else [])
    else if -i <= |s| then s[|s| + i..]
    else s
  }

  /** `s[i:]` is always a suffix of `s`. */
  lemma SliceFromIsSuffix<T>(s: seq<T>, i: int)
    ensures PySliceFrom(s, i) == s[|s| - |PySliceFrom(s, i)|..]
  {
  }

  /** Every element of a slice `s[i:]` is an element of `s`. */
  lemma SliceFromWithin<T>(s: seq<T>, i: int)
    ensures forall x :: x in PySliceFrom(s, i) ==> x in s
  {
    var w := PySliceFrom(s, i);
    SliceFromIsSuffix(s, i);
    forall x | x in w
      ensures x in s
    {
      var k :| 0 <= k < |w| && w[k] == x;
      assert s[|s| - |w| + k] == x;
    }
  }

  /** A slice `s[i:]` of an increasing sequence is increasing. */
  lemma SliceFromIncreasing(s: seq<string>, i: int)
    requires StrictlyIncreasing(s)
    ensures StrictlyIncreasing(PySliceFrom(s, i))
  {
    var w := PySliceFrom(s, i);
    SliceFromIsSuffix(s, i);
    var off := |s| - |w|;
    forall a, b | 0 <= a < b < |w|
      ensures Below(w[a], w[b])
    {
      assert w[a] == s[off + a] && w[b] == s[off + b];
    }
  }

  /** The Python slice `s[:j]`: a negative `j` counts from the end, and any `j` is clamped. */
  function PySliceTo<T>(s: seq<T>, j: int): (r: seq<T>)
    ensures |r| == if j >= 0 then (if j <= |s| then j else |s|)
                   else (if -j <= |s| then |s| + j else 0)
    ensures r == s[..|r|]
  {
    if j >= 0 then (if j <= |s| then s[..j] else s)
    else if -j <= |s| then s[..|s| + j]
    else []
  }

  /**
   * `s[-k:]` for a positive `k` keeps the last min(k, |s|) elements;
   * for `k == 0` it keeps all of them, because `-0` is `0`.
   */
  lemma LastK<T>(s: seq<T>, k: nat)
    ensures k > 0 ==> PySliceFrom(s, -(k as int)) == s[|s| - (if k <= |s| then k else |s|)..]
    ensures k == 0 ==> PySliceFrom(s, -(k as int)) == s
  {
  }

  /** `s[:n]` for a natural `n` keeps the first min(n, |s|) elements. */
  lemma FirstN<T>(s: seq<T>, n: nat)
    ensures PySliceTo(s, n) == s[..if n <= |s| then n else |s|]
  {
  }

  /** For negative `b <= a`, `s[a:]` is a suffix of `s[b:]`, so its elements lie in it. */
  lemma SuffixWithin<T>(s: seq<T>, a: int, b: int)
    requires b <= a < 0
    ensures forall x :: x in PySliceFrom(s, a) ==> x in PySliceFrom(s, b)
  {
    var short := PySliceFrom(s, a);
    var long := PySliceFrom(s, b);
    SliceFromIsSuffix(s, a);
    SliceFromIsSuffix(s, b);
    forall x | x in short
      ensures x in long
    {
      var k :| 0 <= k < |short| && short[k] == x;
      assert long[|long| - |short| + k] == x;
    }
  }
}
