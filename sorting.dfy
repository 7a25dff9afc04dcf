/**
 * `Array.prototype.sort` with a comparator: a stable sort, here an insertion
 * sort. `before(a, b)` says the comparator returns a negative number for
 * `(a, b)`. For a comparator that is a strict weak order every stable sort
 * yields the same sequence, so the insertion sort stands for the engine's.
 */
module Sorting {
  import opened Seqs

  /** The comparator orders consistently: irreflexive, transitive, and incomparability is transitive. */
  ghost predicate StrictWeakOrder<T(!new)>(before: (T, T) -> bool) {
    && (forall a :: !before(a, a))
    && (forall a, b, c :: before(a, b) && before(b, c) ==> before(a, c))
    && (forall a, b, c :: before(a, c) ==> before(a, b) || before(b, c))
  }

  /** No element is preceded by a later one. */
  ghost predicate Sorted<T>(s: seq<T>, before: (T, T) -> bool) {
    forall i, j :: 0 <= i < j < |s| ==> !before(s[j], s[i])
  }

  /**
   * Inserting `x` into a sorted `t` from the right: `x` moves left past every
   * element it strictly precedes, and stops behind the first one it does not.
   */
  function InsertLast<T>(t: seq<T>, x: T, before: (T, T) -> bool): seq<T> {
    if |t| == 0 || !before(x, t[|t| - 1]) then t + [x]
    else InsertLast(t[..|t| - 1], x, before) + [t[|t| - 1]]
  }

  /** The insertion sort: each element in turn, inserted into the sorted sequence before it. */
  function SortSeq<T>(s: seq<T>, before: (T, T) -> bool): seq<T> {
    if |s| == 0 then []
    else InsertLast(SortSeq(s[..|s| - 1], before), s[|s| - 1], before)
  }

  /** `a.sort(cmp)` in place: an insertion sort that shifts larger elements right. */
  method InsertionSort<T>(a: array<T>, before: (T, T) -> bool)
    modifies a
    ensures a[..] == SortSeq(old(a[..]), before)
  {
    var i := 0;
    while i < a.Length
      invariant 0 <= i <= a.Length
      invariant a[..i] == SortSeq(old(a[..])[..i], before)
      invariant a[i..] == old(a[..])[i..]
    {
      ghost var prev := a[..];
      InsertAt(a, i, before);
      assert old(a[..])[..i + 1][..i] == old(a[..])[..i];
      assert old(a[..])[i] == prev[i];
      assert a[i + 1..] == prev[i + 1..];
      i := i + 1;
    }
    assert a[..] == a[..a.Length];
    assert old(a[..]) == old(a[..])[..a.Length];
  }

  /** One round of the insertion sort: `a[i]` is moved left into the prefix before it. */
  method InsertAt<T>(a: array<T>, i: int, before: (T, T) -> bool)
    requires 0 <= i < a.Length
    modifies a
    ensures a[..i + 1] == InsertLast(old(a[..i]), old(a[i]), before)
    ensures a[i + 1..] == old(a[i + 1..])
  {
    var x := a[i];
    ghost var t := a[..i];
    var j := i;
    assert t[..j] == t && t[j..] == [];
    while j > 0 && before(x, a[j - 1])
      invariant 0 <= j <= i
      invariant forall k :: 0 <= k < j ==> a[k] == t[k]
      invariant forall k :: j < k <= i ==> a[k] == t[k - 1]
      invariant forall k :: i < k < a.Length ==> a[k] == old(a[k])
      invariant InsertLast(t, x, before) == InsertLast(t[..j], x, before) + t[j..]
    {
      InsertLastStep(t, j, x, before);
      a[j] := a[j - 1];
      j := j - 1;
    }
    a[j] := x;
    InsertLastStop(t, j, x, before);
    assert a[..i + 1] == t[..j] + [x] + t[j..];
  }

  /** Where `InsertAt` stops: `x` goes right behind `t[..j]`. */
  lemma InsertLastStop<T>(t: seq<T>, j: int, x: T, before: (T, T) -> bool)
    requires 0 <= j <= |t| && (j == 0 || !before(x, t[j - 1]))
    ensures InsertLast(t[..j], x, before) == t[..j] + [x]
  {
  }

  /** One shift of `InsertAt`: `x` passes `t[j - 1]`, which it precedes. */
  lemma InsertLastStep<T>(t: seq<T>, j: int, x: T, before: (T, T) -> bool)
    requires 0 < j <= |t| && before(x, t[j - 1])
    ensures InsertLast(t[..j], x, before) + t[j..] == InsertLast(t[..j - 1], x, before) + t[j - 1..]
  {
    assert t[..j][..j - 1] == t[..j - 1];
    assert t[j - 1..] == [t[j - 1]] + t[j..];
  }

  // ---------------------------------------------------------------------
  // What the sort promises

  lemma {:induction false} InsertLastMultiset<T>(t: seq<T>, x: T, before: (T, T) -> bool)
    ensures multiset(InsertLast(t, x, before)) == multiset(t) + multiset{x}
  {
    if |t| > 0 && before(x, t[|t| - 1]) {
      InsertLastMultiset(t[..|t| - 1], x, before);
      assert t == t[..|t| - 1] + [t[|t| - 1]];
    }
  }

  /** The sorted sequence is a permutation of the input. */
  lemma {:induction false} SortSeqPermutation<T>(s: seq<T>, before: (T, T) -> bool)
    ensures multiset(SortSeq(s, before)) == multiset(s)
    ensures |SortSeq(s, before)| == |s|
  {
    if |s| > 0 {
      var init := s[..|s| - 1];
      SortSeqPermutation(init, before);
      InsertLastMultiset(SortSeq(init, before), s[|s| - 1], before);
      assert s == init + [s[|s| - 1]];
    }
  }

  lemma {:induction false} InsertLastSorted<T(!new)>(t: seq<T>, x: T, before: (T, T) -> bool)
    requires StrictWeakOrder(before)
    requires Sorted(t, before)
    ensures Sorted(InsertLast(t, x, before), before)
  {
    if |t| == 0 {
    } else if !before(x, t[|t| - 1]) {
      var last := t[|t| - 1];
      forall i | 0 <= i < |t| ensures !before(x, t[i]) {
        assert i == |t| - 1 || !before(last, t[i]);
      }
    } else {
      var init, last := t[..|t| - 1], t[|t| - 1];
      InsertLastSorted(init, x, before);
      var u := InsertLast(init, x, before);
      InsertLastMultiset(init, x, before);
      forall k | 0 <= k < |u| ensures !before(last, u[k]) {
        assert u[k] in multiset(init) + multiset{x};
        if u[k] != x {
          var i :| 0 <= i < |init| && init[i] == u[k];
          assert t[i] == u[k];
        }
      }
    }
  }

  /** The sorted sequence is in order: no element comes after one it precedes. */
  lemma {:induction false} SortSeqSorted<T(!new)>(s: seq<T>, before: (T, T) -> bool)
    requires StrictWeakOrder(before)
    ensures Sorted(SortSeq(s, before), before)
  {
    if |s| > 0 {
      SortSeqSorted(s[..|s| - 1], before);
      InsertLastSorted(SortSeq(s[..|s| - 1], before), s[|s| - 1], before);
    }
  }

  /** A comparator that never reports "before" leaves the order as it is. */
  lemma {:induction false} SortSeqNoneBefore<T>(s: seq<T>, before: (T, T) -> bool)
    requires forall a, b :: !before(a, b)
    ensures SortSeq(s, before) == s
  {
    if |s| > 0 {
      SortSeqNoneBefore(s[..|s| - 1], before);
      assert s == s[..|s| - 1] + [s[|s| - 1]];
    }
  }

  /** The complement of a class. */
  function Not<T>(p: T -> bool): T -> bool {
    x => !p(x)
  }

  /**
   * Stability, in the two-class case: when `a` precedes `b` exactly when `a` is
   * in the first class and `b` is not, the first class comes first and each
   * class keeps its original order.
   */
  lemma {:induction false} SortSeqTwoClasses<T>(s: seq<T>, before: (T, T) -> bool, p: T -> bool)
    requires forall a, b :: before(a, b) <==> p(a) && !p(b)
    ensures SortSeq(s, before) == Filter(s, p) + Filter(s, Not(p))
  {
    if |s| > 0 {
      var init, x := s[..|s| - 1], s[|s| - 1];
      SortSeqTwoClasses(init, before, p);
      var f, n := Filter(init, p), Filter(init, Not(p));
      FilterClasses(init, p);
      InsertPastOthers(f, n, x, before, p);
      assert SortSeq(s, before) == InsertLast(f + n, x, before);
      assert Filter(s, p) == f + (if p(x) then [x] else []);
      assert Filter(s, Not(p)) == n + (if Not(p)(x) then [x] else []);
    }
  }

  lemma FilterClasses<T>(s: seq<T>, p: T -> bool)
    ensures forall y :: y in Filter(s, p) ==> p(y)
    ensures forall y :: y in Filter(s, Not(p)) ==> !p(y)
  {
    FilterMembers(s, p);
    var q := Not(p);
    FilterMembers(s, q);
    forall y | y in Filter(s, q) ensures !p(y) {
      assert q(y);
    }
  }

  lemma {:induction false} InsertPastOthers<T>(f: seq<T>, n: seq<T>, x: T, before: (T, T) -> bool, p: T -> bool)
    requires forall a, b :: before(a, b) <==> p(a) && !p(b)
    requires forall y :: y in f ==> p(y)
    requires forall y :: y in n ==> !p(y)
    ensures InsertLast(f + n, x, before) == if p(x) then f + [x] + n else f + n + [x]
    decreases |n|
  {
    if |n| == 0 {
      assert f + n == f;
      if |f| > 0 {
        assert f[|f| - 1] in f;
      }
    } else if p(x) {
      var init := n[..|n| - 1];
      assert (f + n)[..|f + n| - 1] == f + init;
      assert n[|n| - 1] in n;
      InsertPastOthers(f, init, x, before, p);
      assert n == init + [n[|n| - 1]];
    } else {
      assert (f + n)[|f + n| - 1] == n[|n| - 1];
    }
  }
}
