/**
 * The array operations the application composes: `filter`, `flatMap`, and the
 * de-duplication `Array.from(new Set(xs))`, with the facts the rest of the model
 * needs about them.
 */
module Seqs {

  /** The elements of `b` whose `mask` entry is true, in order. */
  function Select<T>(b: seq<T>, mask: seq<bool>): seq<T>
    requires |mask| == |b|
  {
    if |b| == 0 then []
    else Select(b[..|b| - 1], mask[..|b| - 1]) + (if mask[|b| - 1] then [b[|b| - 1]] else [])
  }

  /** `a` is a subsequence of `b`: `b` with some elements dropped, order kept. */
  ghost predicate IsSubseq<T>(a: seq<T>, b: seq<T>) {
    exists mask :: |mask| == |b| && Select(b, mask) == a
  }

  lemma {:induction false} SelectMembers<T>(b: seq<T>, mask: seq<bool>)
    requires |mask| == |b|
    ensures forall x :: x in Select(b, mask) ==> x in b
    ensures |Select(b, mask)| <= |b|
  {
    if |b| > 0 {
      SelectMembers(b[..|b| - 1], mask[..|b| - 1]);
    }
  }

  /** Appending an element to `b` keeps `a` a subsequence, with or without that element. */
  lemma IsSubseqExtend<T>(a: seq<T>, b: seq<T>, x: T, keep: bool)
    requires IsSubseq(a, b)
    ensures IsSubseq(if keep then a + [x] else a, b + [x])
  {
    var mask :| |mask| == |b| && Select(b, mask) == a;
    var mask' := mask + [keep];
    var b' := b + [x];
    assert b'[..|b'| - 1] == b && mask'[..|b'| - 1] == mask;
    assert Select(b', mask') == if keep then a + [x] else a;
  }

  lemma IsSubseqEmpty<T>(b: seq<T>)
    ensures IsSubseq([], b)
  {
    var mask := seq(|b|, i => false);
    SelectNone(b, mask);
  }

  lemma {:induction false} SelectNone<T>(b: seq<T>, mask: seq<bool>)
    requires |mask| == |b| && forall i :: 0 <= i < |mask| ==> !mask[i]
    ensures Select(b, mask) == []
  {
    if |b| > 0 {
      SelectNone(b[..|b| - 1], mask[..|b| - 1]);
    }
  }

  // ---------------------------------------------------------------------
  // map

  /** `s.map(f)`. */
  function Map<A, B>(s: seq<A>, f: A --> B): seq<B>
    requires forall i :: 0 <= i < |s| ==> f.requires(s[i])
  {
    if |s| == 0 then [] else Map(s[..|s| - 1], f) + [f(s[|s| - 1])]
  }

  lemma {:induction false} MapSpec<A, B>(s: seq<A>, f: A --> B)
    requires forall i :: 0 <= i < |s| ==> f.requires(s[i])
    ensures |Map(s, f)| == |s|
    ensures forall i :: 0 <= i < |s| ==> Map(s, f)[i] == f(s[i])
  {
    if |s| > 0 {
      MapSpec(s[..|s| - 1], f);
    }
  }

  // ---------------------------------------------------------------------
  // filter

  /** `s.filter(p)`: the elements satisfying `p`, in their order. */
  function Filter<T>(s: seq<T>, p: T -> bool): seq<T> {
    if |s| == 0 then []
    else Filter(s[..|s| - 1], p) + (if p(s[|s| - 1]) then [s[|s| - 1]] else [])
  }

  /** The members of a filter are the members of the input that pass it. */
  lemma {:induction false} FilterMembers<T>(s: seq<T>, p: T -> bool)
    ensures forall x :: x in Filter(s, p) <==> x in s && p(x)
  {
    if |s| > 0 {
      var init, last := s[..|s| - 1], s[|s| - 1];
      assert s == init + [last];
      FilterMembers(init, p);
    }
  }

  /**
   * What survives a filter: exactly the elements that satisfy it, each as often
   * as it occurs in the input, as a subsequence.
   */
  lemma {:induction false} FilterSpec<T>(s: seq<T>, p: T -> bool)
    ensures forall x :: x in Filter(s, p) <==> x in s && p(x)
    ensures forall x :: multiset(Filter(s, p))[x] == if p(x) then multiset(s)[x] else 0
    ensures IsSubseq(Filter(s, p), s)
    ensures |Filter(s, p)| <= |s|
  {
    if |s| > 0 {
      var init, last := s[..|s| - 1], s[|s| - 1];
      assert s == init + [last];
      FilterSpec(init, p);
      FilterMembers(s, p);
      IsSubseqExtend(Filter(init, p), init, last, p(last));
      assert multiset(s) == multiset(init) + multiset{last};
      assert Filter(s, p) == Filter(init, p) + (if p(last) then [last] else []);
    } else {
      IsSubseqEmpty(s);
    }
  }

  /** The positions of `s` whose element passes `p`. */
  function Positions<T>(s: seq<T>, p: T -> bool): set<int> {
    set i | 0 <= i < |s| && p(s[i])
  }

  /** The length of a filter is the number of positions whose element passes. */
  lemma {:induction false} FilterCount<T>(s: seq<T>, p: T -> bool)
    ensures |Filter(s, p)| == |Positions(s, p)|
  {
    if |s| > 0 {
      var init, n := s[..|s| - 1], |s| - 1;
      FilterCount(init, p);
      var before := Positions(init, p);
      var after := Positions(s, p);
      if p(s[n]) {
        assert after == before + {n};
        assert n !in before;
      } else {
        assert after == before;
      }
    }
  }

  /** A filter never lengthens its input. */
  lemma {:induction false} FilterShorter<T>(s: seq<T>, p: T -> bool)
    ensures |Filter(s, p)| <= |s|
  {
    if |s| > 0 {
      FilterShorter(s[..|s| - 1], p);
    }
  }

  /** The first survivor of a filter is the first element that passes it. */
  lemma {:induction false} FilterFirst<T>(s: seq<T>, p: T -> bool) returns (i: nat)
    requires |Filter(s, p)| > 0
    ensures i < |s| && p(s[i]) && Filter(s, p)[0] == s[i]
    ensures forall k :: 0 <= k < i ==> !p(s[k])
  {
    var init := s[..|s| - 1];
    if |Filter(init, p)| > 0 {
      i := FilterFirst(init, p);
      assert s[i] == init[i];
    } else {
      FilterMembers(init, p);
      i := |s| - 1;
      assert p(s[i]) && Filter(s, p)[0] == s[i];
      forall k | 0 <= k < i ensures !p(s[k]) {
        assert s[k] == init[k] && init[k] in init;
      }
    }
  }

  /** Nothing survives exactly when no element passes. */
  lemma FilterEmptyIff<T>(s: seq<T>, p: T -> bool)
    ensures |Filter(s, p)| == 0 <==> forall i :: 0 <= i < |s| ==> !p(s[i])
  {
    FilterMembers(s, p);
    if |Filter(s, p)| == 0 {
      forall i | 0 <= i < |s| ensures !p(s[i]) {
        assert s[i] !in Filter(s, p);
      }
    } else {
      var i := FilterFirst(s, p);
    }
  }

  /** Everything survives exactly when every element passes. */
  lemma {:induction false} FilterFullIff<T>(s: seq<T>, p: T -> bool)
    ensures |Filter(s, p)| == |s| <==> forall i :: 0 <= i < |s| ==> p(s[i])
  {
    if |s| > 0 {
      var init := s[..|s| - 1];
      FilterFullIff(init, p);
      FilterShorter(init, p);
      if forall i :: 0 <= i < |s| ==> p(s[i]) {
        assert forall i :: 0 <= i < |init| ==> p(init[i]);
      } else if p(s[|s| - 1]) {
        var i :| 0 <= i < |s| && !p(s[i]);
        assert !p(init[i]);
      }
    }
  }

  /** A filter that every element passes changes nothing. */
  lemma {:induction false} FilterAll<T>(s: seq<T>, p: T -> bool)
    requires forall i :: 0 <= i < |s| ==> p(s[i])
    ensures Filter(s, p) == s
  {
    if |s| > 0 {
      FilterAll(s[..|s| - 1], p);
    }
  }

  lemma {:induction false} FilterAppend<T>(a: seq<T>, b: seq<T>, p: T -> bool)
    ensures Filter(a + b, p) == Filter(a, p) + Filter(b, p)
    decreases |b|
  {
    if |b| > 0 {
      assert (a + b)[..|a + b| - 1] == a + b[..|b| - 1];
      FilterAppend(a, b[..|b| - 1], p);
    } else {
      assert a + b == a;
    }
  }

  // ---------------------------------------------------------------------
  // flatMap

  function Flatten<T>(ss: seq<seq<T>>): seq<T> {
    if |ss| == 0 then [] else Flatten(ss[..|ss| - 1]) + ss[|ss| - 1]
  }

  lemma {:induction false} FlattenMembers<T>(ss: seq<seq<T>>)
    ensures forall x :: x in Flatten(ss) <==> exists i :: 0 <= i < |ss| && x in ss[i]
  {
    if |ss| > 0 {
      var init, last := ss[..|ss| - 1], ss[|ss| - 1];
      FlattenMembers(init);
      assert Flatten(ss) == Flatten(init) + last;
      forall x ensures x in Flatten(ss) <==> exists i :: 0 <= i < |ss| && x in ss[i] {
        if x in last {
          assert x in ss[|ss| - 1];
        } else if x in Flatten(init) {
          var i :| 0 <= i < |init| && x in init[i];
          assert x in ss[i];
        } else {
          forall i | 0 <= i < |ss| ensures x !in ss[i] {
            if i < |init| {
              assert ss[i] == init[i];
            }
          }
        }
      }
    }
  }

  // ---------------------------------------------------------------------
  // Array.from(new Set(s))

  predicate NoDuplicates<T(==)>(s: seq<T>) {
    forall i, j :: 0 <= i < j < |s| ==> s[i] != s[j]
  }

  /**
   * `Array.from(new Set(s))`: each distinct element once, in the order of first
   * occurrence (a Set keeps insertion order and ignores repeated insertions).
   */
  function Dedup<T(==)>(s: seq<T>): seq<T> {
    if |s| == 0 then []
    else
      var r := Dedup(s[..|s| - 1]);
      if s[|s| - 1] in r then r else r + [s[|s| - 1]]
  }

  /**
   * `r` lists elements of `s` in the order of their first occurrence in `s`:
   * wherever a later element of `r` occurs in `s`, an earlier one of `r` has
   * already occurred.
   */
  ghost predicate FirstOccurrenceOrder<T>(r: seq<T>, s: seq<T>) {
    forall i, j, k :: 0 <= i < j < |r| && 0 <= k < |s| && s[k] == r[j] ==> r[i] in s[..k]
  }

  /** The de-duplicated sequence holds the same elements, each once, in first-occurrence order. */
  lemma {:induction false} DedupSpec<T>(s: seq<T>)
    ensures forall x :: x in Dedup(s) <==> x in s
    ensures NoDuplicates(Dedup(s))
    ensures FirstOccurrenceOrder(Dedup(s), s)
    ensures IsSubseq(Dedup(s), s)
    ensures |s| > 0 ==> |Dedup(s)| > 0 && Dedup(s)[0] == s[0]
  {
    if |s| > 0 {
      var init, last := s[..|s| - 1], s[|s| - 1];
      assert s == init + [last];
      DedupSpec(init);
      var r := Dedup(init);
      IsSubseqExtend(r, init, last, last !in r);
      DedupOrderStep(init, last, r);
    } else {
      IsSubseqEmpty(s);
    }
  }

  /** Appending one element keeps first-occurrence order: a new element goes last. */
  lemma DedupOrderStep<T>(init: seq<T>, last: T, r: seq<T>)
    requires forall x :: x in r <==> x in init
    requires FirstOccurrenceOrder(r, init)
    ensures FirstOccurrenceOrder(if last in r then r else r + [last], init + [last])
  {
    var s := init + [last];
    var r' := if last in r then r else r + [last];
    forall i, j, k | 0 <= i < j < |r'| && 0 <= k < |s| && s[k] == r'[j] ensures r'[i] in s[..k] {
      if k < |init| {
        assert s[k] == init[k] && s[..k] == init[..k];
        assert r'[j] in r;
        assert j < |r|;
        assert r'[j] == r[j] && r'[i] == r[i];
      } else {
        assert s[..k] == init;
        assert r'[i] == r[i] && r[i] in r;
      }
    }
  }

  /** Exactly one distinct value is left iff the sequence is non-empty and constant. */
  lemma DedupSingleton<T>(s: seq<T>)
    ensures |Dedup(s)| == 1 <==> |s| > 0 && forall i :: 0 <= i < |s| ==> s[i] == s[0]
  {
    DedupSpec(s);
    if |Dedup(s)| == 1 {
      forall i | 0 <= i < |s| ensures s[i] == s[0] {
        assert s[i] in Dedup(s);
      }
    }
    if |s| > 0 && forall i :: 0 <= i < |s| ==> s[i] == s[0] {
      var r := Dedup(s);
      forall k | 0 <= k < |r| ensures r[k] == s[0] {
        assert r[k] in s;
      }
    }
  }
}
