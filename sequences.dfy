/** The array operations the list page uses: filter, slice and the
    insertion-ordered de-duplication done by spreading a Set. */
module Sequences {

  /** `a` can be obtained from `b` by deleting elements, keeping the order of
      the rest (decided greedily from the front). */
  predicate IsSubsequence<T(==)>(a: seq<T>, b: seq<T>)
    decreases |b|
  {
    if a == [] then true
    else if b == [] then false
    else if a[0] == b[0] then IsSubsequence(a[1..], b[1..])
    else IsSubsequence(a, b[1..])
  }

  /** No element occurs twice. */
  predicate Distinct<T(==)>(s: seq<T>)
  {
    forall i, j :: 0 <= i < j < |s| ==> s[i] != s[j]
  }

  /** Array.prototype.filter. */
  function Filter<T>(s: seq<T>, keep: T -> bool): (r: seq<T>)
    ensures |r| <= |s|
  {
    if s == [] then []
    else if keep(s[0]) then [s[0]] + Filter(s[1..], keep)
    else Filter(s[1..], keep)
  }

  /** The filter keeps exactly the elements that pass. */
  lemma {:induction false} FilterMembers<T(!new)>(s: seq<T>, keep: T -> bool)
    ensures forall x :: x in Filter(s, keep) <==> x in s && keep(x)
  {
    if s != [] {
      FilterMembers(s[1..], keep);
      assert s == [s[0]] + s[1..];
    }
  }

  /** The filter keeps every passing element as often as it occurs. */
  lemma {:induction false} FilterCounts<T(!new)>(s: seq<T>, keep: T -> bool)
    ensures forall x :: multiset(Filter(s, keep))[x] == if keep(x) then multiset(s)[x] else 0
  {
    if s != [] {
      FilterCounts(s[1..], keep);
      assert s == [s[0]] + s[1..];
    }
  }

  /** The filter keeps the passing elements in their original order. */
  lemma {:induction false} FilterIsSubsequence<T(!new)>(s: seq<T>, keep: T -> bool)
    ensures IsSubsequence(Filter(s, keep), s)
  {
    if s != [] {
      var rest := Filter(s[1..], keep);
      FilterIsSubsequence(s[1..], keep);
      if keep(s[0]) {
        assert ([s[0]] + rest)[1..] == rest;
      } else {
        FilterMembers(s[1..], keep);
        assert rest != [] ==> rest[0] in rest && rest[0] != s[0];
      }
    }
  }

  /** One step of the filter: the head is kept exactly when it passes. */
  lemma FilterCons<T>(x: T, s: seq<T>, keep: T -> bool)
    ensures Filter([x] + s, keep) == if keep(x) then [x] + Filter(s, keep) else Filter(s, keep)
  {
    assert ([x] + s)[1..] == s;
  }

  /** Filtering with a test every element passes changes nothing. */
  lemma {:induction false} FilterKeepsAll<T>(s: seq<T>, keep: T -> bool)
    requires forall x :: x in s ==> keep(x)
    ensures Filter(s, keep) == s
  {
    if s != [] {
      assert forall x :: x in s[1..] ==> x in s;
      FilterKeepsAll(s[1..], keep);
    }
  }

  /** Where Array.prototype.slice moves a bound `k` on an array of length
      `n`: a negative bound counts from the end, and both are clamped to
      [0, n]. */
  function SliceBound(k: int, n: nat): (i: nat)
    ensures i <= n
    ensures 0 <= k <= n ==> i == k
    ensures k > n ==> i == n
  {
    if k < 0 then (if n + k < 0 then 0 else n + k)
    else if k > n then n
    else k
  }

  /** Array.prototype.slice(start, end): a piece of `s`; exactly s[start..end]
      when both bounds lie in order inside the array, the rest of `s` from
      `start` when `end` is past the end, and nothing when `end` does not
      exceed a non-negative `start`. */
  function Slice<T(==)>(s: seq<T>, start: int, end: int): (r: seq<T>)
    ensures |r| <= |s|
    ensures forall x :: x in r ==> x in s
    ensures 0 <= start <= end <= |s| ==> r == s[start..end]
    ensures 0 <= start <= |s| < end ==> r == s[start..]
    ensures 0 <= end <= start ==> r == []
  {
    var lo, hi := SliceBound(start, |s|), SliceBound(end, |s|);
    if lo < hi then s[lo..hi] else []
  }

  /** `[...new Set(s)]`: the distinct elements of `s`, in the order of their
      first occurrence. */
  function Dedup<T(==,!new)>(s: seq<T>): (r: seq<T>)
    ensures forall x :: x in r <==> x in s
    ensures Distinct(r)
  {
    if s == [] then []
    else
      var init, last := Dedup(s[..|s| - 1]), s[|s| - 1];
      assert s == s[..|s| - 1] + [last];
      if last in init then init else init + [last]
  }
}
