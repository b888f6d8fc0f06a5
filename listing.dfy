/**
 * In-place filtering of a list: `remove_in_place` walks the indices from the
 * last to the first and deletes every element the predicate accepts.
 */
module Listing {

  /**
   * A list object of the source language. Its methods change `items` in
   * place, so every holder of the reference sees the change; this is how the
   * traversal's own listing of subdirectories gets pruned.
   */
  class MutableList<T> {
    var items: seq<T>

    constructor (s: seq<T>)
      ensures items == s
    {
      items := s;
    }

    /** `del x[i]` */
    method Delete(i: nat)
      requires i < |items|
      modifies this
      ensures items == old(items[..i] + items[i + 1..])
    {
      items := items[..i] + items[i + 1..];
    }
  }

  /** The elements of `s` that `func` rejects, in their original order. */
  function Kept<T>(s: seq<T>, func: T -> bool): seq<T>
  {
    if s == [] then []
    else (if func(s[0]) then [] else [s[0]]) + Kept(s[1..], func)
  }

  /** The positions, from `lo` on, of the elements of `s` that `func` rejects. */
  function KeptPositions<T>(s: seq<T>, func: T -> bool, lo: nat): seq<nat>
    requires lo <= |s|
    decreases |s| - lo
  {
    if lo == |s| then []
    else if func(s[lo]) then KeptPositions(s, func, lo + 1)
    else [lo] + KeptPositions(s, func, lo + 1)
  }

  /** Putting `lo` in front of increasing positions above it keeps them increasing. */
  lemma ConsIncreasing(lo: nat, tail: seq<nat>)
    requires forall j :: 0 <= j < |tail| ==> lo < tail[j]
    requires forall j1, j2 :: 0 <= j1 < j2 < |tail| ==> tail[j1] < tail[j2]
    ensures forall j1, j2 :: 0 <= j1 < j2 < |[lo] + tail| ==> ([lo] + tail)[j1] < ([lo] + tail)[j2]
  {
    var idx := [lo] + tail;
    forall j1, j2 | 0 <= j1 < j2 < |idx| ensures idx[j1] < idx[j2] {
      assert idx[j2] == tail[j2 - 1];
      if j1 > 0 {
        assert idx[j1] == tail[j1 - 1];
      }
    }
  }

  /** The positions listed from `lo` on lie in `s[lo..]`, increase, and name rejected elements. */
  lemma {:induction false} PositionsFrom<T>(s: seq<T>, func: T -> bool, lo: nat)
    requires lo <= |s|
    ensures forall j :: 0 <= j < |KeptPositions(s, func, lo)| ==>
              lo <= KeptPositions(s, func, lo)[j] < |s| && !func(s[KeptPositions(s, func, lo)[j]])
    ensures forall j1, j2 :: 0 <= j1 < j2 < |KeptPositions(s, func, lo)| ==>
              KeptPositions(s, func, lo)[j1] < KeptPositions(s, func, lo)[j2]
    decreases |s| - lo
  {
    if lo < |s| {
      PositionsFrom(s, func, lo + 1);
      var tail := KeptPositions(s, func, lo + 1);
      if !func(s[lo]) {
        ConsIncreasing(lo, tail);
        assert KeptPositions(s, func, lo) == [lo] + tail;
      } else {
        assert KeptPositions(s, func, lo) == tail;
      }
    }
  }

  /** Every position from `lo` on whose element `func` rejects is listed. */
  lemma {:induction false} PositionsCover<T>(s: seq<T>, func: T -> bool, lo: nat)
    requires lo <= |s|
    ensures forall k :: lo <= k < |s| && !func(s[k]) ==> k in KeptPositions(s, func, lo)
    decreases |s| - lo
  {
    if lo < |s| {
      PositionsCover(s, func, lo + 1);
    }
  }

  /** `Kept(s[lo..], func)` is the subsequence of `s` at the listed positions. */
  lemma {:induction false} KeptFromSelects<T>(s: seq<T>, func: T -> bool, lo: nat)
    requires lo <= |s|
    ensures var idx := KeptPositions(s, func, lo);
      && |Kept(s[lo..], func)| == |idx|
      && (forall j :: 0 <= j < |idx| ==> idx[j] < |s| && Kept(s[lo..], func)[j] == s[idx[j]])
    decreases |s| - lo
  {
    if lo < |s| {
      KeptFromSelects(s, func, lo + 1);
      PositionsFrom(s, func, lo + 1);
      assert s[lo..][1..] == s[lo + 1..];
    }
  }

  /**
   * The filter keeps exactly the rejected elements in their original relative
   * order: there is an increasing choice of positions of `s` that yields the
   * result, and those positions are precisely the ones `func` rejects.
   */
  lemma KeptIsOrderedSelection<T>(s: seq<T>, func: T -> bool)
    ensures var idx := KeptPositions(s, func, 0);
      && |Kept(s, func)| == |idx|
      && (forall j :: 0 <= j < |idx| ==> idx[j] < |s| && Kept(s, func)[j] == s[idx[j]])
      && (forall j1, j2 :: 0 <= j1 < j2 < |idx| ==> idx[j1] < idx[j2])
      && (forall k :: 0 <= k < |s| ==> (k in idx <==> !func(s[k])))
  {
    KeptFromSelects(s, func, 0);
    PositionsFrom(s, func, 0);
    PositionsCover(s, func, 0);
    assert s[0..] == s;
  }

  /** An element survives the filter exactly when it is in `s` and `func` rejects it. */
  lemma {:induction false} KeptMembers<T>(s: seq<T>, func: T -> bool)
    ensures forall x :: x in Kept(s, func) <==> x in s && !func(x)
  {
    if s != [] {
      KeptMembers(s[1..], func);
      assert s == [s[0]] + s[1..];
    }
  }

  /** Filtering twice is filtering once. */
  lemma {:induction false} KeptIdempotent<T>(s: seq<T>, func: T -> bool)
    ensures Kept(Kept(s, func), func) == Kept(s, func)
  {
    if s != [] {
      KeptIdempotent(s[1..], func);
      KeptAppend(if func(s[0]) then [] else [s[0]], Kept(s[1..], func), func);
    }
  }

  /** The filter distributes over concatenation. */
  lemma {:induction false} KeptAppend<T>(a: seq<T>, b: seq<T>, func: T -> bool)
    ensures Kept(a + b, func) == Kept(a, func) + Kept(b, func)
  {
    if a == [] {
      assert a + b == b;
    } else {
      assert (a + b)[1..] == a[1..] + b;
      KeptAppend(a[1..], b, func);
    }
  }

  /** `remove_in_place(x, func)` */
  method RemoveInPlace<T>(x: MutableList<T>, func: T -> bool)
    modifies x
    ensures x.items == Kept(old(x.items), func)
  {
    ghost var s := x.items;
    var i := |x.items|;
    while i > 0
      invariant 0 <= i <= |s|
      invariant x.items == s[..i] + Kept(s[i..], func)
    {
      i := i - 1;
      assert s[i..][1..] == s[i + 1..];
      assert x.items[i] == s[i];
      if func(x.items[i]) {
        x.Delete(i);
      }
      assert s[..i + 1][..i] == s[..i];
    }
    assert s[0..] == s;
  }
}
