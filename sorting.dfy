/**
  Ascending order on samples, the ascending rearrangement of a sample
  sequence, and the rank-order median both median filters output: the
  element at index `count / 2` of the sorted window (the middle one for odd
  counts, the lower-middle one for even counts).
 */
module Sorting {
  import opened Raster

  predicate Ascending(w: seq<Byte>) {
    forall i, j :: 0 <= i < j < |w| ==> w[i] <= w[j]
  }

  /** `w` with `v` placed before the first element not below it. */
  function Insert(v: Byte, w: seq<Byte>): (r: seq<Byte>)
    ensures |r| == |w| + 1
  {
    if w == [] || v <= w[0] then [v] + w
    else [w[0]] + Insert(v, w[1..])
  }

  /** The ascending rearrangement of `w` (insertion sort). */
  function SortAscending(w: seq<Byte>): (r: seq<Byte>)
    ensures |r| == |w|
  {
    if w == [] then [] else Insert(w[0], SortAscending(w[1..]))
  }

  /** Inserting adds exactly `v` to the multiset of samples. */
  lemma {:induction false} InsertAdds(v: Byte, w: seq<Byte>)
    ensures multiset(Insert(v, w)) == multiset(w) + multiset{v}
    decreases |w|
  {
    if w != [] && w[0] < v {
      InsertAdds(v, w[1..]);
      assert w == [w[0]] + w[1..];
    }
  }

  /** An element no greater than any element of an ascending sequence can head it. */
  lemma AscendingCons(h: Byte, t: seq<Byte>)
    requires Ascending(t)
    requires forall k :: 0 <= k < |t| ==> h <= t[k]
    ensures Ascending([h] + t)
  {
    var r := [h] + t;
    forall i, j | 0 <= i < j < |r|
      ensures r[i] <= r[j]
    {
      assert r[j] == t[j - 1];
      if i > 0 {
        assert r[i] == t[i - 1];
      }
    }
  }

  /** Inserting into an ascending sequence keeps it ascending and adds exactly `v`. */
  lemma {:induction false} InsertAscending(v: Byte, w: seq<Byte>)
    requires Ascending(w)
    ensures Ascending(Insert(v, w))
    ensures multiset(Insert(v, w)) == multiset(w) + multiset{v}
    decreases |w|
  {
    InsertAdds(v, w);
    if w == [] || v <= w[0] {
      if w != [] {
        AscendingTail(w);
      }
      AscendingCons(v, w);
    } else {
      AscendingTail(w);
      InsertAscending(v, w[1..]);
      var t := Insert(v, w[1..]);
      forall k | 0 <= k < |t|
        ensures w[0] <= t[k]
      {
        assert t[k] in multiset(t);
        if t[k] != v {
          assert t[k] in multiset(w[1..]);
        }
      }
      AscendingCons(w[0], t);
    }
  }

  /** `SortAscending(w)` is ascending and a rearrangement of `w`. */
  lemma {:induction false} SortAscendingSorts(w: seq<Byte>)
    ensures Ascending(SortAscending(w))
    ensures multiset(SortAscending(w)) == multiset(w)
    decreases |w|
  {
    if w != [] {
      assert w == [w[0]] + w[1..];
      SortAscendingSorts(w[1..]);
      InsertAscending(w[0], SortAscending(w[1..]));
    }
  }

  lemma AscendingTail(a: seq<Byte>)
    requires Ascending(a) && a != []
    ensures Ascending(a[1..])
    ensures forall k :: 0 <= k < |a| ==> a[0] <= a[k]
  {
  }

  /** An ascending arrangement of a multiset is unique. */
  lemma {:induction false} AscendingUnique(a: seq<Byte>, b: seq<Byte>)
    requires Ascending(a) && Ascending(b) && multiset(a) == multiset(b)
    ensures a == b
    decreases |a|
  {
    assert |a| == |multiset(a)| == |multiset(b)| == |b|;
    if a != [] {
      AscendingTail(a);
      AscendingTail(b);
      assert b[0] in multiset(a);
      var i :| 0 <= i < |a| && a[i] == b[0];
      assert a[0] in multiset(b);
      var j :| 0 <= j < |b| && b[j] == a[0];
      assert a[0] == b[0];
      assert multiset(a) == multiset{a[0]} + multiset(a[1..]) by {
        assert a == [a[0]] + a[1..];
      }
      assert multiset(b) == multiset{b[0]} + multiset(b[1..]) by {
        assert b == [b[0]] + b[1..];
      }
      assert multiset(a[1..]) == multiset(a) - multiset{a[0]};
      assert multiset(b[1..]) == multiset(b) - multiset{b[0]};
      AscendingUnique(a[1..], b[1..]);
      assert a == [a[0]] + a[1..] && b == [b[0]] + b[1..];
    }
  }

  /** Any ascending permutation of `w` is its `SortAscending`. */
  lemma IsSortAscending(a: seq<Byte>, w: seq<Byte>)
    requires Ascending(a) && multiset(a) == multiset(w)
    ensures a == SortAscending(w)
  {
    SortAscendingSorts(w);
    AscendingUnique(a, SortAscending(w));
  }

  /** A lower bound on every element carries over to any rearrangement. */
  lemma RearrangedLowerBound(a: seq<Byte>, b: seq<Byte>, v: int)
    requires multiset(a) == multiset(b)
    requires forall k :: 0 <= k < |b| ==> v <= b[k]
    ensures forall k :: 0 <= k < |a| ==> v <= a[k]
  {
    forall k | 0 <= k < |a|
      ensures v <= a[k]
    {
      assert a[k] in multiset(b);
      var j :| 0 <= j < |b| && b[j] == a[k];
    }
  }

  /** Element `|w| / 2` of the ascending rearrangement of `w`. */
  function MedianOf(w: seq<Byte>): Byte
    requires |w| > 0
  {
    SortAscending(w)[|w| / 2]
  }

  /**
    The median is one of the samples, so it lies between their minimum and
    their maximum.
   */
  lemma MedianIsSample(w: seq<Byte>)
    requires |w| > 0
    ensures MedianOf(w) in multiset(w)
  {
    var r := SortAscending(w);
    SortAscendingSorts(w);
    assert r[|w| / 2] in multiset(r);
  }

  /** The median of samples that all equal `v` is `v`. */
  lemma MedianOfConstant(w: seq<Byte>, v: Byte)
    requires |w| > 0 && forall k :: 0 <= k < |w| ==> w[k] == v
    ensures MedianOf(w) == v
  {
    MedianIsSample(w);
    assert MedianOf(w) in w;
  }
}
