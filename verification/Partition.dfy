/** The three-way partition of the introsort: strictly less, equivalent, strictly greater. */
module Partition {
  import opened Filters
  import opened Orders
  import opened Sampling
  import opened Segments

  /** Where the scan stands around pivot value `p`: [l, pf) less, [pf, pl) equivalent, [pl, f) greater;
      [first, l) and [f, last) are still unscanned. */
  ghost predicate Scanned<T>(less: (T, T) -> bool, s: seq<T>, p: T,
      first: int, l: int, pf: int, pl: int, f: int, last: int) {
    && 0 <= first <= l <= pf < pl <= f <= last <= |s|
    && (forall k :: l <= k < pf ==> less(s[k], p))
    && (forall k :: pf <= k < pl ==> Equivalent(less, s[k], p))
    && (forall k :: pl <= k < f ==> less(p, s[k]))
  }

  /** The finished partition of [first, last) around the nonempty block [pf, pl). */
  ghost predicate Partitioned<T>(less: (T, T) -> bool, s: seq<T>, first: int, pf: int, pl: int, last: int) {
    && 0 <= first <= pf < pl <= last <= |s|
    && (forall k, m :: first <= k < pf <= m < pl ==> less(s[k], s[m]))
    && (forall k, m :: pf <= k < pl && pf <= m < pl ==> Equivalent(less, s[k], s[m]))
    && (forall k, m :: pf <= k < pl <= m < last ==> less(s[k], s[m]))
  }

  lemma ScanComplete<T(!new)>(less: (T, T) -> bool, s: seq<T>, p: T, first: int, pf: int, pl: int, last: int)
    requires StrictWeakOrder(less) && Scanned(less, s, p, first, first, pf, pl, last, last)
    ensures Partitioned(less, s, first, pf, pl, last)
  {
    forall k, m | first <= k < last && pf <= m < pl
      ensures less(s[k], p) == less(s[k], s[m]) && less(p, s[k]) == less(s[m], s[k])
    {
      EquivalentAlike(less, p, s[m], s[k]);
    }
  }

  /** A partitioned range is in order across its block, and the block is sorted. */
  lemma PartitionedCrosses<T(!new)>(less: (T, T) -> bool, s: seq<T>, first: int, pf: int, pl: int, last: int)
    requires StrictWeakOrder(less) && Partitioned(less, s, first, pf, pl, last)
    ensures Crossed(less, s, first, pf, last) && Crossed(less, s, pf, pl, last) && SortedBy(less, s, pf, pl)
  {
    forall k, m | first <= k < pl && pf <= m < last && (k < pf || pl <= m)
      ensures Leq(less, s[k], s[m])
    {
      if k >= pf || m < pl {
        LessIsLeq(less, s[k], s[m]);
      } else {
        LessIsLeq(less, s[k], s[pf]);
        LessIsLeq(less, s[pf], s[m]);
        LeqTransitive(less, s[k], s[pf], s[m]);
      }
    }
  }

  // ---- the moves of the scan, on sequences ----

  /** Compared through the current first block element, an element compares as with the pivot. */
  lemma PivotStandsFor<T(!new)>(less: (T, T) -> bool, s: seq<T>, p: T,
      first: int, l: int, pf: int, pl: int, f: int, last: int, x: T)
    requires StrictWeakOrder(less) && Scanned(less, s, p, first, l, pf, pl, f, last)
    ensures less(s[pf], x) == less(p, x) && less(x, s[pf]) == less(x, p)
  {
    EquivalentAlike(less, p, s[pf], x);
  }

  lemma ScannedBounds<T>(less: (T, T) -> bool, s: seq<T>, p: T,
      first: int, l: int, pf: int, pl: int, f: int, last: int)
    requires Scanned(less, s, p, first, l, pf, pl, f, last)
    ensures 0 <= first <= l <= pf < pl <= f <= last <= |s|
  {
  }

  lemma PassLeft<T>(less: (T, T) -> bool, s: seq<T>, p: T, first: int, l: int, pf: int, pl: int, f: int, last: int)
    requires Scanned(less, s, p, first, l, pf, pl, f, last) && first < l && less(s[l - 1], p)
    ensures Scanned(less, s, p, first, l - 1, pf, pl, f, last)
  {
  }

  lemma PassRight<T>(less: (T, T) -> bool, s: seq<T>, p: T, first: int, l: int, pf: int, pl: int, f: int, last: int)
    requires Scanned(less, s, p, first, l, pf, pl, f, last) && f < last && less(p, s[f])
    ensures Scanned(less, s, p, first, l, pf, pl, f + 1, last)
  {
  }

  lemma JoinRight<T>(less: (T, T) -> bool, s: seq<T>, p: T, first: int, l: int, pf: int, pl: int, f: int, last: int)
    requires Scanned(less, s, p, first, l, pf, pl, f, last) && f < last && Equivalent(less, s[f], p)
    ensures Scanned(less, Swapped(s, pl, f), p, first, l, pf, pl + 1, f + 1, last)
    ensures Rearranged(s, Swapped(s, pl, f), first, last)
  {
    hide Rearranged;
    SwapRearranges(s, pl, f, first, last);
  }

  lemma JoinLeft<T>(less: (T, T) -> bool, s: seq<T>, p: T, first: int, l: int, pf: int, pl: int, f: int, last: int)
    requires Scanned(less, s, p, first, l, pf, pl, f, last) && first < l && Equivalent(less, s[l - 1], p)
    ensures Scanned(less, Swapped(s, pf - 1, l - 1), p, first, l - 1, pf - 1, pl, f, last)
    ensures Rearranged(s, Swapped(s, pf - 1, l - 1), first, last)
    ensures f < last ==> Swapped(s, pf - 1, l - 1)[f] == s[f]
  {
    hide Rearranged;
    SwapRearranges(s, pf - 1, l - 1, first, last);
  }

  /** No room on the left: the block rotates one step right, and the small element at `f` takes its place. */
  function RotatedRight<T>(s: seq<T>, pf: nat, pl: nat, f: nat): seq<T>
    requires pf < pl <= f < |s|
  {
    Swapped(if pl != f then Swapped(s, pf, pl) else s, pf, f)
  }

  /** No room on the right: the mirror image. */
  function RotatedLeft<T>(s: seq<T>, l: nat, pf: nat, pl: nat): seq<T>
    requires 0 < l <= pf < pl <= |s|
  {
    Swapped(Swapped(s, l - 1, pf - 1), pf - 1, pl - 1)
  }

  lemma RotateRight<T>(less: (T, T) -> bool, s: seq<T>, p: T, first: int, pf: int, pl: int, f: int, last: int)
    requires Scanned(less, s, p, first, first, pf, pl, f, last) && f < last && less(s[f], p)
    ensures Scanned(less, RotatedRight(s, pf, pl, f), p, first, first, pf + 1, pl + 1, f + 1, last)
  {
    var t := RotatedRight(s, pf, pl, f);
    assert t[pf] == s[f] && t[f] == (if pl == f then s[pf] else s[pl]);
    assert pl < f ==> t[pl] == s[pf];
    assert forall k | 0 <= k < |s| && k != pf && k != pl && k != f :: t[k] == s[k];
  }

  lemma RotateLeft<T>(less: (T, T) -> bool, s: seq<T>, p: T, first: int, l: int, pf: int, pl: int, last: int)
    requires Scanned(less, s, p, first, l, pf, pl, last, last) && first < l && less(p, s[l - 1])
    ensures Scanned(less, RotatedLeft(s, l, pf, pl), p, first, l - 1, pf - 1, pl - 1, last, last)
  {
    var t := RotatedLeft(s, l, pf, pl);
    assert t[pl - 1] == s[l - 1] && t[pf - 1] == s[pl - 1];
    assert l < pf ==> t[l - 1] == s[pf - 1];
    assert forall k | 0 <= k < |s| && k != l - 1 && k != pf - 1 && k != pl - 1 :: t[k] == s[k];
  }

  lemma RotationRearranges<T>(s: seq<T>, first: int, l: int, pf: int, pl: int, f: int, last: int)
    requires 0 <= first <= l <= pf < pl <= f <= last <= |s|
    ensures f < last ==> Rearranged(s, RotatedRight(s, pf, pl, f), first, last)
    ensures first < l ==> Rearranged(s, RotatedLeft(s, l, pf, pl), first, last)
  {
    hide Rearranged;
    if f < last {
      SwapTwiceRearranges(s, pf, if pl != f then pl else pf, pf, f, first, last);
      SwappedSelf(s, pf);
    }
    if first < l {
      SwapTwiceRearranges(s, l - 1, pf - 1, pf - 1, pl - 1, first, last);
    }
  }

  lemma Exchange<T>(less: (T, T) -> bool, s: seq<T>, p: T, first: int, l: int, pf: int, pl: int, f: int, last: int)
    requires Scanned(less, s, p, first, l, pf, pl, f, last)
    requires f < last && less(s[f], p) && first < l && less(p, s[l - 1])
    ensures Scanned(less, Swapped(s, f, l - 1), p, first, l - 1, pf, pl, f + 1, last)
    ensures Rearranged(s, Swapped(s, f, l - 1), first, last)
  {
    hide Rearranged;
    SwapRearranges(s, f, l - 1, first, last);
  }

  // ---- what keeps the greater elements in their order ----

  /** The elements of [first, last) greater than the pivot are the same ones in the same order. */
  ghost predicate Kept<T>(less: (T, T) -> bool, p: T, s: seq<T>, t: seq<T>, first: int, last: int) {
    && 0 <= first <= last <= |s| == |t|
    && Filter(GreaterThan(less, p), s[first..last]) == Filter(GreaterThan(less, p), t[first..last])
  }

  lemma KeptReflexive<T>(less: (T, T) -> bool, p: T, s: seq<T>, first: int, last: int)
    requires 0 <= first <= last <= |s|
    ensures Kept(less, p, s, s, first, last)
  {
  }

  lemma KeptTransitive<T>(less: (T, T) -> bool, p: T, s: seq<T>, t: seq<T>, u: seq<T>, first: int, last: int)
    requires Kept(less, p, s, t, first, last) && Kept(less, p, t, u, first, last)
    ensures Kept(less, p, s, u, first, last)
  {
  }

  lemma KeptJoinLeft<T(!new)>(less: (T, T) -> bool, s: seq<T>, p: T, first: int, l: int, pf: int, pl: int, f: int,
      last: int)
    requires Scanned(less, s, p, first, l, pf, pl, f, last) && first < l && Equivalent(less, s[l - 1], p)
    requires StrictWeakOrder(less)
    ensures Kept(less, p, s, Swapped(s, pf - 1, l - 1), first, last)
  {
    var t := Swapped(s, pf - 1, l - 1);
    if l < pf {
      LessIsLeq(less, s[pf - 1], p);
    }
    FilterSame(GreaterThan(less, p), s[first..last], t[first..last]);
  }

  lemma KeptRotateLeft<T(!new)>(less: (T, T) -> bool, s: seq<T>, p: T, first: int, l: int, pf: int, pl: int, last: int)
    requires StrictWeakOrder(less)
    requires Scanned(less, s, p, first, l, pf, pl, last, last) && first < l && less(p, s[l - 1])
    ensures Kept(less, p, s, RotatedLeft(s, l, pf, pl), first, last)
  {
    hide Filter, Scanned, StrictWeakOrder, RotatedLeft;
    var g := GreaterThan(less, p);
    ScannedBounds(less, s, p, first, l, pf, pl, last, last);
    FilterOfScanned(less, s, p, first, l, pf, pl, last);
    FilterEndingIn(g, s, first, l);
    FilterOfRotated(less, s, p, first, l, pf, pl, last);
    Associate(Filter(g, s[first..l - 1]), [s[l - 1]], s[pl..last]);
  }

  lemma FilterEndingIn<T>(f: T -> bool, s: seq<T>, first: int, l: int)
    requires 0 <= first < l <= |s| && f(s[l - 1])
    ensures Filter(f, s[first..l]) == Filter(f, s[first..l - 1]) + [s[l - 1]]
  {
    assert s[first..l] == s[first..l - 1] + [s[l - 1]];
    FilterConcat(f, s[first..l - 1], [s[l - 1]]);
    FilterOne(f, s[l - 1]);
  }

  lemma FilterOfRotated<T(!new)>(less: (T, T) -> bool, s: seq<T>, p: T, first: int, l: int, pf: int, pl: int, last: int)
    requires StrictWeakOrder(less)
    requires Scanned(less, s, p, first, l, pf, pl, last, last) && first < l && less(p, s[l - 1])
    ensures 0 <= first <= last <= |s| == |RotatedLeft(s, l, pf, pl)|
    ensures Filter(GreaterThan(less, p), RotatedLeft(s, l, pf, pl)[first..last])
        == Filter(GreaterThan(less, p), s[first..l - 1]) + ([s[l - 1]] + s[pl..last])
  {
    var t := RotatedLeft(s, l, pf, pl);
    RotateLeft(less, s, p, first, l, pf, pl, last);
    RotatedParts(s, first, l, pf, pl, last);
    hide Filter, StrictWeakOrder;
    FilterOfScanned(less, t, p, first, l - 1, pf - 1, pl - 1, last);
  }

  lemma RotatedParts<T>(s: seq<T>, first: int, l: int, pf: int, pl: int, last: int)
    requires 0 <= first < l <= pf < pl <= last <= |s|
    ensures var t := RotatedLeft(s, l, pf, pl);
            && s[first..l] == s[first..l - 1] + [s[l - 1]] && t[first..l - 1] == s[first..l - 1]
            && t[pl - 1..last] == [s[l - 1]] + s[pl..last]
  {
    var t := RotatedLeft(s, l, pf, pl);
    assert t[pl - 1] == s[l - 1];
  }

  /** With the right side scanned, the greater elements are those still unscanned on the left and those behind
      the block. */
  lemma FilterOfScanned<T(!new)>(less: (T, T) -> bool, s: seq<T>, p: T, first: int, l: int, pf: int, pl: int, last: int)
    requires StrictWeakOrder(less) && Scanned(less, s, p, first, l, pf, pl, last, last)
    ensures Filter(GreaterThan(less, p), s[first..last]) == Filter(GreaterThan(less, p), s[first..l]) + s[pl..last]
  {
    var g := GreaterThan(less, p);
    NoneGreater(less, s, p, first, l, pf, pl, last);
    FilterNone(g, s[l..pl]);
    FilterAll(g, s[pl..last]);
    hide *;
    SliceInThree(s, first, l, pl, last);
    FilterConcat(g, s[first..l] + s[l..pl], s[pl..last]);
    FilterConcat(g, s[first..l], s[l..pl]);
  }

  lemma NoneGreater<T(!new)>(less: (T, T) -> bool, s: seq<T>, p: T, first: int, l: int, pf: int, pl: int, last: int)
    requires StrictWeakOrder(less) && Scanned(less, s, p, first, l, pf, pl, last, last)
    ensures forall k :: 0 <= k < pl - l ==> !less(p, s[l..pl][k])
  {
    forall k | 0 <= k < pl - l
      ensures !less(p, s[l..pl][k])
    {
      if l + k < pf {
        LessIsLeq(less, s[l + k], p);
      }
    }
  }

  /** What the rank of the pivot means for the two sides. */
  lemma SidesBounded<T(!new)>(less: (T, T) -> bool, t: seq<T>, u: seq<T>, p: T, first: int, pf: int, pl: int, last: int,
      low: seq<int>, high: seq<int>)
    requires StrictWeakOrder(less) && Rearranged(t, u, first, last)
    requires Scanned(less, u, p, first, first, pf, pl, last, last) && Ascending(low) && Ascending(high)
    requires forall i :: 0 <= i < |low| ==> first <= low[i] < last && Leq(less, t[low[i]], p)
    requires forall i :: 0 <= i < |high| ==> first <= high[i] < last && Leq(less, p, t[high[i]])
    ensures pl - first >= |low| && last - pf >= |high|
  {
    ScannedBounds(less, u, p, first, first, pf, pl, last, last);
    MissedInRange(GreaterThan(less, p), t, u, first, last, low);
    FilterOfScanned(less, u, p, first, first, pf, pl, last);
    assert u[first..first] == [];
    MissedInRange(LessThan(less, p), t, u, first, last, high);
    LeftIsLess(less, u, p, first, pf, pl, last);
  }

  lemma MissedInRange<T>(f: T -> bool, t: seq<T>, u: seq<T>, first: int, last: int, places: seq<int>)
    requires Rearranged(t, u, first, last) && Ascending(places)
    requires forall i :: 0 <= i < |places| ==> first <= places[i] < last && !f(t[places[i]])
    ensures |Filter(f, u[first..last])| + |places| <= last - first
  {
    FilterMisses(f, t[first..last], seq(|places|, i requires 0 <= i < |places| => places[i] - first));
    FilterSize(f, t[first..last], u[first..last]);
  }

  lemma LeftIsLess<T(!new)>(less: (T, T) -> bool, u: seq<T>, p: T, first: int, pf: int, pl: int, last: int)
    requires Scanned(less, u, p, first, first, pf, pl, last, last)
    ensures |Filter(LessThan(less, p), u[first..last])| >= pf - first
  {
    assert u[first..last] == u[first..pf] + u[pf..last];
    FilterConcat(LessThan(less, p), u[first..pf], u[pf..last]);
    FilterAll(LessThan(less, p), u[first..pf]);
  }

  // ---- the kernel ----

  method SwapUnlessSame<T>(a: array<T>, i: nat, j: nat)
    requires i < a.Length && j < a.Length
    modifies a
    ensures a[..] == Swapped(old(a[..]), i, j)
  {
    if i != j {
      Swap(a, i, j);
    }
  }

  /** Lines 622-632: the block of equivalents around the middle element. */
  method GrowBlock<T(!new)>(a: array<T>, first: nat, mid: nat, last: nat, less: (T, T) -> bool)
    returns (partFirst: nat, partLast: nat)
    requires StrictWeakOrder(less) && first <= mid < last <= a.Length
    ensures first <= partFirst <= mid < partLast <= last
    ensures Scanned(less, a[..], a[mid], first, partFirst, partFirst, partLast, partLast, last)
    ensures first < partFirst ==> !Equivalent(less, a[partFirst - 1], a[mid])
    ensures partLast < last ==> !Equivalent(less, a[partLast], a[mid])
  {
    partFirst, partLast := mid, mid + 1;
    LeqReflexive(less, a[mid]);
    while first < partFirst && !less(a[partFirst - 1], a[partFirst]) && !less(a[partFirst], a[partFirst - 1])
      invariant first <= partFirst <= mid
      invariant forall k :: partFirst <= k < partLast ==> Equivalent(less, a[k], a[mid])
    {
      EquivalentAlike(less, a[mid], a[partFirst], a[partFirst - 1]);
      partFirst := partFirst - 1;
    }
    if first < partFirst {
      EquivalentAlike(less, a[mid], a[partFirst], a[partFirst - 1]);
    }
    while partLast < last && !less(a[partLast], a[partFirst]) && !less(a[partFirst], a[partLast])
      invariant mid < partLast <= last
      invariant forall k :: partFirst <= k < partLast ==> Equivalent(less, a[k], a[mid])
    {
      EquivalentAlike(less, a[mid], a[partFirst], a[partLast]);
      partLast := partLast + 1;
    }
    if partLast < last {
      EquivalentAlike(less, a[mid], a[partFirst], a[partLast]);
    }
  }

  /** Lines 639-653: scans right to the first element less than the pivot. */
  method ScanRight<T(!new)>(a: array<T>, ghost p: T, first: nat, l: nat, partFirst: nat, pl0: nat, f0: nat, last: nat,
      less: (T, T) -> bool) returns (partLast: nat, f: nat)
    requires StrictWeakOrder(less) && last <= a.Length
    requires Scanned(less, a[..], p, first, l, partFirst, pl0, f0, last)
    modifies a
    ensures Scanned(less, a[..], p, first, l, partFirst, partLast, f, last)
    ensures Rearranged(old(a[..]), a[..], first, last)
    ensures f0 <= f && (f < last ==> less(a[..][f], p))
    ensures (forall k :: f0 <= k < last ==> less(p, old(a[..])[k])) ==>
        a[..] == old(a[..]) && f == last && partLast == pl0
  {
    hide Rearranged, Scanned, Swapped;
    partLast, f := pl0, f0;
    ghost var s0 := a[..];
    ghost var clear := forall k :: f0 <= k < last ==> less(p, s0[k]);
    ScannedBounds(less, s0, p, first, l, partFirst, partLast, f, last);
    RearrangedReflexive(s0, first, last);
    while f < last
      invariant f0 <= f <= last
      invariant Scanned(less, a[..], p, first, l, partFirst, partLast, f, last)
      invariant Rearranged(s0, a[..], first, last)
      invariant clear ==> a[..] == s0 && partLast == pl0
    {
      ghost var s := a[..];
      ScannedBounds(less, s, p, first, l, partFirst, partLast, f, last);
      PivotStandsFor(less, s, p, first, l, partFirst, partLast, f, last, s[f]);
      if !less(a[partFirst], a[f]) {
        if less(a[f], a[partFirst]) {
          break;
        }
        JoinRight(less, s, p, first, l, partFirst, partLast, f, last);
        SwapUnlessSame(a, partLast, f);
        RearrangedTransitive(s0, s, a[..], first, last);
        partLast := partLast + 1;
      } else {
        PassRight(less, s, p, first, l, partFirst, partLast, f, last);
      }
      f := f + 1;
    }
  }

  /** Lines 655-668: scans left to the first element greater than the pivot. */
  method ScanLeft<T(!new)>(a: array<T>, ghost p: T, first: nat, l0: nat, pf0: nat, partLast: nat, f: nat, last: nat,
      less: (T, T) -> bool) returns (partFirst: nat, l: nat)
    requires StrictWeakOrder(less) && last <= a.Length
    requires Scanned(less, a[..], p, first, l0, pf0, partLast, f, last)
    modifies a
    ensures Scanned(less, a[..], p, first, l, partFirst, partLast, f, last)
    ensures Rearranged(old(a[..]), a[..], first, last)
    ensures f < last ==> a[..][f] == old(a[..])[f]
    ensures l <= l0 && (first < l ==> less(p, a[..][l - 1]))
    ensures Kept(less, p, old(a[..]), a[..], first, last)
    ensures (forall k :: first <= k < l0 ==> less(old(a[..])[k], p)) ==>
        a[..] == old(a[..]) && l == first && partFirst == pf0
  {
    hide Rearranged, Scanned, Swapped, Kept, StrictWeakOrder;
    partFirst, l := pf0, l0;
    ghost var s0 := a[..];
    ScannedBounds(less, s0, p, first, l, partFirst, partLast, f, last);
    ghost var clear := forall k :: first <= k < l0 ==> less(s0[k], p);
    RearrangedReflexive(s0, first, last);
    KeptReflexive(less, p, s0, first, last);
    while first < l
      invariant first <= l <= l0
      invariant Scanned(less, a[..], p, first, l, partFirst, partLast, f, last)
      invariant Rearranged(s0, a[..], first, last)
      invariant f < last ==> a[..][f] == s0[f]
      invariant Kept(less, p, s0, a[..], first, last)
      invariant clear ==> a[..] == s0 && partFirst == pf0
    {
      ghost var s := a[..];
      ScannedBounds(less, s, p, first, l, partFirst, partLast, f, last);
      PivotStandsFor(less, s, p, first, l, partFirst, partLast, f, last, s[l - 1]);
      if clear {
        LessIsLeq(less, s[l - 1], p);
      }
      if !less(a[l - 1], a[partFirst]) {
        if less(a[partFirst], a[l - 1]) {
          break;
        }
        JoinLeft(less, s, p, first, l, partFirst, partLast, f, last);
        KeptJoinLeft(less, s, p, first, l, partFirst, partLast, f, last);
        partFirst := partFirst - 1;
        SwapUnlessSame(a, partFirst, l - 1);
        RearrangedTransitive(s0, s, a[..], first, last);
        KeptTransitive(less, p, s0, s, a[..], first, last);
      } else {
        PassLeft(less, s, p, first, l, partFirst, partLast, f, last);
      }
      l := l - 1;
    }
  }

  /** Lines 675-698: both scans have stopped, and at least one of them at a misplaced element. */
  method PlaceMisplaced<T(!new)>(a: array<T>, ghost p: T, first: nat, l0: nat, pf0: nat, pl0: nat, f0: nat, last: nat,
      less: (T, T) -> bool) returns (l: nat, partFirst: nat, partLast: nat, f: nat)
    requires StrictWeakOrder(less) && last <= a.Length
    requires Scanned(less, a[..], p, first, l0, pf0, pl0, f0, last)
    requires (f0 < last ==> less(a[..][f0], p)) && (first < l0 ==> less(p, a[..][l0 - 1]))
    requires first < l0 || f0 < last
    modifies a
    ensures Scanned(less, a[..], p, first, l, partFirst, partLast, f, last)
    ensures Rearranged(old(a[..]), a[..], first, last)
    ensures l <= l0 && f0 <= f && (last - f) + (l - first) < (last - f0) + (l0 - first)
    ensures f0 == last ==> f == last && Kept(less, p, old(a[..]), a[..], first, last)
  {
    hide Rearranged, Scanned, Kept;
    l, partFirst, partLast, f := l0, pf0, pl0, f0;
    ghost var s := a[..];
    ScannedBounds(less, s, p, first, l, partFirst, partLast, f, last);
    RotationRearranges(s, first, l, partFirst, partLast, f, last);
    if l == first {
      RotateRight(less, s, p, first, partFirst, partLast, f, last);
      if partLast != f {
        Swap(a, partFirst, partLast);
      }
      partLast := partLast + 1;
      Swap(a, partFirst, f);
      partFirst := partFirst + 1;
      f := f + 1;
    } else if f == last {
      RotateLeft(less, s, p, first, l, partFirst, partLast, last);
      KeptRotateLeft(less, s, p, first, l, partFirst, partLast, last);
      l, partFirst := l - 1, partFirst - 1;
      SwapUnlessSame(a, l, partFirst);
      partLast := partLast - 1;
      Swap(a, partFirst, partLast);
    } else {
      Exchange(less, s, p, first, l, partFirst, partLast, f, last);
      l := l - 1;
      Swap(a, f, l);
      f := f + 1;
    }
  }

  /** Nothing outside the block is on the wrong side. */
  ghost predicate InPlace<T>(less: (T, T) -> bool, s: seq<T>, p: T, first: int, pf: int, pl: int, last: int) {
    && 0 <= first <= pf < pl <= last <= |s|
    && (forall k :: first <= k < pf ==> less(s[k], p)) && (forall k :: pl <= k < last ==> less(p, s[k]))
  }

  /** Lines 634-699: scans and places misplaced elements until nothing is unscanned. */
  method Sweep<T(!new)>(a: array<T>, ghost p: T, first: nat, pf0: nat, pl0: nat, last: nat, less: (T, T) -> bool)
    returns (partFirst: nat, partLast: nat)
    requires StrictWeakOrder(less) && last <= a.Length
    requires Scanned(less, a[..], p, first, pf0, pf0, pl0, pl0, last)
    modifies a
    ensures Scanned(less, a[..], p, first, first, partFirst, partLast, last, last)
    ensures Rearranged(old(a[..]), a[..], first, last)
    ensures (forall k :: pl0 <= k < last ==> less(p, old(a[..])[k])) ==> Kept(less, p, old(a[..]), a[..], first, last)
    ensures InPlace(less, old(a[..]), p, first, pf0, pl0, last) ==>
        a[..] == old(a[..]) && partFirst == pf0 && partLast == pl0
  {
    hide Rearranged, Scanned, Kept;
    partFirst, partLast := pf0, pl0;
    var f, l := partLast, partFirst;
    ghost var s0 := a[..];
    ghost var clear := forall k :: pl0 <= k < last ==> less(p, s0[k]);
    ScannedBounds(less, s0, p, first, l, partFirst, partLast, f, last);
    RearrangedReflexive(s0, first, last);
    KeptReflexive(less, p, s0, first, last);
    while true
      invariant first <= l && f <= last
      invariant Scanned(less, a[..], p, first, l, partFirst, partLast, f, last)
      invariant Rearranged(s0, a[..], first, last)
      invariant clear ==> Kept(less, p, s0, a[..], first, last) && forall k :: f <= k < last ==> less(p, a[..][k])
      invariant InPlace(less, s0, p, first, pf0, pl0, last) ==>
          a[..] == s0 && f == partLast == pl0 && l == partFirst == pf0
      decreases (last - f) + (l - first)
    {
      ghost var s := a[..];
      partLast, f := ScanRight(a, p, first, l, partFirst, partLast, f, last, less);
      ghost var t := a[..];
      partFirst, l := ScanLeft(a, p, first, l, partFirst, partLast, f, last, less);
      ghost var u := a[..];
      Onward(less, p, s0, s, t, u, first, last, clear);
      ScannedBounds(less, u, p, first, l, partFirst, partLast, f, last);
      if l == first && f == last {
        break;
      }
      l, partFirst, partLast, f := PlaceMisplaced(a, p, first, l, partFirst, partLast, f, last, less);
      Onward(less, p, s0, u, u, a[..], first, last, clear);
      ScannedBounds(less, a[..], p, first, l, partFirst, partLast, f, last);
    }
  }

  /** A sorted range is left as it is, with its middle in the block. */
  ghost predicate SortedStays<T>(less: (T, T) -> bool, s: seq<T>, t: seq<T>, first: int, pf: int, pl: int, last: int) {
    SortedBy(less, s, first, last) ==> t == s && pf <= first + (last - first) / 2 < pl
  }

  /** In a sorted range nothing outside the grown block is misplaced. */
  lemma SortedInPlace<T(!new)>(less: (T, T) -> bool, s: seq<T>, first: nat, pf: nat, mid: nat, pl: nat, last: nat)
    requires StrictWeakOrder(less) && first <= pf <= mid < pl <= last <= |s| && SortedBy(less, s, first, last)
    requires first < pf ==> !Equivalent(less, s[pf - 1], s[mid])
    requires pl < last ==> !Equivalent(less, s[pl], s[mid])
    ensures InPlace(less, s, s[mid], first, pf, pl, last)
  {
    forall k | first <= k < pf
      ensures less(s[k], s[mid])
    {
      assert Leq(less, s[pf - 1], s[mid]) && (k < pf - 1 ==> Leq(less, s[k], s[pf - 1]));
      assert Triple(s[pf - 1], s[mid], s[k]);
    }
    forall k | pl <= k < last
      ensures less(s[mid], s[k])
    {
      assert Leq(less, s[mid], s[pl]) && (pl < k ==> Leq(less, s[pl], s[k]));
      assert Triple(s[mid], s[pl], s[k]);
    }
  }

  /** Partitions [first, last) into strictly less, equivalent and strictly greater elements. The pivot's rank
      bounds both sides; when the samples are in order and nothing right of the middle is misplaced, the greater
      elements keep their order; and a sorted range stays as it is. */
  method Partition3<T(!new)>(a: array<T>, first: nat, last: nat, less: (T, T) -> bool)
    returns (partFirst: nat, partLast: nat)
    requires StrictWeakOrder(less) && first < last <= a.Length
    modifies a
    ensures Partitioned(less, a[..], first, partFirst, partLast, last)
    ensures Rearranged(old(a[..]), a[..], first, last)
    ensures partLast - first >= Margin(last - first) && last - partFirst >= Margin(last - first)
    ensures Calm(less, old(a[..])[first..last]) ==> InPlaceOrder(less, old(a[..])[first..last], a[..], partLast, last)
    ensures SortedStays(less, old(a[..]), a[..], first, partFirst, partLast, last)
  {
    hide Rearranged, Partitioned, Scanned, Kept, Calm, Sampled, Margin, InPlace, SortedBy, StrictWeakOrder;
    var mid := first + (last - first) / 2;
    ghost var s0 := a[..];
    SampledRearranges(less, s0, first, last);
    ghost var low, high := SampledRank(less, s0, first, last);
    SamplePivot(a, first, mid, last, less);
    ghost var s1, p := a[..], a[mid];
    partFirst, partLast := GrowBlock(a, first, mid, last, less);
    if SortedBy(less, s0, first, last) {
      SortedSampling(less, s0, first, last);
      SortedInPlace(less, s0, first, partFirst, mid, partLast, last);
    }
    partFirst, partLast := Sweep(a, p, first, partFirst, partLast, last, less);
    ScanComplete(less, a[..], p, first, partFirst, partLast, last);
    SidesBounded(less, s1, a[..], p, first, partFirst, partLast, last, low, high);
    RearrangedTransitive(s0, s1, a[..], first, last);
    if Calm(less, s0[first..last]) {
      CalmSampling(less, s0, first, last);
      CalmClear(less, s0, first, last);
      CalmConcludes(less, s0, a[..], first, partFirst, partLast, last);
    }
  }

  lemma CalmConcludes<T(!new)>(less: (T, T) -> bool, s: seq<T>, t: seq<T>, first: nat, pf: int, pl: int, last: nat)
    requires StrictWeakOrder(less) && first < last <= |s|
    requires var p := s[first + (last - first) / 2];
             Kept(less, p, s, t, first, last) && Scanned(less, t, p, first, first, pf, pl, last, last)
    ensures InPlaceOrder(less, s[first..last], t, pl, last)
  {
    FilterOfScanned(less, t, s[first + (last - first) / 2], first, first, pf, pl, last);
  }

  /** Two more steps of the loop. */
  lemma Onward<T>(less: (T, T) -> bool, p: T, s1: seq<T>, s: seq<T>, t: seq<T>, u: seq<T>, first: int, last: int,
      clear: bool)
    requires Rearranged(s1, s, first, last) && (s == t || Rearranged(s, t, first, last))
        && Rearranged(t, u, first, last)
    requires clear ==> Kept(less, p, s1, s, first, last) && s == t && Kept(less, p, t, u, first, last)
    ensures Rearranged(s1, u, first, last) && (clear ==> Kept(less, p, s1, u, first, last))
  {
    hide Rearranged, Kept;
    if s != t {
      RearrangedTransitive(s1, s, t, first, last);
    }
    RearrangedTransitive(s1, t, u, first, last);
    if clear {
      KeptTransitive(less, p, s1, s, u, first, last);
    }
  }

  /** The range [partLast, last) holds the elements of `seg` greater than its middle one, in their order. */
  ghost predicate InPlaceOrder<T>(less: (T, T) -> bool, seg: seq<T>, s: seq<T>, partLast: int, last: int) {
    && seg != [] && 0 <= partLast <= last <= |s|
    && s[partLast..last] == Filter(GreaterThan(less, seg[|seg| / 2]), seg)
  }

  lemma CalmClear<T>(less: (T, T) -> bool, s: seq<T>, first: nat, last: nat)
    requires first < last <= |s| && Calm(less, s[first..last])
    ensures var mid := first + (last - first) / 2;
            && s[first..last][(last - first) / 2] == s[mid] && forall k :: mid < k < last ==> less(s[mid], s[k])
  {
    var seg := s[first..last];
    forall k | first + (last - first) / 2 < k < last
      ensures less(s[first + (last - first) / 2], s[k])
    {
      assert seg[k - first] == s[k];
    }
  }
}
