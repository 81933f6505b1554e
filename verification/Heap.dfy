/** Max-heap kernels over a range [first, last) of an array. Heap positions are relative to
    `first`; the specifications speak of the sequence of elements in the range. */
module Heap {
  import opened Orders
  import opened Segments

  function LeftChild(index: nat): nat {
    2 * index + 1
  }

  function RightChild(index: nat): nat {
    2 * index + 2
  }

  function Parent(index: int): int
    requires index >= 1
  {
    (index - 1) / 2
  }

  /** Below every position from `j` on, no child is greater than its parent. */
  ghost predicate HeapFrom<T>(less: (T, T) -> bool, h: seq<T>, j: int) {
    forall k {:trigger Parent(k)} :: 1 <= k < |h| && 0 <= j <= Parent(k) ==> Leq(less, h[k], h[Parent(k)])
  }

  ghost predicate IsMaxHeap<T>(less: (T, T) -> bool, h: seq<T>) {
    HeapFrom(less, h, 0)
  }

  /** No element of a heap is greater than its root. */
  lemma {:induction false} RootIsMaximum<T(!new)>(less: (T, T) -> bool, h: seq<T>, k: nat)
    requires StrictWeakOrder(less) && IsMaxHeap(less, h) && k < |h|
    ensures Leq(less, h[k], h[0])
  {
    if k == 0 {
      LeqReflexive(less, h[0]);
    } else {
      RootIsMaximum(less, h, Parent(k));
      LeqTransitive(less, h[k], h[Parent(k)], h[0]);
    }
  }

  lemma PrefixIsHeap<T>(less: (T, T) -> bool, h: seq<T>, n: nat)
    requires IsMaxHeap(less, h) && n <= |h|
    ensures IsMaxHeap(less, h[..n])
  {
  }

  /** The sift-down invariant: the order below `top` is broken only between `hole` and its
      children, and those children still fit under the parent of `hole`. */
  ghost predicate Sifting<T>(less: (T, T) -> bool, h: seq<T>, top: nat, hole: nat) {
    && top <= hole
    && (forall k {:trigger Parent(k)} :: 1 <= k < |h| && top <= Parent(k) != hole ==> Leq(less, h[k], h[Parent(k)]))
    && (top < hole ==>
          && top <= Parent(hole)
          && forall k {:trigger Parent(k)} :: 1 <= k < |h| && Parent(k) == hole ==> Leq(less, h[k], h[Parent(hole)]))
  }

  ghost predicate IsGreaterChild<T>(less: (T, T) -> bool, h: seq<T>, i: nat, child: nat) {
    i < child < |h| && Parent(child) == i && less(h[i], h[child])
  }

  ghost predicate ChildrenFitUnder<T>(less: (T, T) -> bool, h: seq<T>, i: nat, largest: nat) {
    forall k {:trigger Parent(k)} :: 1 <= k < |h| && Parent(k) == i ==> largest < |h| && Leq(less, h[k], h[largest])
  }

  lemma SiftStep<T(!new)>(less: (T, T) -> bool, h: seq<T>, top: nat, hole: nat, largest: nat)
    requires StrictWeakOrder(less) && Sifting(less, h, top, hole)
    requires IsGreaterChild(less, h, hole, largest) && ChildrenFitUnder(less, h, hole, largest)
    ensures Sifting(less, Swapped(h, hole, largest), top, largest)
  {
    var t := Swapped(h, hole, largest);
    LessIsLeq(less, h[hole], h[largest]);
    forall k {:trigger Parent(k)} | 1 <= k < |h| && top <= Parent(k) != largest
      ensures Leq(less, t[k], t[Parent(k)])
    {
      if k == hole {
        assert Parent(largest) == hole;
      } else if Parent(k) == hole {
      } else {
        assert t[k] == h[k] && t[Parent(k)] == h[Parent(k)];
      }
    }
  }

  lemma SiftSwap<T(!new)>(less: (T, T) -> bool, s: seq<T>, first: nat, last: nat, top: nat, hole: nat, largest: nat)
    requires StrictWeakOrder(less) && first <= last <= |s|
    requires Sifting(less, s[first..last], top, hole)
    requires IsGreaterChild(less, s[first..last], hole, largest)
        && ChildrenFitUnder(less, s[first..last], hole, largest)
    ensures Sifting(less, Swapped(s, first + hole, first + largest)[first..last], top, largest)
    ensures Rearranged(s, Swapped(s, first + hole, first + largest), first, last)
  {
    SiftStep(less, s[first..last], top, hole, largest);
    SwappedRange(s, first, last, hole, largest);
    SwapRearranges(s, first + hole, first + largest, first, last);
  }

  lemma SiftEnd<T>(less: (T, T) -> bool, h: seq<T>, top: nat, hole: nat)
    requires Sifting(less, h, top, hole)
    requires ChildrenFitUnder(less, h, hole, hole)
    ensures HeapFrom(less, h, top)
  {
  }

  /** The position of the largest among `i` and its children. */
  function LargestOf<T>(less: (T, T) -> bool, h: seq<T>, i: nat): (largest: nat)
    ensures largest == i || i < largest < |h|
  {
    var m := if LeftChild(i) < |h| && less(h[i], h[LeftChild(i)]) then LeftChild(i) else i;
    if RightChild(i) < |h| && less(h[m], h[RightChild(i)]) then RightChild(i) else m
  }

  /** The elements of a heap after the one at `i` has sunk. */
  function SiftedDown<T>(less: (T, T) -> bool, h: seq<T>, i: nat): (t: seq<T>)
    ensures |t| == |h|
    decreases |h| - i
  {
    var m := LargestOf(less, h, i);
    if m == i then h else SiftedDown(less, Swapped(h, i, m), m)
  }

  /** The elements after those at i - 1, ..., 0 have sunk, in this order. */
  function Heapified<T>(less: (T, T) -> bool, h: seq<T>, i: nat): (t: seq<T>)
    ensures |t| == |h|
    decreases i
  {
    if i == 0 then h else Heapified(less, SiftedDown(less, h, i - 1), i - 1)
  }

  method LargestChild<T(!new)>(a: array<T>, first: nat, count: nat, i: nat, less: (T, T) -> bool) returns (largest: nat)
    requires StrictWeakOrder(less) && first + count <= a.Length
    ensures largest == LargestOf(less, a[..][first..first + count], i)
    ensures largest != i ==> IsGreaterChild(less, a[..][first..first + count], i, largest)
    ensures ChildrenFitUnder(less, a[..][first..first + count], i, largest)
  {
    largest := i;
    var l := LeftChild(i);
    if l < count && less(a[first + largest], a[first + l]) {
      largest := l;
    }
    var r := RightChild(i);
    if r < count && less(a[first + largest], a[first + r]) {
      largest := r;
    }
    ghost var h := a[..][first..first + count];
    assert forall k | 0 <= k < count :: h[k] == a[first + k];
    LargestOfThree(less, h, i, largest);
  }

  /** One round of the sift-down: the larger child, if any, moves up into the hole. */
  method SiftRound<T(!new)>(a: array<T>, first: nat, count: nat, ghost top: nat, i: nat, less: (T, T) -> bool)
    returns (largest: nat)
    requires StrictWeakOrder(less) && first + count <= a.Length
    requires Sifting(less, a[..][first..first + count], top, i)
    modifies a
    ensures Rearranged(old(a[..]), a[..], first, first + count)
    ensures largest == i ==> HeapFrom(less, a[..][first..first + count], top)
    ensures largest == i ==> SiftedDown(less, old(a[..])[first..first + count], i) == a[..][first..first + count]
    ensures largest != i ==> i < largest < count && Sifting(less, a[..][first..first + count], top, largest)
    ensures SiftedDown(less, a[..][first..first + count], largest)
        == SiftedDown(less, old(a[..])[first..first + count], i)
  {
    hide *;
    ghost var s := a[..];
    RearrangedReflexive(s, first, first + count);
    largest := LargestChild(a, first, count, i, less);
    if largest != i {
      Swap(a, first + i, first + largest);
      SiftSwap(less, s, first, first + count, top, i, largest);
      SiftedOnce(less, s, first, first + count, i, largest);
    } else {
      SiftEnd(less, s[first..first + count], top, i);
      SiftedEnd(less, s[first..first + count], i);
    }
  }

  lemma SiftedOnce<T>(less: (T, T) -> bool, s: seq<T>, first: nat, last: nat, i: nat, largest: nat)
    requires first <= last <= |s| && i < largest < last - first && largest == LargestOf(less, s[first..last], i)
    ensures SiftedDown(less, s[first..last], i)
        == SiftedDown(less, Swapped(s, first + i, first + largest)[first..last], largest)
  {
    SwappedRange(s, first, last, i, largest);
  }

  lemma SiftedEnd<T>(less: (T, T) -> bool, h: seq<T>, i: nat)
    requires LargestOf(less, h, i) == i
    ensures SiftedDown(less, h, i) == h
  {
  }

  /** Sift-down: makes the order hold from `start` on when it holds from `start + 1` on. */
  method InternalAdjustMaxHeap<T(!new)>(a: array<T>, first: nat, count: nat, start: nat, less: (T, T) -> bool)
    requires StrictWeakOrder(less) && first + count <= a.Length
    requires HeapFrom(less, a[..][first..first + count], start + 1)
    modifies a
    ensures Rearranged(old(a[..]), a[..], first, first + count)
    ensures HeapFrom(less, a[..][first..first + count], start)
    ensures a[..][first..first + count] == SiftedDown(less, old(a[..])[first..first + count], start)
  {
    hide SiftedDown, LargestOf;
    var i := start;
    while true
      invariant Rearranged(old(a[..]), a[..], first, first + count)
      invariant Sifting(less, a[..][first..first + count], start, i)
      invariant SiftedDown(less, a[..][first..first + count], i)
          == SiftedDown(less, old(a[..])[first..first + count], start)
      decreases count - i
    {
      ghost var before := a[..];
      var largest := SiftRound(a, first, count, start, i, less);
      RearrangedTransitive(old(a[..]), before, a[..], first, first + count);
      if largest == i {
        break;
      }
      i := largest;
    }
  }

  /** What the two comparisons of one sift-down round establish. */
  lemma LargestOfThree<T(!new)>(less: (T, T) -> bool, h: seq<T>, i: nat, largest: nat)
    requires StrictWeakOrder(less)
    requires largest == LargestOf(less, h, i)
    ensures largest != i ==> IsGreaterChild(less, h, i, largest)
    ensures ChildrenFitUnder(less, h, i, largest)
  {
    forall k {:trigger Parent(k)} | 1 <= k < |h| && Parent(k) == i
      ensures Leq(less, h[k], h[largest])
    {
      assert k == LeftChild(i) || k == RightChild(i);
      LeqReflexive(less, h[k]);
      if k == LeftChild(i) && largest == RightChild(i) {
        var m := if less(h[i], h[k]) then k else i;
        LessIsLeq(less, h[m], h[largest]);
        LeqTransitive(less, h[k], h[m], h[largest]);
      }
    }
    if largest == RightChild(i) {
      assert Triple(h[i], h[LeftChild(i)], h[largest]);
    }
  }

  /** Moves a maximum to the last slot and restores the heap on the rest. */
  method PopMaxHeap<T(!new)>(a: array<T>, first: nat, last: nat, less: (T, T) -> bool)
    requires StrictWeakOrder(less) && first <= last <= a.Length
    requires IsMaxHeap(less, a[..][first..last])
    modifies a
    ensures Rearranged(old(a[..]), a[..], first, last)
    ensures first < last ==> a[last - 1] == old(a[first]) && IsMaxHeap(less, a[..][first..last - 1])
  {
    hide Rearranged, HeapFrom, Swapped;
    ghost var s := a[..];
    if 1 < last - first {
      var last' := last - 1;
      Swap(a, first, last');
      ghost var t := a[..];
      PopStart(less, s, first, last);
      InternalAdjustMaxHeap(a, first, last' - first, 0, less);
      PopEnd(less, s, t, a[..], first, last);
    } else {
      PopTrivial(less, s, first, last);
    }
  }

  lemma PopStart<T>(less: (T, T) -> bool, s: seq<T>, first: nat, last: nat)
    requires first + 1 < last <= |s| && IsMaxHeap(less, s[first..last])
    ensures HeapFrom(less, Swapped(s, first, last - 1)[first..last - 1], 1)
    ensures Rearranged(s, Swapped(s, first, last - 1), first, last)
  {
    var t := Swapped(s, first, last - 1);
    SwapRearranges(s, first, last - 1, first, last);
    forall k {:trigger Parent(k)} | 1 <= k < last - 1 - first && 1 <= Parent(k)
      ensures Leq(less, t[first..last - 1][k], t[first..last - 1][Parent(k)])
    {
      assert s[first..last][k] == t[first..last - 1][k];
    }
  }

  lemma PopEnd<T>(less: (T, T) -> bool, s: seq<T>, t: seq<T>, u: seq<T>, first: nat, last: nat)
    requires first + 1 < last <= |s| && t == Swapped(s, first, last - 1)
    requires Rearranged(s, t, first, last) && Rearranged(t, u, first, last - 1)
    ensures Rearranged(s, u, first, last) && u[last - 1] == s[first]
  {
    RearrangedOutside(t, u, first, last - 1, last - 1);
    RearrangedWiden(t, u, first, last - 1, first, last);
    RearrangedTransitive(s, t, u, first, last);
  }

  lemma PopTrivial<T>(less: (T, T) -> bool, s: seq<T>, first: nat, last: nat)
    requires first <= last <= first + 1 && last <= |s|
    ensures Rearranged(s, s, first, last)
    ensures first < last ==> s[last - 1] == s[first] && IsMaxHeap(less, s[first..last - 1])
  {
  }

  lemma HeapFromLeaves<T>(less: (T, T) -> bool, h: seq<T>)
    ensures HeapFrom(less, h, |h| / 2)
  {
  }

  /** Heapifies bottom-up. */
  method MakeMaxHeap<T(!new)>(a: array<T>, first: nat, last: nat, less: (T, T) -> bool)
    requires StrictWeakOrder(less) && first <= last <= a.Length
    modifies a
    ensures Rearranged(old(a[..]), a[..], first, last)
    ensures IsMaxHeap(less, a[..][first..last])
    ensures a[..][first..last] == Heapified(less, old(a[..])[first..last], (last - first) / 2)
  {
    hide Rearranged, HeapFrom, SiftedDown;
    var count := last - first;
    var i := count / 2;
    HeapFromLeaves(less, a[..][first..last]);
    RearrangedReflexive(a[..], first, last);
    while 0 < i
      invariant 0 <= i <= count
      invariant Rearranged(old(a[..]), a[..], first, last)
      invariant HeapFrom(less, a[..][first..last], i)
      invariant Heapified(less, a[..][first..last], i) == Heapified(less, old(a[..])[first..last], count / 2)
    {
      i := i - 1;
      ghost var before := a[..];
      InternalAdjustMaxHeap(a, first, count, i, less);
      RearrangedTransitive(old(a[..]), before, a[..], first, last);
    }
  }

  /** Sinking one element where the order already holds below it extends the order. */
  lemma {:induction false} SiftedDownOrders<T(!new)>(less: (T, T) -> bool, h: seq<T>, top: nat, i: nat)
    requires StrictWeakOrder(less) && Sifting(less, h, top, i)
    ensures HeapFrom(less, SiftedDown(less, h, i), top) && multiset(SiftedDown(less, h, i)) == multiset(h)
    decreases |h| - i
  {
    var m := LargestOf(less, h, i);
    LargestOfThree(less, h, i, m);
    if m == i {
      SiftEnd(less, h, top, i);
    } else {
      SiftStep(less, h, top, i, m);
      SwapRearranges(h, i, m, 0, |h|);
      assert h[0..|h|] == h && Swapped(h, i, m)[0..|h|] == Swapped(h, i, m);
      SiftedDownOrders(less, Swapped(h, i, m), top, m);
    }
  }

  lemma {:induction false} HeapifiedIsHeap<T(!new)>(less: (T, T) -> bool, h: seq<T>, i: nat)
    requires StrictWeakOrder(less) && HeapFrom(less, h, i)
    ensures IsMaxHeap(less, Heapified(less, h, i)) && multiset(Heapified(less, h, i)) == multiset(h)
    decreases i
  {
    if i > 0 {
      assert Sifting(less, h, i - 1, i - 1);
      SiftedDownOrders(less, h, i - 1, i - 1);
      HeapifiedIsHeap(less, SiftedDown(less, h, i - 1), i - 1);
    }
  }

  /** [lo, hi) is sorted and nothing in [first, lo) is greater than anything in it. */
  ghost predicate SortedTail<T>(less: (T, T) -> bool, s: seq<T>, first: int, lo: int, hi: int) {
    && 0 <= first <= lo <= hi <= |s|
    && forall p, q :: first <= p < q < hi && lo <= q ==> Leq(less, s[p], s[q])
  }

  /** One more maximum has been popped in front of the sorted tail. */
  lemma TailGrows<T(!new)>(less: (T, T) -> bool, s: seq<T>, t: seq<T>, first: int, lo: int, hi: int)
    requires StrictWeakOrder(less) && SortedTail(less, s, first, lo, hi) && first < lo
    requires IsMaxHeap(less, s[first..lo]) && Rearranged(s, t, first, lo) && t[lo - 1] == s[first]
    ensures SortedTail(less, t, first, lo - 1, hi)
  {
    forall p, q | first <= p < q < hi && lo - 1 <= q
      ensures Leq(less, t[p], t[q])
    {
      var p' := p;
      if p < lo {
        p' := RearrangedOrigin(s, t, first, lo, p);
        RootIsMaximum(less, s[first..lo], p' - first);
      } else {
        RearrangedOutside(s, t, first, lo, p);
      }
      if q >= lo {
        RearrangedOutside(s, t, first, lo, q);
      }
    }
  }

  /** The loop invariant of `SortMaxHeap`: a heap on [first, lo), its sorted tail on [lo, hi). */
  ghost predicate Sorting<T>(less: (T, T) -> bool, s: seq<T>, t: seq<T>, first: int, lo: int, hi: int) {
    && Rearranged(s, t, first, hi)
    && SortedTail(less, t, first, lo, hi)
    && IsMaxHeap(less, t[first..lo])
  }

  lemma SortingStep<T(!new)>(less: (T, T) -> bool, s: seq<T>, t: seq<T>, u: seq<T>, first: int, lo: int, hi: int)
    requires StrictWeakOrder(less) && Sorting(less, s, t, first, lo, hi) && first < lo
    requires Rearranged(t, u, first, lo) && u[lo - 1] == t[first] && IsMaxHeap(less, u[first..lo - 1])
    ensures Sorting(less, s, u, first, lo - 1, hi)
  {
    TailGrows(less, t, u, first, lo, hi);
    RearrangedWiden(t, u, first, lo, first, hi);
    RearrangedTransitive(s, t, u, first, hi);
  }

  lemma SortingStart<T>(less: (T, T) -> bool, s: seq<T>, first: int, end: int, last: int)
    requires 0 <= first <= end <= last <= |s| && IsMaxHeap(less, s[first..last])
    ensures Sorting(less, s, s, first, end, end)
  {
    PrefixIsHeap(less, s[first..last], end - first);
    assert s[first..last][..end - first] == s[first..end];
  }

  lemma SortingEnd<T(!new)>(less: (T, T) -> bool, s: seq<T>, t: seq<T>, first: int, end: int, last: int)
    requires StrictWeakOrder(less) && first <= last && end == (if first < last then last - 1 else last)
    requires last <= |s| && 0 <= first && IsMaxHeap(less, s[first..last])
    requires Sorting(less, s, t, first, first, end)
    ensures first == last ==> t == s
    ensures first < last ==> SortedButLast(less, s, t, first, last)
    ensures SortedBy(less, t, first, last) <==> (first < last ==> Leq(less, s[first], s[last - 1]))
  {
    if first < last {
      RearrangedOutside(s, t, first, end, end);
      SortedButLastIff(less, s, t, first, last);
    } else {
      assert s == s[..first] + s[first..];
      assert t == t[..first] + t[first..];
    }
  }

  /** As written, each round shortens the range before it pops, and popping shortens it again:
      the last slot is never touched. The range ends up sorted exactly when that slot already
      held an element not smaller than the root. */
  method SortMaxHeap<T(!new)>(a: array<T>, first: nat, last: nat, less: (T, T) -> bool)
    requires StrictWeakOrder(less) && first <= last <= a.Length
    requires IsMaxHeap(less, a[..][first..last])
    modifies a
    ensures first < last ==> SortedButLast(less, old(a[..]), a[..], first, last)
    ensures first == last ==> a[..] == old(a[..])
    ensures SortedBy(less, a[..], first, last)
      <==> (first < last ==> Leq(less, old(a[first]), old(a[last - 1])))
  {
    ghost var s, end := a[..], if first < last then last - 1 else last;
    SortingStart(less, s, first, end, last);
    var last' := last;
    while 1 < last' - first
      invariant first <= last' <= last && (first < last ==> first < last')
      invariant Sorting(less, s, a[..], first, if first < last then last' - 1 else last', end)
    {
      last' := last' - 1;
      ghost var before := a[..];
      PopMaxHeap(a, first, last', less);
      SortingStep(less, s, before, a[..], first, last', end);
    }
    SortingEnd(less, s, a[..], first, end, last);
  }

  /** What `SortMaxHeap` leaves of a nonempty range. */
  ghost predicate SortedButLast<T>(less: (T, T) -> bool, s: seq<T>, t: seq<T>, first: int, last: int) {
    && 0 <= first < last <= |s| == |t|
    && Rearranged(s, t, first, last - 1)
    && SortedBy(less, t, first, last - 1)
    && t[last - 1] == s[last - 1]
  }

  lemma SortedButLastIff<T(!new)>(less: (T, T) -> bool, s: seq<T>, t: seq<T>, first: int, last: int)
    requires StrictWeakOrder(less) && SortedButLast(less, s, t, first, last)
    requires IsMaxHeap(less, s[first..last])
    ensures SortedBy(less, t, first, last) <==> Leq(less, s[first], s[last - 1])
  {
    var e := last - 1;
    if first < e {
      if Leq(less, s[first], s[e]) {
        forall p | first <= p < e
          ensures Leq(less, t[p], t[e])
        {
          var m := RearrangedOrigin(s, t, first, e, p);
          RootIsMaximum(less, s[first..last], m - first);
          LeqTransitive(less, t[p], s[first], s[e]);
        }
      } else {
        assert multiset(s[first..e]) == multiset(t[first..e]);
        assert s[first] == s[first..e][0];
        assert s[first] in multiset(t[first..e]);
        var m :| 0 <= m < e - first && t[first..e][m] == s[first];
        assert !Leq(less, t[first + m], t[e]);
      }
    } else {
      LeqReflexive(less, s[first]);
    }
  }

  /** The intended loop: popping before the range is shortened sorts the whole range. */
  method SortMaxHeapIntended<T(!new)>(a: array<T>, first: nat, last: nat, less: (T, T) -> bool)
    requires StrictWeakOrder(less) && first <= last <= a.Length
    requires IsMaxHeap(less, a[..][first..last])
    modifies a
    ensures Rearranged(old(a[..]), a[..], first, last) && SortedBy(less, a[..], first, last)
  {
    hide Rearranged, HeapFrom;
    ghost var s := a[..];
    var last' := last;
    RearrangedReflexive(s, first, last);
    while 1 < last' - first
      invariant first <= last' <= last && (first < last ==> first < last')
      invariant Sorting(less, s, a[..], first, last', last)
    {
      ghost var before := a[..];
      PopMaxHeap(a, first, last', less);
      SortingStep(less, s, before, a[..], first, last', last);
      last' := last' - 1;
    }
  }

  /** [3, 1, 2] is a max-heap that `SortMaxHeap` leaves as [1, 3, 2]. */
  lemma SortMaxHeapFails(t: seq<int>)
    requires SortedButLast((x: int, y: int) => x < y, [3, 1, 2], t, 0, 3)
    ensures IsMaxHeap((x: int, y: int) => x < y, [3, 1, 2])
    ensures t == [1, 3, 2] && !SortedBy((x: int, y: int) => x < y, t, 0, 3)
  {
    var less := (x: int, y: int) => x < y;
    assert [3, 1, 2][0..2] == [3, 1];
    var m := RearrangedOrigin([3, 1, 2], t, 0, 2, 0);
    assert t[0..2] == [t[0], t[1]];
    assert multiset([t[0], t[1]]) == multiset{3, 1};
    assert Leq(less, t[0], t[1]);
    assert !Leq(less, t[1], t[2]);
  }
}
