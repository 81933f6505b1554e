/** The introsort: three-way quicksort under a depth limit, with an insertion sort for short
    ranges and a heap fallback when the limit is used up. */
module IntroSort {
  import opened Arith
  import opened Filters
  import opened Heap
  import opened Multisets
  import opened Orders
  import opened Partition
  import opened Sampling
  import opened Segments

  const INSERTION_SORT_MAX_SIZE := 32

  // ---- insertion sort ----

  /** Where the value belongs: nothing before `r` is greater, everything from `r` on is. */
  lemma InsertedSorted<T(!new)>(less: (T, T) -> bool, s: seq<T>, first: nat, r: nat, next: nat)
    requires StrictWeakOrder(less) && first <= r <= next < |s| && SortedBy(less, s, first, next)
    requires first < r ==> Leq(less, s[r - 1], s[next])
    requires forall k :: r <= k < next ==> less(s[next], s[k])
    ensures SortedBy(less, Inserted(s, r, next), first, next + 1)
  {
    var t := Inserted(s, r, next);
    forall p, q | first <= p < q < next + 1
      ensures Leq(less, t[p], t[q])
    {
      if q == r {
        if p < r - 1 {
          LeqTransitive(less, s[p], s[r - 1], s[next]);
        }
      } else if p == r {
        LessIsLeq(less, s[next], s[q - 1]);
      }
    }
  }

  /** Lines 739-742: moves a whole prefix up by one. */
  method MoveBackward<T(!new)>(a: array<T>, first: nat, next: nat)
    requires first <= next < a.Length
    modifies a
    ensures Shifted(old(a[..]), a[..], first, next)
  {
    var result, i := next, next;
    while first != i
      invariant first <= result == i <= next
      invariant Shifted(old(a[..]), a[..], i, next)
    {
      i := i - 1;
      a[result] := a[i];
      result := result - 1;
    }
  }

  /** Lines 748-752: no bound test, because the first element is known to stop the scan. */
  method MoveBackwardUnguarded<T(!new)>(a: array<T>, ghost first: nat, next: nat, value: T, less: (T, T) -> bool)
    returns (result: nat)
    requires first < next < a.Length && value == a[next] && !less(value, a[first])
    modifies a
    ensures first < result <= next && Shifted(old(a[..]), a[..], result, next)
    ensures Leq(less, old(a[..])[result - 1], value)
    ensures forall k :: result <= k < next ==> less(value, old(a[..])[k])
  {
    ghost var s := a[..];
    result := next;
    var i := next - 1;
    while less(value, a[i])
      invariant first <= i && i + 1 == result <= next
      invariant Shifted(s, a[..], result, next)
      invariant forall k :: result <= k < next ==> less(value, s[k])
      decreases i
    {
      a[result] := a[i];
      result := i;
      i := i - 1;
    }
  }

  method InsertionSort<T(!new)>(a: array<T>, first: nat, last: nat, less: (T, T) -> bool)
    requires StrictWeakOrder(less) && first < last <= a.Length
    modifies a
    ensures Rearranged(old(a[..]), a[..], first, last) && SortedBy(less, a[..], first, last)
  {
    ghost var s0 := a[..];
    RearrangedReflexive(s0, first, last);
    var next := first + 1;
    assert SortedBy(less, a[..], first, next);
    hide Rearranged, Inserted, SortedBy, StrictWeakOrder;
    while next != last
      invariant first < next <= last
      invariant Rearranged(s0, a[..], first, last)
      invariant SortedBy(less, a[..], first, next)
    {
      ghost var s := a[..];
      ghost var r := InsertNext(a, first, next, less);
      InsertedRearranges(s, first, r, next);
      RearrangedWiden(s, a[..], first, next + 1, first, last);
      RearrangedTransitive(s0, s, a[..], first, last);
      next := next + 1;
    }
  }

  /** Lines 735-754: one round of the insertion sort. */
  method InsertNext<T(!new)>(a: array<T>, first: nat, next: nat, less: (T, T) -> bool) returns (ghost r: nat)
    requires StrictWeakOrder(less) && first < next < a.Length && SortedBy(less, a[..], first, next)
    modifies a
    ensures first <= r <= next && a[..] == Inserted(old(a[..]), r, next)
    ensures SortedBy(less, a[..], first, next + 1)
  {
    hide Inserted;
    ghost var s := a[..];
    var value := a[next];
    if less(value, a[first]) {
      LessThanAll(less, s, first, next);
      r := first;
      MoveBackward(a, first, next);
      FillSlot(s, a[..], first, next);
      a[first] := value;
    } else {
      var result := MoveBackwardUnguarded(a, first, next, value, less);
      r := result;
      FillSlot(s, a[..], result, next);
      a[result] := value;
    }
    InsertedSorted(less, s, first, r, next);
  }

  lemma LessThanAll<T(!new)>(less: (T, T) -> bool, s: seq<T>, first: nat, next: nat)
    requires StrictWeakOrder(less) && first < next < |s| && SortedBy(less, s, first, next)
    requires less(s[next], s[first])
    ensures forall k :: first <= k < next ==> less(s[next], s[k])
  {
    forall k | first <= k < next
      ensures less(s[next], s[k])
    {
      assert Triple(s[next], s[first], s[k]);
      assert k > first ==> Leq(less, s[first], s[k]);
    }
  }

  // ---- the depth limit ----

  /** One level deeper: lines 711-712. */
  function Shrink(depthLimit: int): int {
    depthLimit / 2 + depthLimit / 2 / 2
  }

  /** How many partitioning levels a depth limit allows. */
  function Levels(depthLimit: int): nat {
    if depthLimit <= 0 then 0 else 1 + Levels(Shrink(depthLimit))
  }

  function Pow(b: nat, e: nat): nat {
    if e == 0 then 1 else b * Pow(b, e - 1)
  }

  lemma LevelsUnfold(d: int, d': int)
    requires d > 0 && d' == Shrink(d)
    ensures Levels(d) == 1 + Levels(d')
  {
  }

  lemma ShrinkBound(limit: int)
    requires limit > 0
    ensures 4 * Shrink(limit) <= 3 * limit && Shrink(limit) < limit
    ensures Shrink(limit) <= 0 ==> Levels(limit) == 1
  {
  }

  lemma PowStep(b: nat, e: nat)
    ensures Pow(b, 0) == 1 && Pow(b, e + 1) == b * Pow(b, e)
  {
  }

  /** The levels are logarithmic: the limit shrinks to at most 3/4 a level, so (4/3)^(levels - 1) <= limit. */
  lemma {:induction false} LevelsLogarithmic(depthLimit: int)
    requires depthLimit > 0
    ensures Pow(4, Levels(depthLimit) - 1) <= depthLimit * Pow(3, Levels(depthLimit) - 1)
  {
    hide Shrink, Pow, Levels;
    var d := Shrink(depthLimit);
    ShrinkBound(depthLimit);
    LevelsUnfold(depthLimit, d);
    PowStep(3, 0);
    PowStep(4, 0);
    if d > 0 {
      LevelsLogarithmic(d);
      LevelsUnfold(d, Shrink(d));
      var k := Levels(d) - 1;
      PowStep(3, k);
      PowStep(4, k);
      ThreeQuarters(depthLimit, d, Pow(3, k), Pow(4, k));
    }
  }

  lemma ThreeQuarters(limit: int, d: int, three: nat, four: nat)
    requires 4 * d <= 3 * limit && four <= d * three
    ensures 4 * four <= limit * (3 * three)
  {
    MulMonotone(4 * d, 3 * limit, three);
    MulAssociates(4, d, three);
    MulAssociates(limit, 3, three);
  }

  lemma {:induction false} LevelsMonotone(m: int, n: int)
    requires m <= n
    ensures Levels(m) <= Levels(n)
    decreases n
  {
    if m > 0 {
      LevelsMonotone(Shrink(m), Shrink(n));
    }
  }

  /** One level takes off a quarter, and no more than rounding adds to it. */
  lemma ShrinkIsThreeQuarters(depthLimit: int)
    requires depthLimit >= 0
    ensures 4 * Shrink(depthLimit) <= 3 * depthLimit <= 4 * Shrink(depthLimit) + 5
  {
  }

  /** Twice the limit, and a little more, allows at least two more levels. */
  lemma LevelsGrow(d: int)
    requires d >= 0
    ensures Levels(2 * d + 4) >= Levels(d) + 2
  {
    var once := Shrink(2 * d + 4);
    LevelsUnfold(2 * d + 4, once);
    LevelsUnfold(once, Shrink(once));
    LevelsMonotone(d, Shrink(once));
  }

  lemma LevelsTable()
    ensures Levels(33) == 9 && Levels(42) == 10 && Levels(61) == 11 && Levels(71) == 11
    ensures Levels(72) == 12 && Levels(76) == 12 && Levels(96) == 13 && Levels(149) == 14
  {
    hide Levels;
    assert Levels(1) == 1 by { LevelsOfOne(); }
    LevelsUnfold(3, 1); LevelsUnfold(4, 3); LevelsUnfold(6, 4); LevelsUnfold(9, 6);
    LevelsUnfold(13, 9); LevelsUnfold(18, 13); LevelsUnfold(24, 18); LevelsUnfold(33, 24);
    LevelsUnfold(12, 9); LevelsUnfold(16, 12); LevelsUnfold(22, 16); LevelsUnfold(31, 22); LevelsUnfold(42, 31);
    LevelsUnfold(45, 33); LevelsUnfold(61, 45);
    LevelsUnfold(7, 4); LevelsUnfold(10, 7); LevelsUnfold(15, 10); LevelsUnfold(21, 15); LevelsUnfold(28, 21);
    LevelsUnfold(39, 28); LevelsUnfold(52, 39); LevelsUnfold(71, 52);
    LevelsUnfold(30, 22); LevelsUnfold(40, 30); LevelsUnfold(54, 40); LevelsUnfold(72, 54);
    LevelsUnfold(57, 42); LevelsUnfold(76, 57); LevelsUnfold(96, 72);
    LevelsUnfold(82, 61); LevelsUnfold(111, 82); LevelsUnfold(149, 111);
  }

  lemma LevelsOfOne()
    ensures Levels(1) == 1
  {
  }

  // ---- runs ----

  /** How a run went over a range: sorted by insertion, given to the heap, or partitioned, with a run on each side. */
  datatype Trace<T> =
    | Short(out: seq<T>)
    | Fallback(out: seq<T>)
    | Level(small: seq<T>, same: seq<T>, large: seq<T>, left: Trace<T>, right: Trace<T>)

  /** What a run leaves in its range. */
  function Output<T>(trace: Trace<T>): seq<T> {
    match trace
    case Short(out) => out
    case Fallback(out) => out
    case Level(_, same, _, left, right) => Output(left) + same + Output(right)
  }

  ghost predicate Sorted<T>(less: (T, T) -> bool, s: seq<T>) {
    SortedBy(less, s, 0, |s|)
  }

  /** The heap that the fallback builds from a range. */
  function Heaped<T>(less: (T, T) -> bool, seg: seq<T>): (h: seq<T>)
    ensures |h| == |seg|
  {
    Heapified(less, seg, |seg| / 2)
  }

  /** A partition of `seg`, as `Partition3` promises it. */
  ghost predicate LevelOf<T>(less: (T, T) -> bool, seg: seq<T>, small: seq<T>, same: seq<T>, large: seq<T>) {
    && multiset(small + same + large) == multiset(seg) && |small| + |same| + |large| == |seg|
    && Partitioned(less, small + same + large, 0, |small|, |small| + |same|, |seg|)
    && |small| + |same| >= Margin(|seg|) && |same| + |large| >= Margin(|seg|)
    && (Calm(less, seg) ==> large == Filter(GreaterThan(less, seg[|seg| / 2]), seg))
    && (Sorted(less, seg) ==> small + same + large == seg && 2 * |small| <= |seg| && 2 * |large| <= |seg|)
  }

  /** The trace is one of sorting `seg` under the depth limit: length and limit decide every branch, every level
      is a partition of its range, and the fallback sorts all but the last slot of the heap of its range. */
  ghost predicate IsRun<T>(less: (T, T) -> bool, seg: seq<T>, depthLimit: int, trace: Trace<T>)
    decreases trace
  {
    match trace
    case Short(out) =>
      |seg| <= INSERTION_SORT_MAX_SIZE && multiset(out) == multiset(seg) && Sorted(less, out)
    case Fallback(out) =>
      |seg| > INSERTION_SORT_MAX_SIZE && depthLimit <= 0 && SortedButLast(less, Heaped(less, seg), out, 0, |seg|)
    case Level(small, same, large, left, right) =>
      && |seg| > INSERTION_SORT_MAX_SIZE && depthLimit > 0 && LevelOf(less, seg, small, same, large)
      && IsRun(less, small, Shrink(depthLimit), left) && IsRun(less, large, Shrink(depthLimit), right)
  }

  predicate NoFallback<T>(trace: Trace<T>) {
    match trace
    case Short(_) => true
    case Fallback(_) => false
    case Level(_, _, _, left, right) => NoFallback(left) && NoFallback(right)
  }

  /** Every heap of the fallback has a maximum in its last slot already. */
  predicate HeapsFit<T>(less: (T, T) -> bool, seg: seq<T>, trace: Trace<T>)
    decreases trace
  {
    match trace
    case Short(_) => true
    case Fallback(_) => seg != [] && Leq(less, Heaped(less, seg)[0], Heaped(less, seg)[|seg| - 1])
    case Level(small, _, large, left, right) => HeapsFit(less, small, left) && HeapsFit(less, large, right)
  }

  /** The lengths of all ranges partitioned. */
  function Work<T>(trace: Trace<T>): nat {
    match trace
    case Short(_) => 0
    case Fallback(_) => 0
    case Level(small, same, large, left, right) => |small| + |same| + |large| + Work(left) + Work(right)
  }

  lemma HeapedFacts<T(!new)>(less: (T, T) -> bool, seg: seq<T>)
    requires StrictWeakOrder(less)
    ensures IsMaxHeap(less, Heaped(less, seg)) && multiset(Heaped(less, seg)) == multiset(seg)
  {
    HeapFromLeaves(less, seg);
    HeapifiedIsHeap(less, seg, |seg| / 2);
  }

  /** A run permutes its range. */
  lemma {:induction false} RunPermutes<T(!new)>(less: (T, T) -> bool, seg: seq<T>, depthLimit: int, trace: Trace<T>)
    requires StrictWeakOrder(less) && IsRun(less, seg, depthLimit, trace)
    ensures multiset(Output(trace)) == multiset(seg) && |Output(trace)| == |seg|
    decreases trace
  {
    match trace
    case Short(out) => SameLength(out, seg);
    case Fallback(out) =>
      HeapedFacts(less, seg);
      SortedButLastRearranges(less, Heaped(less, seg), out, 0, |seg|);
      WholeRearranged(Heaped(less, seg), out);
    case Level(small, same, large, left, right) =>
      RunPermutes(less, small, Shrink(depthLimit), left);
      RunPermutes(less, large, Shrink(depthLimit), right);
  }

  lemma WholeRearranged<T>(s: seq<T>, t: seq<T>)
    requires Rearranged(s, t, 0, |s|)
    ensures multiset(s) == multiset(t) && |s| == |t|
  {
    assert s[0..|s|] == s && t[0..|t|] == t;
  }

  lemma SortedButLastRearranges<T>(less: (T, T) -> bool, s: seq<T>, t: seq<T>, first: int, last: int)
    requires SortedButLast(less, s, t, first, last)
    ensures Rearranged(s, t, first, last)
  {
    RearrangedWiden(s, t, first, last - 1, first, last);
  }

  /** Rearranging the two sides of a partition: the whole is sorted exactly when both sides are. */
  lemma SortedThree<T(!new)>(less: (T, T) -> bool, small: seq<T>, same: seq<T>, large: seq<T>, l: seq<T>, r: seq<T>)
    requires StrictWeakOrder(less) && multiset(l) == multiset(small) && multiset(r) == multiset(large)
    requires Partitioned(less, small + same + large, 0, |small|, |small| + |same|, |small| + |same| + |large|)
    ensures Sorted(less, l + same + r) <==> Sorted(less, l) && Sorted(less, r)
  {
    SameElements(l, small);
    SameElements(r, large);
    SameLength(l, small);
    SameLength(r, large);
    var u := l + same + r;
    SidesApart(less, small, same, large);
    forall i, j | 0 <= i < j < |u| && (i < |l| <= j || i < |l| + |same| <= j || |l| <= i < j < |l| + |same|)
      ensures Leq(less, u[i], u[j])
    {
      assert i < |l| ==> u[i] in small;
      assert |l| <= i < |l| + |same| ==> u[i] in same;
      assert j >= |l| + |same| ==> u[j] in large;
      assert |l| <= j < |l| + |same| ==> u[j] in same;
    }
    assert forall i :: 0 <= i < |l| ==> u[i] == l[i];
    assert forall i :: 0 <= i < |r| ==> u[|l| + |same| + i] == r[i];
    assert Crossed(less, u, 0, |l|, |u|) && Crossed(less, u, |l|, |l| + |same|, |u|)
        && SortedBy(less, u, |l|, |l| + |same|);
    SortedGlue(less, u, 0, |l|, |u|);
    SortedGlue(less, u, |l|, |l| + |same|, |u|);
    SortedSlice(less, u, l, 0);
    SortedSlice(less, u, r, |l| + |same|);
  }

  lemma SortedSlice<T>(less: (T, T) -> bool, u: seq<T>, s: seq<T>, at: nat)
    requires at + |s| <= |u| && forall i :: 0 <= i < |s| ==> u[at + i] == s[i]
    ensures SortedBy(less, u, at, at + |s|) <==> Sorted(less, s)
  {
    forall p, q | at <= p < q < at + |s|
      ensures u[p] == s[p - at] && u[q] == s[q - at]
    {
      assert u[at + (p - at)] == s[p - at] && u[at + (q - at)] == s[q - at];
    }
  }

  lemma SidesApart<T(!new)>(less: (T, T) -> bool, small: seq<T>, same: seq<T>, large: seq<T>)
    requires StrictWeakOrder(less)
    requires Partitioned(less, small + same + large, 0, |small|, |small| + |same|, |small| + |same| + |large|)
    ensures forall x, y :: x in small && y in same ==> Leq(less, x, y)
    ensures forall x, y :: x in same && y in large ==> Leq(less, x, y)
    ensures forall x, y :: x in small && y in large ==> Leq(less, x, y)
    ensures forall x, y :: x in same && y in same ==> Leq(less, x, y)
  {
    var t := small + same + large;
    PartitionedCrosses(less, t, 0, |small|, |small| + |same|, |t|);
    assert forall i :: 0 <= i < |small| ==> t[i] == small[i];
    assert forall i :: 0 <= i < |same| ==> t[|small| + i] == same[i];
    assert forall i :: 0 <= i < |large| ==> t[|small| + |same| + i] == large[i];
  }

  /** A run sorts its range exactly when every heap of its fallbacks fits. */
  lemma {:induction false} RunSortsIff<T(!new)>(less: (T, T) -> bool, seg: seq<T>, depthLimit: int, trace: Trace<T>)
    requires StrictWeakOrder(less) && IsRun(less, seg, depthLimit, trace)
    ensures Sorted(less, Output(trace)) <==> HeapsFit(less, seg, trace)
    decreases trace
  {
    match trace
    case Short(_) =>
    case Fallback(out) =>
      var h := Heaped(less, seg);
      HeapedFacts(less, seg);
      assert h[0..|h|] == h;
      SortedButLastIff(less, h, out, 0, |seg|);
    case Level(small, same, large, left, right) =>
      RunSortsIff(less, small, Shrink(depthLimit), left);
      RunSortsIff(less, large, Shrink(depthLimit), right);
      RunPermutes(less, small, Shrink(depthLimit), left);
      RunPermutes(less, large, Shrink(depthLimit), right);
      SortedThree(less, small, same, large, Output(left), Output(right));
  }

  lemma {:induction false} NoFallbackFits<T>(less: (T, T) -> bool, seg: seq<T>, trace: Trace<T>)
    requires NoFallback(trace)
    ensures HeapsFit(less, seg, trace)
    decreases trace
  {
    match trace
    case Short(_) =>
    case Level(small, _, large, left, right) =>
      NoFallbackFits(less, small, left);
      NoFallbackFits(less, large, right);
  }

  /** No two elements of the range are equivalent. */
  ghost predicate AllDifferent<T>(less: (T, T) -> bool, s: seq<T>) {
    forall i, j :: 0 <= i < j < |s| ==> less(s[i], s[j]) || less(s[j], s[i])
  }

  /** With all elements different, a run sorts its range exactly when it does without the fallback. */
  lemma {:induction false} DifferentSortedIff<T(!new)>(less: (T, T) -> bool, seg: seq<T>, depthLimit: int,
      trace: Trace<T>)
    requires StrictWeakOrder(less) && IsRun(less, seg, depthLimit, trace) && AllDifferent(less, seg)
    ensures HeapsFit(less, seg, trace) <==> NoFallback(trace)
    decreases trace
  {
    match trace
    case Short(_) =>
    case Fallback(_) =>
      var h := Heaped(less, seg);
      HeapedFacts(less, seg);
      DifferentRearranged(less, seg, h);
      RootIsMaximum(less, h, |h| - 1);
    case Level(small, same, large, left, right) =>
      DifferentRearranged(less, seg, small + same + large);
      DifferentParts(less, small, same, large);
      DifferentSortedIff(less, small, Shrink(depthLimit), left);
      DifferentSortedIff(less, large, Shrink(depthLimit), right);
  }

  lemma DifferentParts<T>(less: (T, T) -> bool, small: seq<T>, same: seq<T>, large: seq<T>)
    requires AllDifferent(less, small + same + large)
    ensures AllDifferent(less, small) && AllDifferent(less, large)
  {
    var t := small + same + large;
    assert forall i :: 0 <= i < |small| ==> t[i] == small[i];
    assert forall i :: 0 <= i < |large| ==> t[|small| + |same| + i] == large[i];
  }

  lemma DifferentRearranged<T(!new)>(less: (T, T) -> bool, s: seq<T>, t: seq<T>)
    requires StrictWeakOrder(less) && AllDifferent(less, s) && multiset(s) == multiset(t)
    ensures AllDifferent(less, t)
  {
    SameElements(s, t);
    DifferentIsDistinct(less, s);
    DistinctRearranged(s, t);
    forall i, j | 0 <= i < j < |t|
      ensures less(t[i], t[j]) || less(t[j], t[i])
    {
      assert t[i] in s && t[j] in s;
      var k :| 0 <= k < |s| && s[k] == t[i];
      var m :| 0 <= m < |s| && s[m] == t[j];
      assert k != m;
      assert k < m ==> less(s[k], s[m]) || less(s[m], s[k]);
      assert m < k ==> less(s[m], s[k]) || less(s[k], s[m]);
    }
  }

  lemma DifferentIsDistinct<T(!new)>(less: (T, T) -> bool, s: seq<T>)
    requires StrictWeakOrder(less) && AllDifferent(less, s)
    ensures Distinct(s)
  {
    forall i, j | 0 <= i < j < |s|
      ensures s[i] != s[j]
    {
      assert Triple(s[i], s[j], s[i]);
    }
  }

  // ---- the cost of a run ----

  /** A level for every element at every depth the limit allows. */
  function Budget(count: nat, depthLimit: int): nat {
    count * Levels(depthLimit)
  }

  /** The lengths of all partitioned ranges sum to at most the length times the levels of the limit. */
  lemma {:induction false} RunWork<T>(less: (T, T) -> bool, seg: seq<T>, depthLimit: int, trace: Trace<T>)
    requires IsRun(less, seg, depthLimit, trace)
    ensures Work(trace) <= Budget(|seg|, depthLimit)
    decreases trace
  {
    hide Budget;
    match trace
    case Short(_) =>
    case Fallback(_) =>
    case Level(small, same, large, left, right) =>
      RunWork(less, small, Shrink(depthLimit), left);
      RunWork(less, large, Shrink(depthLimit), right);
      BudgetLevel(|seg|, |small|, |large|, depthLimit, Work(left), Work(right));
  }

  /** One level partitions `count` elements and leaves two disjoint parts for the levels below. */
  lemma BudgetLevel(count: nat, left: nat, right: nat, depthLimit: int, leftWork: nat, rightWork: nat)
    requires left + right <= count && depthLimit > 0
    requires leftWork <= Budget(left, Shrink(depthLimit)) && rightWork <= Budget(right, Shrink(depthLimit))
    ensures count + leftWork + rightWork <= Budget(count, depthLimit)
  {
    LevelsUnfold(depthLimit, Shrink(depthLimit));
    LevelWork(count, left, right, Levels(Shrink(depthLimit)), leftWork, rightWork);
  }

  lemma LevelWork(count: nat, left: nat, right: nat, k: nat, leftWork: nat, rightWork: nat)
    requires left + right <= count && leftWork <= left * k && rightWork <= right * k
    ensures count + leftWork + rightWork <= count * (1 + k)
  {
    MulDistributes(left, right, k);
    MulMonotone(left + right, count, k);
    MulDistributes(1, k, count);
  }

  // ---- how long a range must be to reach the fallback ----

  /** So many levels bring any range down to insertion length: two elements go at a level, four above 41. */
  function LevelsNeeded(count: nat): nat {
    if count <= INSERTION_SORT_MAX_SIZE then 0
    else if count <= MIDDLE_OF_3_THRESHOLD then (count - 31) / 2
    else 5 + (count - 41) / 4
  }

  lemma NeededShrinks(count: nat, part: nat)
    requires count > INSERTION_SORT_MAX_SIZE && part + Margin(count) <= count
    ensures LevelsNeeded(part) < LevelsNeeded(count)
  {
  }

  /** A range that needs no more levels than the limit allows never reaches the fallback. */
  lemma {:induction false} EnoughLevels<T>(less: (T, T) -> bool, seg: seq<T>, depthLimit: int, trace: Trace<T>)
    requires IsRun(less, seg, depthLimit, trace) && LevelsNeeded(|seg|) <= Levels(depthLimit)
    ensures NoFallback(trace)
    decreases trace
  {
    match trace
    case Short(_) =>
    case Fallback(_) => assert false;
    case Level(small, same, large, left, right) =>
      LevelsUnfold(depthLimit, Shrink(depthLimit));
      NeededShrinks(|seg|, |small|);
      NeededShrinks(|seg|, |large|);
      EnoughLevels(less, small, Shrink(depthLimit), left);
      EnoughLevels(less, large, Shrink(depthLimit), right);
  }

  /** The lengths at which every range reaches insertion length in time. */
  predicate LimitSuffices(count: nat) {
    count <= 68 || count == 72
  }

  lemma LimitSufficesIff(count: nat)
    ensures LimitSuffices(count) <==> LevelsNeeded(count) <= Levels(count)
  {
    hide Levels;
    LevelsTable();
    if 33 <= count {
      LevelsMonotone(33, count);
    }
    if 42 <= count {
      LevelsMonotone(42, count);
    }
    if 61 <= count {
      LevelsMonotone(61, count);
    }
    if 69 <= count <= 71 {
      LevelsMonotone(count, 71);
    }
    if 73 <= count {
      LongNeedsMore(count);
    }
  }

  lemma {:induction false} LongNeedsMore(count: nat)
    requires count >= 73
    ensures Levels(count) < LevelsNeeded(count)
  {
    hide Levels;
    LevelsTable();
    if count <= 76 {
      LevelsMonotone(count, 76);
    } else if count <= 96 {
      LevelsMonotone(count, 96);
    } else {
      LevelsUnfold(count, Shrink(count));
      if Shrink(count) >= 73 {
        LongNeedsMore(Shrink(count));
      }
    }
  }

  /** Long ranges shrink by far more than they lose at each level. */
  lemma {:induction false} LongLevels(count: nat)
    requires count >= 112
    ensures Levels(count) <= count / 8
  {
    hide Levels;
    LevelsTable();
    if count <= 149 {
      LevelsMonotone(count, 149);
    } else {
      LevelsUnfold(count, Shrink(count));
      LongLevels(Shrink(count));
    }
  }

  // ---- runs that keep their ranges short ----

  /** No level leaves more than three quarters of its range, less rounding, on a side. Halves are such. */
  predicate Balanced<T>(trace: Trace<T>) {
    match trace
    case Short(_) => true
    case Fallback(_) => true
    case Level(small, same, large, left, right) =>
      && 4 * |small| + 5 <= 3 * (|small| + |same| + |large|) && 4 * |large| + 5 <= 3 * (|small| + |same| + |large|)
      && Balanced(left) && Balanced(right)
  }

  /** Every level leaves at most half of its range on each side. */
  predicate Halves<T>(trace: Trace<T>) {
    match trace
    case Short(_) => true
    case Fallback(_) => true
    case Level(small, same, large, left, right) =>
      && 2 * |small| <= |small| + |same| + |large| && 2 * |large| <= |small| + |same| + |large|
      && Halves(left) && Halves(right)
  }

  lemma {:induction false} HalvesAreBalanced<T>(less: (T, T) -> bool, seg: seq<T>, depthLimit: int, trace: Trace<T>)
    requires IsRun(less, seg, depthLimit, trace) && Halves(trace)
    ensures Balanced(trace)
    decreases trace
  {
    match trace
    case Short(_) =>
    case Fallback(_) =>
    case Level(small, _, large, left, right) =>
      HalvesAreBalanced(less, small, Shrink(depthLimit), left);
      HalvesAreBalanced(less, large, Shrink(depthLimit), right);
  }

  /** At every length, a run that starts with its length as limit and stays balanced enters no fallback: the limit
      never falls below the length. */
  lemma {:induction false} BalancedNoFallback<T>(less: (T, T) -> bool, seg: seq<T>, depthLimit: int, trace: Trace<T>)
    requires IsRun(less, seg, depthLimit, trace) && |seg| <= depthLimit && Balanced(trace)
    ensures NoFallback(trace)
    decreases trace
  {
    match trace
    case Short(_) =>
    case Fallback(_) => assert false;
    case Level(small, same, large, left, right) =>
      ShrinkIsThreeQuarters(depthLimit);
      hide Shrink;
      BalancedNoFallback(less, small, Shrink(depthLimit), left);
      BalancedNoFallback(less, large, Shrink(depthLimit), right);
  }

  lemma SortedParts<T>(less: (T, T) -> bool, small: seq<T>, same: seq<T>, large: seq<T>)
    requires Sorted(less, small + same + large)
    ensures Sorted(less, small) && Sorted(less, large)
  {
    var t := small + same + large;
    assert forall i :: 0 <= i < |small| ==> t[i] == small[i];
    assert forall i :: 0 <= i < |large| ==> t[|small| + |same| + i] == large[i];
  }

  /** Every run on a sorted range halves it, level by level. */
  lemma {:induction false} SortedHalves<T>(less: (T, T) -> bool, seg: seq<T>, depthLimit: int, trace: Trace<T>)
    requires IsRun(less, seg, depthLimit, trace) && Sorted(less, seg)
    ensures Halves(trace)
    decreases trace
  {
    match trace
    case Short(_) =>
    case Fallback(_) =>
    case Level(small, same, large, left, right) =>
      SortedParts(less, small, same, large);
      hide Sorted;
      SortedHalves(less, small, Shrink(depthLimit), left);
      SortedHalves(less, large, Shrink(depthLimit), right);
  }

  // ---- the method's run, level by level ----

  /** A level of the loop: what was partitioned off, and the run of the recursive call on the right part. */
  datatype Done<T> = Done(small: seq<T>, same: seq<T>, large: seq<T>, right: Trace<T>)

  ghost predicate IsLevel<T>(less: (T, T) -> bool, seg: seq<T>, depthLimit: int, d: Done<T>) {
    && |seg| > INSERTION_SORT_MAX_SIZE && depthLimit > 0 && LevelOf(less, seg, d.small, d.same, d.large)
    && IsRun(less, d.large, Shrink(depthLimit), d.right)
  }

  /** The levels so far lead from the whole range `seg0` to the range `seg` still to be sorted. */
  ghost predicate Chain<T>(less: (T, T) -> bool, seg0: seq<T>, depthLimit0: int, levels: seq<Done<T>>, seg: seq<T>,
      depthLimit: int)
    decreases |levels|
  {
    if levels == [] then seg == seg0 && depthLimit == depthLimit0
    else
      && IsLevel(less, seg0, depthLimit0, levels[0])
      && Chain(less, levels[0].small, Shrink(depthLimit0), levels[1..], seg, depthLimit)
  }

  function Close<T>(levels: seq<Done<T>>, last: Trace<T>): Trace<T> {
    if levels == [] then last
    else Level(levels[0].small, levels[0].same, levels[0].large, Close(levels[1..], last), levels[0].right)
  }

  /** What the levels have put behind the range still to be sorted. */
  function Tail<T>(levels: seq<Done<T>>): seq<T> {
    if levels == [] then [] else Tail(levels[1..]) + (levels[0].same + Output(levels[0].right))
  }

  lemma {:induction false} ChainGrows<T>(less: (T, T) -> bool, seg0: seq<T>, depthLimit0: int, levels: seq<Done<T>>,
      seg: seq<T>, depthLimit: int, d: Done<T>)
    requires Chain(less, seg0, depthLimit0, levels, seg, depthLimit)
    requires IsLevel(less, seg, depthLimit, d)
    ensures Chain(less, seg0, depthLimit0, levels + [d], d.small, Shrink(depthLimit))
    ensures Tail(levels + [d]) == (d.same + Output(d.right)) + Tail(levels)
    decreases |levels|
  {
    hide IsLevel, Shrink, Output;
    var more, out := levels + [d], d.same + Output(d.right);
    if levels == [] {
      assert more[1..] == [] && Tail([]) + out == out && out + [] == out;
      assert Chain(less, seg, depthLimit, more, d.small, Shrink(depthLimit));
    } else {
      assert more[1..] == levels[1..] + [d];
      ChainGrows(less, levels[0].small, Shrink(depthLimit0), levels[1..], seg, depthLimit, d);
      Associate(out, Tail(levels[1..]), levels[0].same + Output(levels[0].right));
    }
  }

  lemma CloseOne<T>(less: (T, T) -> bool, seg: seq<T>, depthLimit: int, d: Done<T>, left: Trace<T>)
    requires IsLevel(less, seg, depthLimit, d) && IsRun(less, d.small, Shrink(depthLimit), left)
    ensures IsRun(less, seg, depthLimit, Level(d.small, d.same, d.large, left, d.right))
    ensures Output(Level(d.small, d.same, d.large, left, d.right)) == Output(left) + (d.same + Output(d.right))
  {
    hide LevelOf;
    Associate(Output(left), d.same, Output(d.right));
  }

  lemma {:induction false} ChainCloses<T>(less: (T, T) -> bool, seg0: seq<T>, depthLimit0: int, levels: seq<Done<T>>,
      seg: seq<T>, depthLimit: int, last: Trace<T>)
    requires Chain(less, seg0, depthLimit0, levels, seg, depthLimit) && IsRun(less, seg, depthLimit, last)
    ensures IsRun(less, seg0, depthLimit0, Close(levels, last))
    ensures Output(Close(levels, last)) == Output(last) + Tail(levels)
    decreases |levels|
  {
    if levels == [] {
      assert Output(last) + [] == Output(last);
    } else {
      ChainCloses(less, levels[0].small, Shrink(depthLimit0), levels[1..], seg, depthLimit, last);
      CloseOne(less, seg0, depthLimit0, levels[0], Close(levels[1..], last));
      hide *;
      Associate(Output(last), Tail(levels[1..]), levels[0].same + Output(levels[0].right));
    }
  }

  // ---- ranges of the array ----

  /** `t` is `s` with `out` in place of the range [first, last). */
  ghost predicate Replaced<T>(s: seq<T>, t: seq<T>, first: int, last: int, out: seq<T>) {
    && 0 <= first <= last <= |s| && |out| == last - first
    && t == s[..first] + out + s[last..]
  }

  lemma RearrangedReplaces<T>(s: seq<T>, t: seq<T>, first: int, last: int)
    requires Rearranged(s, t, first, last)
    ensures Replaced(s, t, first, last, t[first..last]) && multiset(t[first..last]) == multiset(s[first..last])
  {
    assert t == t[..first] + t[first..last] + t[last..];
  }

  lemma ReplacedTwice<T>(s: seq<T>, t: seq<T>, u: seq<T>, first: int, last: int, x: seq<T>, y: seq<T>)
    requires Replaced(s, t, first, last, x) && Replaced(t, u, first, last, y)
    ensures Replaced(s, u, first, last, y)
  {
    assert t[..first] == s[..first] && t[last..] == s[last..];
  }

  lemma ReplacedParts<T>(s: seq<T>, t: seq<T>, first: int, last: int, out: seq<T>)
    requires Replaced(s, t, first, last, out)
    ensures |t| == |s| && t[..first] == s[..first] && t[first..last] == out && t[last..] == s[last..]
  {
  }

  /** Nothing but [first, last0) has changed since `s0`, and [last, last0) holds `tail`. */
  ghost predicate Framed<T>(s0: seq<T>, s: seq<T>, first: int, last: int, last0: int, tail: seq<T>) {
    && 0 <= first <= last <= last0 <= |s0| == |s|
    && s[..first] == s0[..first] && s[last..last0] == tail && s[last0..] == s0[last0..]
  }

  /** A partition of the range and a run on its right part extend the tail. */
  lemma FramedStep<T>(s0: seq<T>, s: seq<T>, t: seq<T>, u: seq<T>, first: int, pf: int, pl: int, last: int, last0: int,
      tail: seq<T>, out: seq<T>)
    requires Framed(s0, s, first, last, last0, tail) && Rearranged(s, t, first, last)
    requires first <= pf <= pl <= last && Replaced(t, u, pl, last, out)
    ensures Framed(s0, u, first, pf, last0, (t[pf..pl] + out) + tail) && u[first..pf] == t[first..pf]
  {
    ReplacedParts(t, u, pl, last, out);
    assert t[..first] == s[..first] && t[last..] == s[last..];
    assert u[..first] == u[..pl][..first] && u[first..pf] == u[..pl][first..pf] && u[pf..pl] == u[..pl][pf..pl];
    assert u[last..last0] == u[last..][..last0 - last] && s[last..last0] == s[last..][..last0 - last];
    assert u[last0..] == u[last..][last0 - last..] && s[last0..] == s[last..][last0 - last..];
    assert u[pf..last0] == u[pf..pl] + u[pl..last] + u[last..last0];
  }

  lemma FramedEnd<T>(s0: seq<T>, s: seq<T>, t: seq<T>, first: int, last: int, last0: int, tail: seq<T>, out: seq<T>)
    requires Framed(s0, s, first, last, last0, tail) && Replaced(s, t, first, last, out)
    ensures Replaced(s0, t, first, last0, out + tail)
  {
    assert s[last..] == s[last..last0] + s[last0..];
  }

  /** What `Partition3` promises of the array is a level of the run. */
  lemma PartitionIsLevel<T(!new)>(less: (T, T) -> bool, s: seq<T>, t: seq<T>, first: int, pf: int, pl: int, last: int)
    requires Rearranged(s, t, first, last) && Partitioned(less, t, first, pf, pl, last)
    requires pl - first >= Margin(last - first) && last - pf >= Margin(last - first)
    requires Calm(less, s[first..last]) ==> InPlaceOrder(less, s[first..last], t, pl, last)
    requires SortedStays(less, s, t, first, pf, pl, last)
    ensures LevelOf(less, s[first..last], t[first..pf], t[pf..pl], t[pl..last])
  {
    hide Margin, Calm;
    var r := t[first..last];
    assert r == t[first..pf] + t[pf..pl] + t[pl..last];
    assert forall k :: 0 <= k < last - first ==> r[k] == t[first + k];
    SortedSlice(less, s, s[first..last], first);
  }

  // ---- the sort ----

  /** Lines 726-730: the heap of the range, sorted up to its last slot. */
  method HeapFallback<T(!new)>(a: array<T>, first: nat, last: nat, less: (T, T) -> bool) returns (ghost out: seq<T>)
    requires StrictWeakOrder(less) && first < last <= a.Length
    modifies a
    ensures Replaced(old(a[..]), a[..], first, last, out)
    ensures SortedButLast(less, Heaped(less, old(a[..])[first..last]), out, 0, last - first)
    ensures var heap := Heaped(less, old(a[..])[first..last]);
            Sorted(less, out) <==> Leq(less, heap[0], heap[last - first - 1])
  {
    hide IsMaxHeap, SortedBy, Rearranged, Replaced, SortedButLast;
    ghost var s := a[..];
    MakeMaxHeap(a, first, last, less);
    ghost var t := a[..];
    SortMaxHeap(a, first, last, less);
    out := a[..][first..last];
    SortedButLastRearranges(less, t, a[..], first, last);
    RearrangedReplaces(s, t, first, last);
    RearrangedReplaces(t, a[..], first, last);
    ReplacedTwice(s, t, a[..], first, last, t[first..last], out);
    SortedButLastSlice(less, t, a[..], first, last);
  }

  lemma SortedButLastSlice<T>(less: (T, T) -> bool, s: seq<T>, t: seq<T>, first: int, last: int)
    requires SortedButLast(less, s, t, first, last)
    ensures SortedButLast(less, s[first..last], t[first..last], 0, last - first)
    ensures Sorted(less, t[first..last]) <==> SortedBy(less, t, first, last)
  {
    var x, y := s[first..last], t[first..last];
    assert x[0..last - 1 - first] == s[first..last - 1] && y[0..last - 1 - first] == t[first..last - 1];
    assert x[last - 1 - first..] == [s[last - 1]] && y[last - 1 - first..] == [t[last - 1]];
    hide SortedBy;
    SortedSlice(less, t, y, first);
    SortedSlice(less, t, y[..last - 1 - first], first);
    SortedSlice(less, y, y[..last - 1 - first], 0);
  }

  /** The invariant of the main loop: `levels` lead from the whole range to [first, last), and the rest is done. */
  ghost predicate Progress<T>(less: (T, T) -> bool, s0: seq<T>, s: seq<T>, first: int, last: int, last0: int,
      depthLimit0: int, levels: seq<Done<T>>, depthLimit: int) {
    && Framed(s0, s, first, last, last0, Tail(levels))
    && Chain(less, s0[first..last0], depthLimit0, levels, s[first..last], depthLimit)
  }

  lemma ProgressStart<T>(less: (T, T) -> bool, s: seq<T>, first: int, last: int, depthLimit: int)
    requires 0 <= first <= last <= |s|
    ensures Progress(less, s, s, first, last, last, depthLimit, [], depthLimit)
  {
  }

  /** One round: a partition, and a run on its right part. */
  lemma ProgressStep<T(!new)>(less: (T, T) -> bool, s0: seq<T>, s: seq<T>, t: seq<T>, u: seq<T>, first: int, pf: int,
      pl: int, last: int, last0: int, depthLimit0: int, levels: seq<Done<T>>, depthLimit: int, right: Trace<T>)
    returns (done: Done<T>)
    requires Progress(less, s0, s, first, last, last0, depthLimit0, levels, depthLimit)
    requires last - first > INSERTION_SORT_MAX_SIZE && depthLimit > 0
    requires Rearranged(s, t, first, last) && Partitioned(less, t, first, pf, pl, last)
    requires pl - first >= Margin(last - first) && last - pf >= Margin(last - first)
    requires Calm(less, s[first..last]) ==> InPlaceOrder(less, s[first..last], t, pl, last)
    requires SortedStays(less, s, t, first, pf, pl, last)
    requires Replaced(t, u, pl, last, Output(right)) && IsRun(less, t[pl..last], Shrink(depthLimit), right)
    ensures Progress(less, s0, u, first, pf, last0, depthLimit0, levels + [done], Shrink(depthLimit))
  {
    hide Chain, IsRun, LevelOf, Calm, Margin, Tail, Output, Rearranged, Replaced, InPlaceOrder, SortedStays;
    PartitionBounds(less, t, first, pf, pl, last);
    PartitionIsLevel(less, s, t, first, pf, pl, last);
    done := Done(t[first..pf], t[pf..pl], t[pl..last], right);
    FramedStep(s0, s, t, u, first, pf, pl, last, last0, Tail(levels), Output(right));
    ChainGrows(less, s0[first..last0], depthLimit0, levels, s[first..last], depthLimit, done);
  }

  lemma ProgressEnd<T>(less: (T, T) -> bool, s0: seq<T>, s: seq<T>, t: seq<T>, first: int, last: int, last0: int,
      depthLimit0: int, levels: seq<Done<T>>, depthLimit: int, end: Trace<T>)
    requires Progress(less, s0, s, first, last, last0, depthLimit0, levels, depthLimit)
    requires Replaced(s, t, first, last, Output(end)) && IsRun(less, s[first..last], depthLimit, end)
    ensures Replaced(s0, t, first, last0, Output(Close(levels, end)))
    ensures IsRun(less, s0[first..last0], depthLimit0, Close(levels, end))
  {
    hide Chain, IsRun, Tail, Output, Replaced;
    FramedEnd(s0, s, t, first, last, last0, Tail(levels), Output(end));
    ChainCloses(less, s0[first..last0], depthLimit0, levels, s[first..last], depthLimit, end);
  }

  /** Sorts [first, last). The side test compares the left part's length with the nonpositive difference
      `partLast - last`, so the right part is always the one recursed into. */
  method InternalIntroSort<T(!new)>(a: array<T>, first: nat, last0: nat, depthLimit0: int, less: (T, T) -> bool)
    returns (ghost trace: Trace<T>)
    requires StrictWeakOrder(less) && first <= last0 <= a.Length
    modifies a
    ensures Replaced(old(a[..]), a[..], first, last0, Output(trace))
    ensures IsRun(less, old(a[..])[first..last0], depthLimit0, trace)
    decreases depthLimit0
  {
    hide Replaced, IsRun, Progress, Close, Output, Rearranged, Partitioned, Margin, Calm, InPlaceOrder, SortedStays;
    var last, depthLimit := last0, depthLimit0;
    ghost var s0 := a[..];
    ghost var levels: seq<Done<T>> := [];
    ProgressStart(less, s0, first, last0, depthLimit0);
    var count := last - first;
    while INSERTION_SORT_MAX_SIZE < count && 0 < depthLimit
      invariant first <= last <= last0 && count == last - first && depthLimit <= depthLimit0
      invariant Progress(less, s0, a[..], first, last, last0, depthLimit0, levels, depthLimit)
      decreases depthLimit
    {
      ghost var s := a[..];
      var partFirst, partLast := Partition3(a, first, last, less);
      ghost var t, d := a[..], depthLimit;
      PartitionBounds(less, t, first, partFirst, partLast, last);
      depthLimit := depthLimit / 2;
      depthLimit := depthLimit + depthLimit / 2;
      if partFirst - first < partLast - last {
        assert false;
      } else {
        ghost var right := InternalIntroSort(a, partLast, last, depthLimit, less);
        ghost var done :=
            ProgressStep(less, s0, s, t, a[..], first, partFirst, partLast, last, last0, depthLimit0, levels, d, right);
        levels := levels + [done];
        last := partFirst;
      }
      count := last - first;
    }
    ghost var u := a[..];
    ghost var end := FinishRange(a, first, last, depthLimit, less);
    ProgressEnd(less, s0, u, a[..], first, last, last0, depthLimit0, levels, depthLimit, end);
    trace := Close(levels, end);
  }

  lemma PartitionBounds<T>(less: (T, T) -> bool, s: seq<T>, first: int, pf: int, pl: int, last: int)
    requires Partitioned(less, s, first, pf, pl, last)
    ensures 0 <= first <= pf < pl <= last <= |s|
  {
  }

  /** Lines 726-756: what is left of the range goes to the heap or to the insertion sort. */
  method FinishRange<T(!new)>(a: array<T>, first: nat, last: nat, depthLimit: int, less: (T, T) -> bool)
    returns (ghost trace: Trace<T>)
    requires StrictWeakOrder(less) && first <= last <= a.Length
    requires last - first <= INSERTION_SORT_MAX_SIZE || depthLimit <= 0
    modifies a
    ensures Replaced(old(a[..]), a[..], first, last, Output(trace))
    ensures IsRun(less, old(a[..])[first..last], depthLimit, trace)
  {
    hide Rearranged, SortedBy, Replaced, Sorted;
    var count := last - first;
    ghost var s := a[..];
    if INSERTION_SORT_MAX_SIZE < count {
      ghost var out := HeapFallback(a, first, last, less);
      trace := Fallback(out);
    } else {
      if 1 < count {
        InsertionSort(a, first, last, less);
      } else {
        TrivialRange(less, s, first, last);
      }
      trace := Short(a[..][first..last]);
      RearrangedReplaces(s, a[..], first, last);
      SortedRange(less, a[..], first, last);
    }
  }

  lemma SortedRange<T>(less: (T, T) -> bool, s: seq<T>, first: int, last: int)
    requires 0 <= first <= last <= |s| && SortedBy(less, s, first, last)
    ensures Sorted(less, s[first..last])
  {
    SortedSlice(less, s, s[first..last], first);
  }

  lemma TrivialRange<T>(less: (T, T) -> bool, s: seq<T>, first: int, last: int)
    requires 0 <= first <= last <= first + 1 && last <= |s|
    ensures Rearranged(s, s, first, last) && SortedBy(less, s, first, last)
  {
  }

  /** Sorts [first, last) with a depth limit of its length. The range ends up sorted exactly when the heap of
      every fallback fits; it is always sorted at the lengths for which the limit suffices, and at every length when
      the run stays balanced, as it does on a range already sorted. */
  method IntroSort<T(!new)>(a: array<T>, first: nat, last: nat, less: (T, T) -> bool) returns (ghost trace: Trace<T>)
    requires StrictWeakOrder(less) && first <= last <= a.Length
    modifies a
    ensures Replaced(old(a[..]), a[..], first, last, Output(trace))
    ensures IsRun(less, old(a[..])[first..last], last - first, trace)
    ensures Rearranged(old(a[..]), a[..], first, last)
    ensures SortedBy(less, a[..], first, last) <==> HeapsFit(less, old(a[..])[first..last], trace)
    ensures LimitSuffices(last - first) ==> SortedBy(less, a[..], first, last)
    ensures Balanced(trace) ==> SortedBy(less, a[..], first, last)
    ensures SortedBy(less, old(a[..]), first, last) ==> SortedBy(less, a[..], first, last) && NoFallback(trace)
    ensures Work(trace) <= Budget(last - first, last - first)
  {
    hide Rearranged, SortedBy, Replaced, Output, Levels, Budget;
    ghost var s := a[..];
    trace := InternalIntroSort(a, first, last, last - first, less);
    RunConcludes(less, s, a[..], first, last, trace);
  }

  /** When a run that starts with its length as limit is certain to do without the fallback. */
  lemma WithoutFallback<T>(less: (T, T) -> bool, seg: seq<T>, trace: Trace<T>)
    requires IsRun(less, seg, |seg|, trace)
    ensures LimitSuffices(|seg|) || Balanced(trace) || Sorted(less, seg) ==> NoFallback(trace)
  {
    hide *;
    if LimitSuffices(|seg|) {
      LimitSufficesIff(|seg|);
      EnoughLevels(less, seg, |seg|, trace);
    }
    if Sorted(less, seg) {
      SortedHalves(less, seg, |seg|, trace);
      HalvesAreBalanced(less, seg, |seg|, trace);
    }
    if Balanced(trace) {
      BalancedNoFallback(less, seg, |seg|, trace);
    }
  }

  lemma RunConcludes<T(!new)>(less: (T, T) -> bool, s: seq<T>, t: seq<T>, first: int, last: int, trace: Trace<T>)
    requires StrictWeakOrder(less) && Replaced(s, t, first, last, Output(trace))
    requires 0 <= first <= last <= |s| && IsRun(less, s[first..last], last - first, trace)
    ensures Rearranged(s, t, first, last)
    ensures SortedBy(less, t, first, last) <==> HeapsFit(less, s[first..last], trace)
    ensures LimitSuffices(last - first) ==> SortedBy(less, t, first, last)
    ensures Balanced(trace) ==> SortedBy(less, t, first, last)
    ensures SortedBy(less, s, first, last) ==> SortedBy(less, t, first, last) && NoFallback(trace)
    ensures Work(trace) <= Budget(last - first, last - first)
  {
    hide IsRun, HeapsFit, SortedBy, Levels, Budget, Balanced, NoFallback, Sorted, Output;
    var seg := s[first..last];
    RunWork(less, seg, last - first, trace);
    RunPermutes(less, seg, last - first, trace);
    RunSortsIff(less, seg, last - first, trace);
    ReplacedParts(s, t, first, last, Output(trace));
    SortedSlice(less, t, Output(trace), first);
    SortedSlice(less, s, seg, first);
    WithoutFallback(less, seg, trace);
    if NoFallback(trace) {
      NoFallbackFits(less, seg, trace);
    }
  }
}
