/** Choosing the pivot of the introsort: the median of three elements, or the pseudo-median of nine. */
module Sampling {
  import opened Filters
  import opened Orders
  import opened Segments

  const MIDDLE_OF_3_THRESHOLD := 41

  lemma SwapTwiceRearranges<T>(s: seq<T>, i: nat, j: nat, i': nat, j': nat, lo: int, hi: int)
    requires 0 <= lo <= i < hi <= |s| && lo <= j < hi && lo <= i' < hi && lo <= j' < hi
    ensures Rearranged(s, Swapped(Swapped(s, i, j), i', j'), lo, hi)
  {
    hide Rearranged;
    SwapRearranges(s, i, j, lo, hi);
    SwapRearranges(Swapped(s, i, j), i', j', lo, hi);
    RearrangedTransitive(s, Swapped(s, i, j), Swapped(Swapped(s, i, j), i', j'), lo, hi);
  }

  /** The three elements put in order by at most three exchanges. */
  function Median3<T>(less: (T, T) -> bool, s: seq<T>, first: nat, mid: nat, last: nat): (t: seq<T>)
    requires first <= mid <= last < |s|
    ensures |t| == |s|
  {
    var s1 := if less(s[mid], s[first]) then Swapped(s, mid, first) else s;
    if less(s1[last], s1[mid]) then
      var s2 := Swapped(s1, last, mid);
      if less(s2[mid], s2[first]) then Swapped(s2, mid, first) else s2
    else
      s1
  }

  lemma Median3Ordered<T(!new)>(less: (T, T) -> bool, s: seq<T>, first: nat, mid: nat, last: nat)
    requires StrictWeakOrder(less) && first <= mid <= last < |s|
    ensures var t := Median3(less, s, first, mid, last);
            Leq(less, t[first], t[mid]) && Leq(less, t[mid], t[last])
  {
    var s1 := if less(s[mid], s[first]) then Swapped(s, mid, first) else s;
    var x, y, z := s1[first], s1[mid], s1[last];
    assert Triple(x, y, x) && Triple(y, x, y) && Triple(z, y, z) && Triple(z, x, y) && Triple(z, y, x);
    assert Triple(s[mid], s[first], s[mid]) && Triple(x, z, x);
  }

  lemma Median3Rearranges<T>(less: (T, T) -> bool, s: seq<T>, first: nat, mid: nat, last: nat, lo: int, hi: int)
    requires 0 <= lo <= first <= mid <= last < hi <= |s|
    ensures Rearranged(s, Median3(less, s, first, mid, last), lo, hi)
  {
    hide Rearranged, Swapped;
    var s1 := if less(s[mid], s[first]) then Swapped(s, mid, first) else s;
    RearrangedReflexive(s, lo, hi);
    SwapRearranges(s, mid, first, lo, hi);
    SwapRearranges(s1, last, mid, lo, hi);
    SwapTwiceRearranges(s1, last, mid, mid, first, lo, hi);
    RearrangedTransitive(s, s1, Swapped(s1, last, mid), lo, hi);
    RearrangedTransitive(s, s1, Swapped(Swapped(s1, last, mid), mid, first), lo, hi);
  }

  lemma Median3Permutes<T>(less: (T, T) -> bool, s: seq<T>, first: nat, mid: nat, last: nat)
    requires first < mid < last < |s|
    ensures var t := Median3(less, s, first, mid, last);
            && |t| == |s| && (forall k :: 0 <= k < |s| && k != first && k != mid && k != last ==> t[k] == s[k])
            && Permuted(s[first], s[mid], s[last], t[first], t[mid], t[last])
  {
  }

  /** Puts the three elements in order. */
  method MedianOf3<T(!new)>(a: array<T>, first: nat, mid: nat, last: nat, less: (T, T) -> bool)
    requires StrictWeakOrder(less) && first <= mid <= last < a.Length
    modifies a
    ensures a[..] == Median3(less, old(a[..]), first, mid, last)
    ensures Leq(less, a[first], a[mid]) && Leq(less, a[mid], a[last])
  {
    Median3Ordered(less, a[..], first, mid, last);
    if less(a[mid], a[first]) {
      Swap(a, mid, first);
    }
    if less(a[last], a[mid]) {
      Swap(a, last, mid);
      if less(a[mid], a[first]) {
        Swap(a, mid, first);
      }
    }
  }

  /** The range after its samples have been put in order; the pivot is the middle element. */
  function Sampled<T>(less: (T, T) -> bool, s: seq<T>, first: nat, last: nat): seq<T>
    requires first < last <= |s|
  {
    var mid := first + (last - first) / 2;
    if MIDDLE_OF_3_THRESHOLD < last - first then
      var step := (last - first) / 8;
      var s1 := Median3(less, s, first, first + step, first + 2 * step);
      var s2 := Median3(less, s1, mid - step, mid, mid + step);
      var s3 := Median3(less, s2, last - 2 * step - 1, last - step - 1, last - 1);
      Median3(less, s3, first + step, mid, last - step - 1)
    else
      Median3(less, s, first, mid, last - 1)
  }

  /** Moves candidate pivots into the middle slot. */
  method SamplePivot<T(!new)>(a: array<T>, first: nat, mid: nat, last: nat, less: (T, T) -> bool)
    requires StrictWeakOrder(less) && first < last <= a.Length && mid == first + (last - first) / 2
    modifies a
    ensures a[..] == Sampled(less, old(a[..]), first, last)
  {
    hide Median3;
    if MIDDLE_OF_3_THRESHOLD < last - first {
      var step := (last - first) / 8;
      MedianOf3(a, first, first + step, first + 2 * step, less);
      MedianOf3(a, mid - step, mid, mid + step, less);
      MedianOf3(a, last - 2 * step - 1, last - step - 1, last - 1, less);
      MedianOf3(a, first + step, mid, last - step - 1, less);
    } else {
      MedianOf3(a, first, mid, last - 1, less);
    }
  }

  lemma SampledRearranges<T>(less: (T, T) -> bool, s: seq<T>, first: nat, last: nat)
    requires first < last <= |s|
    ensures Rearranged(s, Sampled(less, s, first, last), first, last)
  {
    hide Rearranged, Median3;
    var mid := first + (last - first) / 2;
    if MIDDLE_OF_3_THRESHOLD < last - first {
      var step := (last - first) / 8;
      var s1 := Median3(less, s, first, first + step, first + 2 * step);
      var s2 := Median3(less, s1, mid - step, mid, mid + step);
      var s3 := Median3(less, s2, last - 2 * step - 1, last - step - 1, last - 1);
      Median3Rearranges(less, s, first, first + step, first + 2 * step, first, last);
      Median3Rearranges(less, s1, mid - step, mid, mid + step, first, last);
      Median3Rearranges(less, s2, last - 2 * step - 1, last - step - 1, last - 1, first, last);
      Median3Rearranges(less, s3, first + step, mid, last - step - 1, first, last);
      RearrangedTransitive(s, s1, s2, first, last);
      RearrangedTransitive(s, s2, s3, first, last);
      RearrangedTransitive(s, s3, Sampled(less, s, first, last), first, last);
    } else {
      Median3Rearranges(less, s, first, mid, last - 1, first, last);
    }
  }

  // ---- the rank of the pivot ----

  /** So many elements, the pivot among them, are certainly not greater than the pivot, and as many not less. */
  function Margin(count: nat): nat {
    if MIDDLE_OF_3_THRESHOLD < count then 4 else if 3 <= count then 2 else 1
  }

  function GreaterThan<T>(less: (T, T) -> bool, p: T): T -> bool {
    x => less(p, x)
  }

  function LessThan<T>(less: (T, T) -> bool, p: T): T -> bool {
    x => less(x, p)
  }

  /** Three places in order. */
  ghost predicate OrderedAt<T>(less: (T, T) -> bool, s: seq<T>, x: int, y: int, z: int) {
    0 <= x < y < z < |s| && Leq(less, s[x], s[y]) && Leq(less, s[y], s[z])
  }

  lemma Median3Orders<T(!new)>(less: (T, T) -> bool, s: seq<T>, first: nat, mid: nat, last: nat)
    requires StrictWeakOrder(less) && first < mid < last < |s|
    ensures OrderedAt(less, Median3(less, s, first, mid, last), first, mid, last)
  {
    Median3Ordered(less, s, first, mid, last);
  }

  lemma Median3Keeps<T>(less: (T, T) -> bool, s: seq<T>, first: nat, mid: nat, last: nat, x: int, y: int, z: int)
    requires first < mid < last < |s| && OrderedAt(less, s, x, y, z)
    requires {x, y, z} !! {first, mid, last}
    ensures OrderedAt(less, Median3(less, s, first, mid, last), x, y, z)
  {
    Median3Permutes(less, s, first, mid, last);
  }

  /** The outer samples of three ordered triples, when the medians have been put in order among themselves. */
  ghost predicate Nine<T>(less: (T, T) -> bool, s: seq<T>, t: seq<T>, first: int, mid: int, last: int, step: int) {
    && 5 <= step && 0 <= first && first + 2 * step < mid - step && mid + step < last - 2 * step - 1
    && last <= |s| == |t|
    && OrderedAt(less, s, first, first + step, first + 2 * step)
    && OrderedAt(less, s, mid - step, mid, mid + step)
    && OrderedAt(less, s, last - 2 * step - 1, last - step - 1, last - 1)
    && OrderedAt(less, t, first + step, mid, last - step - 1)
    && t == Median3(less, s, first + step, mid, last - step - 1)
  }

  lemma SampledNine<T(!new)>(less: (T, T) -> bool, s: seq<T>, first: nat, last: nat) returns (s3: seq<T>)
    requires StrictWeakOrder(less) && first < last <= |s| && MIDDLE_OF_3_THRESHOLD < last - first
    ensures Nine(less, s3, Sampled(less, s, first, last), first, first + (last - first) / 2, last, (last - first) / 8)
  {
    hide Median3, StrictWeakOrder, OrderedAt;
    var mid, step := first + (last - first) / 2, (last - first) / 8;
    var s1 := Median3(less, s, first, first + step, first + 2 * step);
    var s2 := Median3(less, s1, mid - step, mid, mid + step);
    s3 := Median3(less, s2, last - 2 * step - 1, last - step - 1, last - 1);
    ThreeTriples(less, s, first, first + step, first + 2 * step, mid - step, mid, mid + step,
      last - 2 * step - 1, last - step - 1, last - 1);
    Median3Orders(less, s3, first + step, mid, last - step - 1);
  }

  lemma ThreeTriples<T(!new)>(less: (T, T) -> bool, s: seq<T>, x: nat, y: nat, z: nat, u: nat, v: nat, w: nat, i: nat,
      j: nat, k: nat)
    requires StrictWeakOrder(less) && x < y < z < u < v < w < i < j < k < |s|
    ensures var t := Median3(less, Median3(less, Median3(less, s, x, y, z), u, v, w), i, j, k);
            OrderedAt(less, t, x, y, z) && OrderedAt(less, t, u, v, w) && OrderedAt(less, t, i, j, k)
  {
    hide Median3, StrictWeakOrder, OrderedAt;
    var s1 := Median3(less, s, x, y, z);
    var s2 := Median3(less, s1, u, v, w);
    Median3Orders(less, s, x, y, z);
    Median3Orders(less, s1, u, v, w);
    Median3Keeps(less, s1, u, v, w, x, y, z);
    Median3Orders(less, s2, i, j, k);
    Median3Keeps(less, s2, i, j, k, x, y, z);
    Median3Keeps(less, s2, i, j, k, u, v, w);
  }

  /** Four places are not greater than the pivot: two of the medians, and what stands below them. */
  lemma NineLow<T(!new)>(less: (T, T) -> bool, s: seq<T>, t: seq<T>, first: int, mid: int, last: int, step: int)
    returns (low: seq<int>)
    requires StrictWeakOrder(less) && Nine(less, s, t, first, mid, last, step)
    ensures |low| == 4 && Ascending(low)
    ensures forall i :: 0 <= i < 4 ==> first <= low[i] < last && Leq(less, t[low[i]], t[mid])
  {
    Median3Permutes(less, s, first + step, mid, last - step - 1);
    LeqReflexive(less, t[mid]);
    var x, y, z := s[first + step], s[mid], s[last - step - 1];
    if !Leq(less, x, t[mid]) {
      LeqTransitive(less, t[mid - step], y, t[mid]);
      LeqTransitive(less, t[last - 2 * step - 1], z, t[mid]);
      low := [first + step, mid - step, mid, last - 2 * step - 1];
    } else {
      LeqTransitive(less, t[first], x, t[mid]);
      if Leq(less, y, t[mid]) {
        LeqTransitive(less, t[mid - step], y, t[mid]);
        low := [first, first + step, mid - step, mid];
      } else {
        LeqTransitive(less, t[last - 2 * step - 1], z, t[mid]);
        low := [first, first + step, mid, last - 2 * step - 1];
      }
    }
  }

  /** And four are not less. */
  lemma NineHigh<T(!new)>(less: (T, T) -> bool, s: seq<T>, t: seq<T>, first: int, mid: int, last: int, step: int)
    returns (high: seq<int>)
    requires StrictWeakOrder(less) && Nine(less, s, t, first, mid, last, step)
    ensures |high| == 4 && Ascending(high)
    ensures forall i :: 0 <= i < 4 ==> first <= high[i] < last && Leq(less, t[mid], t[high[i]])
  {
    Median3Permutes(less, s, first + step, mid, last - step - 1);
    LeqReflexive(less, t[mid]);
    var x, y, z := s[first + step], s[mid], s[last - step - 1];
    if !Leq(less, t[mid], x) {
      LeqTransitive(less, t[mid], y, t[mid + step]);
      LeqTransitive(less, t[mid], z, t[last - 1]);
      high := [mid, mid + step, last - step - 1, last - 1];
    } else {
      LeqTransitive(less, t[mid], x, t[first + 2 * step]);
      if Leq(less, t[mid], y) {
        LeqTransitive(less, t[mid], y, t[mid + step]);
        high := [first + 2 * step, mid, mid + step, last - step - 1];
      } else {
        LeqTransitive(less, t[mid], z, t[last - 1]);
        high := [first + 2 * step, mid, last - step - 1, last - 1];
      }
    }
  }

  lemma ShortRank<T(!new)>(less: (T, T) -> bool, s: seq<T>, first: nat, last: nat)
    returns (low: seq<int>, high: seq<int>)
    requires StrictWeakOrder(less) && first < last <= |s| && last - first <= MIDDLE_OF_3_THRESHOLD
    ensures var t, p := Sampled(less, s, first, last), first + (last - first) / 2;
            && |low| == |high| == Margin(last - first) && Ascending(low) && Ascending(high)
            && (forall i :: 0 <= i < |low| ==> first <= low[i] < last && Leq(less, t[low[i]], t[p]))
            && (forall i :: 0 <= i < |high| ==> first <= high[i] < last && Leq(less, t[p], t[high[i]]))
  {
    hide Median3;
    var t, mid := Sampled(less, s, first, last), first + (last - first) / 2;
    LeqReflexive(less, t[mid]);
    if 3 <= last - first {
      Median3Ordered(less, s, first, mid, last - 1);
      low, high := [first, mid], [mid, last - 1];
    } else {
      low, high := [mid], [mid];
    }
  }

  /** The rank that sampling secures: `Margin` places of the range are not greater than the pivot,
      and as many not less. */
  lemma SampledRank<T(!new)>(less: (T, T) -> bool, s: seq<T>, first: nat, last: nat)
    returns (low: seq<int>, high: seq<int>)
    requires StrictWeakOrder(less) && first < last <= |s|
    ensures var t, p := Sampled(less, s, first, last), first + (last - first) / 2;
            && |t| == |s| && |low| == |high| == Margin(last - first) && Ascending(low) && Ascending(high)
            && (forall i :: 0 <= i < |low| ==> first <= low[i] < last && Leq(less, t[low[i]], t[p]))
            && (forall i :: 0 <= i < |high| ==> first <= high[i] < last && Leq(less, t[p], t[high[i]]))
  {
    var t, mid := Sampled(less, s, first, last), first + (last - first) / 2;
    if MIDDLE_OF_3_THRESHOLD < last - first {
      var s3 := SampledNine(less, s, first, last);
      hide Sampled;
      low := NineLow(less, s3, t, first, mid, last, (last - first) / 8);
      high := NineHigh(less, s3, t, first, mid, last, (last - first) / 8);
    } else {
      hide *;
      low, high := ShortRank(less, s, first, last);
    }
  }

  // ---- samples already in order ----

  predicate InOrder<T>(less: (T, T) -> bool, x: T, y: T, z: T) {
    Leq(less, x, y) && Leq(less, y, z)
  }

  predicate SamplesInOrder<T>(less: (T, T) -> bool, seg: seq<T>)
    requires seg != []
  {
    var n, mid := |seg|, |seg| / 2;
    if MIDDLE_OF_3_THRESHOLD < n then
      var step := n / 8;
      && InOrder(less, seg[0], seg[step], seg[2 * step])
      && InOrder(less, seg[mid - step], seg[mid], seg[mid + step])
      && InOrder(less, seg[n - 2 * step - 1], seg[n - step - 1], seg[n - 1])
      && InOrder(less, seg[step], seg[mid], seg[n - step - 1])
    else
      InOrder(less, seg[0], seg[mid], seg[n - 1])
  }

  /** The samples are in order, and everything right of the middle is greater than the middle. */
  ghost predicate Calm<T>(less: (T, T) -> bool, seg: seq<T>) {
    && seg != [] && SamplesInOrder(less, seg)
    && forall k :: |seg| / 2 < k < |seg| ==> less(seg[|seg| / 2], seg[k])
  }

  lemma Median3Still<T>(less: (T, T) -> bool, s: seq<T>, first: nat, mid: nat, last: nat)
    requires first <= mid <= last < |s| && InOrder(less, s[first], s[mid], s[last])
    ensures Median3(less, s, first, mid, last) == s
  {
  }

  lemma SliceStill<T>(less: (T, T) -> bool, s: seq<T>, first: nat, last: nat, x: nat, y: nat, z: nat)
    requires first < last <= |s| && x <= y <= z < last - first
    requires InOrder(less, s[first..last][x], s[first..last][y], s[first..last][z])
    ensures Median3(less, s, first + x, first + y, first + z) == s
  {
    Median3Still(less, s, first + x, first + y, first + z);
  }

  lemma CalmSampling<T>(less: (T, T) -> bool, s: seq<T>, first: nat, last: nat)
    requires first < last <= |s| && Calm(less, s[first..last])
    ensures Sampled(less, s, first, last) == s
  {
    hide Median3, InOrder;
    var n, mid := last - first, (last - first) / 2;
    if MIDDLE_OF_3_THRESHOLD < n {
      var step := n / 8;
      SliceStill(less, s, first, last, 0, step, 2 * step);
      SliceStill(less, s, first, last, mid - step, mid, mid + step);
      SliceStill(less, s, first, last, n - 2 * step - 1, n - step - 1, n - 1);
      SliceStill(less, s, first, last, step, mid, n - step - 1);
      assert first + (n - 1) == last - 1 && first + (n - step - 1) == last - step - 1
          && first + (n - 2 * step - 1) == last - 2 * step - 1;
    } else {
      SliceStill(less, s, first, last, 0, mid, n - 1);
    }
  }

  // ---- ranges already sorted ----

  lemma SortedSampling<T(!new)>(less: (T, T) -> bool, s: seq<T>, first: nat, last: nat)
    requires StrictWeakOrder(less) && first < last <= |s| && SortedBy(less, s, first, last)
    ensures Sampled(less, s, first, last) == s
  {
    hide Median3, StrictWeakOrder, SortedBy;
    var mid := first + (last - first) / 2;
    if MIDDLE_OF_3_THRESHOLD < last - first {
      var step := (last - first) / 8;
      SortedStill(less, s, first, last, first, first + step, first + 2 * step);
      SortedStill(less, s, first, last, mid - step, mid, mid + step);
      SortedStill(less, s, first, last, last - 2 * step - 1, last - step - 1, last - 1);
      SortedStill(less, s, first, last, first + step, mid, last - step - 1);
    } else {
      SortedStill(less, s, first, last, first, mid, last - 1);
    }
  }

  lemma SortedStill<T(!new)>(less: (T, T) -> bool, s: seq<T>, first: nat, last: nat, x: nat, y: nat, z: nat)
    requires StrictWeakOrder(less) && last <= |s| && SortedBy(less, s, first, last) && first <= x <= y <= z < last
    ensures Median3(less, s, x, y, z) == s
  {
    LeqReflexive(less, s[y]);
    Median3Still(less, s, x, y, z);
  }
}
