/** The explicit-stack quicksort over three parallel arrays. Control flow depends on the keys in
    `x` alone; `w` and `z` follow every move. Rows are the triples at one position. */
module QuickSort {
  import opened Arith
  import opened Filters
  import opened Multisets
  import opened Orders
  import opened Segments

  const M := 7
  const NSTACK := 128

  // ---- rows ----

  function Zip<W, Z>(xs: seq<real>, ws: seq<W>, zs: seq<Z>): (rows: seq<(real, W, Z)>)
    requires |xs| == |ws| == |zs|
  {
    seq(|xs|, i requires 0 <= i < |xs| => (xs[i], ws[i], zs[i]))
  }

  ghost function Rows<W, Z>(x: array<real>, w: array<W>, z: array<Z>): (rows: seq<(real, W, Z)>)
    requires x.Length == w.Length == z.Length
    reads x, w, z
    ensures |rows| == x.Length
  {
    Zip(x[..], w[..], z[..])
  }

  ghost predicate Parallel<W, Z>(x: array<real>, w: array<W>, z: array<Z>) {
    && x.Length == w.Length == z.Length
    && x as object != w as object && x as object != z as object && w as object != z as object
  }

  /** Rows compare by key. */
  function KeyLess<W, Z>(): ((real, W, Z), (real, W, Z)) -> bool {
    (r: (real, W, Z), s: (real, W, Z)) => r.0 < s.0
  }

  method SwapRows<W, Z>(x: array<real>, w: array<W>, z: array<Z>, i: nat, j: nat)
    requires Parallel(x, w, z) && i < x.Length && j < x.Length
    modifies x, w, z
    ensures Rows(x, w, z) == Swapped(old(Rows(x, w, z)), i, j)
    ensures x[..] == Swapped(old(x[..]), i, j)
  {
    Swap(x, i, j);
    Swap(w, i, j);
    Swap(z, i, j);
  }

  // ---- short segments: lines 455-477 ----

  method InsertionSort<W, Z>(x: array<real>, w: array<W>, z: array<Z>, l: nat, ir: int)
    requires Parallel(x, w, z) && l <= ir + 1 <= x.Length
    modifies x, w, z
    ensures Rearranged(old(Rows(x, w, z)), Rows(x, w, z), l, ir + 1)
    ensures SortedBy(KeyLess(), Rows(x, w, z), l, ir + 1)
  {
    hide Rearranged, Inserted, Rows;
    ghost var s0 := Rows(x, w, z);
    RearrangedReflexive(s0, l, ir + 1);
    var j := l + 1;
    while j <= ir
      invariant l < j && (j <= ir + 1 || ir <= l)
      invariant |Rows(x, w, z)| == |s0|
      invariant Rearranged(s0, Rows(x, w, z), l, ir + 1)
      invariant SortedBy(KeyLess(), Rows(x, w, z), l, if j <= ir + 1 then j else ir + 1)
    {
      ghost var s := Rows(x, w, z);
      ghost var r := InsertRow(x, w, z, l, j);
      InsertedRearranges(s, l, r, j);
      RearrangedWiden(s, Rows(x, w, z), l, j + 1, l, ir + 1);
      RearrangedTransitive(s0, s, Rows(x, w, z), l, ir + 1);
      j := j + 1;
    }
  }

  /** One round of the insertion sort: row `j` moves down past every row with a larger key. */
  method InsertRow<W, Z>(x: array<real>, w: array<W>, z: array<Z>, l: nat, j: nat) returns (ghost r: nat)
    requires Parallel(x, w, z) && l < j < x.Length
    requires SortedBy(KeyLess(), Rows(x, w, z), l, j)
    modifies x, w, z
    ensures l <= r <= j && Rows(x, w, z) == Inserted(old(Rows(x, w, z)), r, j)
    ensures SortedBy(KeyLess(), Rows(x, w, z), l, j + 1)
  {
    hide Inserted, Rows, Shifted;
    ghost var s := Rows(x, w, z);
    var a, b, c := x[j], w[j], z[j];
    RowsAt(x, w, z, j);
    ShiftedStart(s, j);
    var i := j - 1;
    while i >= l
      invariant l - 1 <= i < j
      invariant Shifted(s, Rows(x, w, z), i + 1, j)
      invariant forall k :: i < k < j ==> a < s[k].0
    {
      ShiftedStep(s, Rows(x, w, z), i + 1, j);
      RowsAt(x, w, z, i);
      if x[i] <= a {
        break;
      }
      PutRow(x, w, z, i + 1, x[i], w[i], z[i]);
      i := i - 1;
    }
    FillSlot(s, Rows(x, w, z), i + 1, j);
    PutRow(x, w, z, i + 1, a, b, c);
    r := i + 1;
    InsertedKeysSorted(s, l, r, j);
  }

  lemma RowsAt<W, Z>(x: array<real>, w: array<W>, z: array<Z>, k: nat)
    requires x.Length == w.Length == z.Length && k < x.Length
    ensures Rows(x, w, z)[k] == (x[k], w[k], z[k])
  {
  }

  method PutRow<W, Z>(x: array<real>, w: array<W>, z: array<Z>, i: nat, a: real, b: W, c: Z)
    requires Parallel(x, w, z) && i < x.Length
    modifies x, w, z
    ensures Rows(x, w, z) == old(Rows(x, w, z))[i := (a, b, c)]
  {
    x[i] := a;
    w[i] := b;
    z[i] := c;
  }

  lemma InsertedKeysSorted<W, Z>(s: seq<(real, W, Z)>, l: nat, r: nat, j: nat)
    requires l <= r <= j < |s| && SortedBy(KeyLess(), s, l, j)
    requires l < r ==> s[r - 1].0 <= s[j].0
    requires forall k :: r <= k < j ==> s[j].0 < s[k].0
    ensures SortedBy(KeyLess(), Inserted(s, r, j), l, j + 1)
  {
    assert forall k :: l <= k < r ==> Leq(KeyLess(), s[k], s[r - 1]);
  }

  // ---- partitioning: lines 489-536 ----

  /** Exchanges two rows whose keys are out of order. */
  method OrderRows<W, Z>(x: array<real>, w: array<W>, z: array<Z>, i: nat, j: nat)
    requires Parallel(x, w, z) && i < j < x.Length
    modifies x, w, z
    ensures Rows(x, w, z) == old(Rows(x, w, z)) || Rows(x, w, z) == Swapped(old(Rows(x, w, z)), i, j)
    ensures x[i] <= x[j]
    ensures (x[i] == old(x[i]) && x[j] == old(x[j])) || (x[i] == old(x[j]) && x[j] == old(x[i]))
    ensures forall k :: 0 <= k < x.Length && k != i && k != j ==> x[k] == old(x[k])
  {
    if x[i] > x[j] {
      SwapRows(x, w, z, i, j);
      assert forall k :: 0 <= k < x.Length ==> x[k] == x[..][k] == Swapped(old(x[..]), i, j)[k];
    }
  }

  /** The middle one of three keys. */
  function MedianKey(a: real, b: real, c: real): real {
    if a <= b then (if b <= c then b else if a <= c then c else a)
    else if a <= c then a else if b <= c then c else b
  }

  lemma MedianInOrder(a: real, b: real, c: real, u: real, v: real, w: real)
    requires u <= v <= w && Permuted(a, b, c, u, v, w)
    ensures v == MedianKey(a, b, c)
  {
  }

  /** Lines 493-510: rows l, l + 1, ir are put in order. */
  method OrderThree<W, Z>(x: array<real>, w: array<W>, z: array<Z>, l: nat, ir: nat)
    requires Parallel(x, w, z) && l + 2 <= ir < x.Length
    modifies x, w, z
    ensures Rearranged(old(Rows(x, w, z)), Rows(x, w, z), l, ir + 1)
    ensures x[l] <= x[l + 1] <= x[ir]
    ensures Permuted(old(x[l]), old(x[l + 1]), old(x[ir]), x[l], x[l + 1], x[ir])
  {
    hide Rearranged, Swapped, Rows, Leq;
    ghost var s1 := Rows(x, w, z);
    RearrangedReflexive(s1, l, ir + 1);
    OrderRows(x, w, z, l, ir);
    SwapOnward(s1, s1, Rows(x, w, z), l, ir, l, ir + 1);
    ghost var s2 := Rows(x, w, z);
    OrderRows(x, w, z, l + 1, ir);
    SwapOnward(s1, s2, Rows(x, w, z), l + 1, ir, l, ir + 1);
    ghost var s3 := Rows(x, w, z);
    OrderRows(x, w, z, l, l + 1);
    SwapOnward(s1, s3, Rows(x, w, z), l, l + 1, l, ir + 1);
  }

  /** The middle row goes to l + 1, and rows l, l + 1, ir are put in order. */
  method MedianToFront<W, Z>(x: array<real>, w: array<W>, z: array<Z>, l: nat, ir: nat)
    requires Parallel(x, w, z) && l + 2 <= ir < x.Length && l + ir <= INT_MAX
    modifies x, w, z
    ensures Rearranged(old(Rows(x, w, z)), Rows(x, w, z), l, ir + 1)
    ensures x[l] <= x[l + 1] <= x[ir]
    ensures x[l + 1] == MedianKey(old(x[l]), old(x[(l + ir) / 2]), old(x[ir]))
  {
    hide Rearranged, Swapped, Rows, MedianKey, Permuted;
    ghost var s0 := Rows(x, w, z);
    RearrangedReflexive(s0, l, ir + 1);
    var k := (l + ir) / 2;
    ghost var a, b, c := x[l], x[k], x[ir];
    SwapToFront(x[..], k, l, ir);
    SwapRows(x, w, z, k, l + 1);
    assert x[..][l] == a && x[..][l + 1] == b && x[..][ir] == c;
    SwapOnward(s0, s0, Rows(x, w, z), k, l + 1, l, ir + 1);
    ghost var s1 := Rows(x, w, z);
    OrderThree(x, w, z, l, ir);
    RearrangedTransitive(s0, s1, Rows(x, w, z), l, ir + 1);
    MedianInOrder(a, b, c, x[l], x[l + 1], x[ir]);
  }

  lemma SwapToFront(s: seq<real>, k: nat, l: nat, ir: nat)
    requires l + 2 <= ir < |s| && k == (l + ir) / 2
    ensures var t := Swapped(s, k, l + 1); t[l] == s[l] && t[l + 1] == s[k] && t[ir] == s[ir]
  {
  }

  /** One more exchange, or none, within a segment. */
  lemma SwapOnward<T>(s0: seq<T>, s: seq<T>, t: seq<T>, i: nat, j: nat, lo: int, hi: int)
    requires Rearranged(s0, s, lo, hi) && lo <= i < hi && lo <= j < hi <= |s|
    requires t == s || t == Swapped(s, i, j)
    ensures Rearranged(s0, t, lo, hi)
  {
    SwapRearranges(s, i, j, lo, hi);
    RearrangedTransitive(s0, s, Swapped(s, i, j), lo, hi);
  }

  /** `while (x[++i] < a);` stops at the first later key that is not smaller; `stop` is such a key's place. */
  method ScanUp(x: array<real>, i0: nat, a: real, ghost stop: nat) returns (i: nat)
    requires i0 < stop < x.Length && x[stop] >= a
    ensures i0 < i <= stop && x[i] >= a
    ensures forall k :: i0 < k < i ==> x[k] < a
  {
    i := i0 + 1;
    while x[i] < a
      invariant i0 < i <= stop
      invariant forall k :: i0 < k < i ==> x[k] < a
      decreases stop - i
    {
      i := i + 1;
    }
  }

  method ScanDown(x: array<real>, j0: nat, a: real, ghost stop: nat) returns (j: nat)
    requires stop < j0 < x.Length && x[stop] <= a
    ensures stop <= j < j0 && x[j] <= a
    ensures forall k :: j < k < j0 ==> x[k] > a
  {
    j := j0 - 1;
    while x[j] > a
      invariant stop <= j < j0
      invariant forall k :: j < k < j0 ==> x[k] > a
      decreases j
    {
      j := j - 1;
    }
  }

  /** Rows l and l + 1 hold keys up to the pivot's, keys in (l + 1, i] are at most `a` and keys in
      [j, ir] at least `a`. */
  ghost predicate Split<W, Z>(s: seq<(real, W, Z)>, a: real, l: int, i: int, j: int, ir: int) {
    && 0 <= l && l + 1 <= i <= ir < |s| && l + 1 <= j <= ir
    && s[l].0 <= a && s[l + 1].0 == a
    && (forall k :: l + 1 <= k <= i ==> s[k].0 <= a)
    && (forall k :: j <= k <= ir ==> s[k].0 >= a)
  }

  /** Rows [j, i) are in their final places within [l, ir]. */
  ghost predicate Pivoted<W, Z>(s: seq<(real, W, Z)>, l: int, j: int, i: int, ir: int) {
    && 0 <= l < j < i <= ir < |s|
    && (forall p, q :: l <= p < i && j <= q <= ir ==> s[p].0 <= s[q].0)
  }

  /** Row j holds the pivot key, and so do all rows between j and i. */
  ghost predicate PivotBetween<W, Z>(s: seq<(real, W, Z)>, a: real, j: int, i: int) {
    0 <= j < i <= |s| && forall k :: j <= k < i ==> s[k].0 == a
  }

  /** The scans of one round, from (i0, j0): both stop inside the segment. */
  method ScanBoth<W, Z>(x: array<real>, w: array<W>, z: array<Z>, a: real, ghost l: nat, i0: nat, j0: nat,
      ghost ir: nat)
    returns (i: nat, j: nat)
    requires Parallel(x, w, z) && Split(Rows(x, w, z), a, l, i0, j0, ir)
    requires i0 < j0 || (l + 2 <= i0 == j0 < ir)
    ensures i0 < i <= ir && l + 1 <= j < j0
    ensures forall k :: l + 1 <= k < i ==> x[k] <= a
    ensures forall k :: j < k <= ir ==> x[k] >= a
    ensures x[j] <= a <= x[i]
  {
    ghost var s := Rows(x, w, z);
    assert forall k :: 0 <= k < x.Length ==> s[k].0 == x[k];
    i := ScanUp(x, i0, a, if i0 < j0 then j0 else j0 + 1);
    assert i0 < j0 ==> x[i - 1] <= a;
    j := ScanDown(x, j0, a, if i0 < j0 then i - 1 else i0 - 1);
  }

  /** Lines 511-536: partitions rows [l, ir] around the key at l + 1. */
  method PartitionRows<W, Z>(x: array<real>, w: array<W>, z: array<Z>, l: nat, ir: nat) returns (i: nat, j: nat)
    requires Parallel(x, w, z) && l + 2 <= ir < x.Length && x[l] <= x[l + 1] <= x[ir]
    modifies x, w, z
    ensures Rearranged(old(Rows(x, w, z)), Rows(x, w, z), l, ir + 1)
    ensures Pivoted(Rows(x, w, z), l, j, i, ir) && PivotBetween(Rows(x, w, z), old(x[l + 1]), j, i)
  {
    hide Rearranged, Swapped, Rows, Split, Pivoted, PivotBetween;
    ghost var s0 := Rows(x, w, z);
    RearrangedReflexive(s0, l, ir + 1);
    i, j := l + 1, ir;
    var a, b, c := x[l + 1], w[l + 1], z[l + 1];
    RowsAt(x, w, z, l); RowsAt(x, w, z, l + 1); RowsAt(x, w, z, ir);
    SplitStart(s0, a, l, ir);
    while true
      invariant l + 1 <= i <= j <= ir && (i < j || (l + 2 <= i && j < ir))
      invariant Split(Rows(x, w, z), a, l, i, j, ir)
      invariant Rearranged(s0, Rows(x, w, z), l, ir + 1)
      invariant Rows(x, w, z)[l + 1] == (a, b, c)
      decreases j - i
    {
      ghost var s := Rows(x, w, z);
      SplitFacts(s, a, l, i, j, ir);
      i, j := ScanBoth(x, w, z, a, l, i, j, ir);
      ScannedRows(x, w, z, s, a, l, i, j, ir);
      if j < i {
        break;
      }
      SwapRows(x, w, z, i, j);
      SplitStep(s, a, l, i, j, ir);
      SwapOnward(s0, s, Rows(x, w, z), i, j, l, ir + 1);
    }
    ghost var s := Rows(x, w, z);
    PlacePivot(x, w, z, l, j, a, b, c);
    SwapOnward(s0, s, Rows(x, w, z), l + 1, j, l, ir + 1);
    PivotPlaced(s, a, l, i, j, ir);
  }

  /** Lines 530-536. */
  method PlacePivot<W, Z>(x: array<real>, w: array<W>, z: array<Z>, l: nat, j: nat, a: real, b: W, c: Z)
    requires Parallel(x, w, z) && l + 1 < x.Length && j < x.Length && Rows(x, w, z)[l + 1] == (a, b, c)
    modifies x, w, z
    ensures Rows(x, w, z) == Swapped(old(Rows(x, w, z)), l + 1, j)
  {
    hide Rows, Swapped;
    ghost var s := Rows(x, w, z);
    RowsAt(x, w, z, j);
    PutRow(x, w, z, l + 1, x[j], w[j], z[j]);
    PutRow(x, w, z, j, a, b, c);
    PutTwoIsSwap(s, Rows(x, w, z), l + 1, j);
  }

  lemma PutTwoIsSwap<T>(s: seq<T>, t: seq<T>, i: nat, j: nat)
    requires i < |s| && j < |s| && t == s[i := s[j]][j := s[i]]
    ensures t == Swapped(s, i, j)
  {
  }

  lemma SplitStart<W, Z>(s: seq<(real, W, Z)>, a: real, l: int, ir: int)
    requires 0 <= l && l + 2 <= ir < |s| && s[l].0 <= a == s[l + 1].0 <= s[ir].0
    ensures Split(s, a, l, l + 1, ir, ir)
  {
  }

  lemma SplitFacts<W, Z>(s: seq<(real, W, Z)>, a: real, l: int, i: int, j: int, ir: int)
    requires Split(s, a, l, i, j, ir)
    ensures 0 <= l && l + 1 <= i <= ir < |s| && s[l].0 <= a && s[l + 1].0 == a
  {
  }

  /** What the two scans found, in terms of rows. */
  ghost predicate BothScanned<W, Z>(s: seq<(real, W, Z)>, a: real, l: int, i: int, j: int, ir: int) {
    && 0 <= l && l + 1 < i <= ir < |s| && l + 1 <= j < ir
    && s[l].0 <= a && s[l + 1].0 == a && s[j].0 <= a <= s[i].0
    && (forall k :: l + 1 <= k < i ==> s[k].0 <= a)
    && (forall k :: j < k <= ir ==> s[k].0 >= a)
  }

  lemma ScannedRows<W, Z>(x: array<real>, w: array<W>, z: array<Z>, s: seq<(real, W, Z)>, a: real, l: nat, i: nat,
      j: nat, ir: nat)
    requires x.Length == w.Length == z.Length && s == Rows(x, w, z)
    requires l + 1 < i <= ir < |s| && l + 1 <= j < ir && s[l].0 <= a && s[l + 1].0 == a
    requires forall k :: l + 1 <= k < i ==> x[k] <= a
    requires forall k :: j < k <= ir ==> x[k] >= a
    requires x[j] <= a <= x[i]
    ensures BothScanned(s, a, l, i, j, ir)
  {
    assert forall k :: 0 <= k < x.Length ==> s[k].0 == x[k];
  }

  lemma SplitStep<W, Z>(s: seq<(real, W, Z)>, a: real, l: int, i: int, j: int, ir: int)
    requires BothScanned(s, a, l, i, j, ir) && i <= j
    ensures Split(Swapped(s, i, j), a, l, i, j, ir) && Swapped(s, i, j)[l + 1] == s[l + 1]
  {
  }

  /** After the scans have crossed, the pivot row takes place `j`. */
  lemma PivotPlaced<W, Z>(s: seq<(real, W, Z)>, a: real, l: int, i: int, j: int, ir: int)
    requires BothScanned(s, a, l, i, j, ir) && j < i
    ensures Pivoted(Swapped(s, l + 1, j), l, j, i, ir) && PivotBetween(Swapped(s, l + 1, j), a, j, i)
  {
    var t := Swapped(s, l + 1, j);
    assert forall p :: l <= p < i ==> t[p].0 <= a;
    assert forall q :: j <= q <= ir ==> t[q].0 >= a;
  }

  // ---- segments still to sort ----

  /** A segment [lo, hi], both ends inclusive. */
  datatype Segment = Segment(lo: int, hi: int) {
    function Size(): int {
      hi - lo + 1
    }
  }

  ghost predicate Covers(g: Segment, p: int, q: int) {
    g.lo <= p && q <= g.hi
  }

  /** Every two positions are in order unless one pending segment covers both. */
  ghost predicate SortedExcept<W, Z>(s: seq<(real, W, Z)>, segs: seq<Segment>) {
    forall p, q :: 0 <= p < q < |s| ==> s[p].0 <= s[q].0 || exists t :: 0 <= t < |segs| && Covers(segs[t], p, q)
  }

  ghost predicate Disjoint(g: Segment, h: Segment) {
    g.hi < h.lo || h.hi < g.lo
  }

  ghost predicate Separate(segs: seq<Segment>, n: int) {
    && (forall t :: 0 <= t < |segs| ==> 0 <= segs[t].lo <= segs[t].hi + 1 <= n)
    && (forall t, u :: 0 <= t < u < |segs| ==> Disjoint(segs[t], segs[u]))
  }

  /** Rearranging the last segment keeps everything else in order. */
  lemma RearrangeLast<W, Z>(s: seq<(real, W, Z)>, t: seq<(real, W, Z)>, segs: seq<Segment>, cur: Segment)
    requires SortedExcept(s, segs + [cur]) && Separate(segs + [cur], |s|)
    requires Rearranged(s, t, cur.lo, cur.hi + 1)
    ensures SortedExcept(t, segs + [cur])
  {
    hide Rearranged;
    var all := segs + [cur];
    forall p, q | 0 <= p < q < |t|
      ensures t[p].0 <= t[q].0 || exists u :: 0 <= u < |all| && Covers(all[u], p, q)
    {
      if cur.lo <= p && q <= cur.hi {
        assert Covers(all[|segs|], p, q);
      } else {
        var p' := Origin(s, t, cur, p);
        var q' := Origin(s, t, cur, q);
        if !(s[p'].0 <= s[q'].0) {
          var u :| 0 <= u < |all| && Covers(all[u], p', q');
          assert u < |segs| ==> Disjoint(all[u], cur) by {
            assert all[|segs|] == cur;
          }
          assert Covers(all[u], p, q);
        }
      }
    }
  }

  /** A place that held, before the rearrangement of `cur`, what `k` holds now. */
  lemma Origin<W, Z>(s: seq<(real, W, Z)>, t: seq<(real, W, Z)>, cur: Segment, k: int) returns (k': int)
    requires Rearranged(s, t, cur.lo, cur.hi + 1) && 0 <= k < |t|
    ensures 0 <= k' < |s| == |t| && s[k'] == t[k]
    ensures if cur.lo <= k <= cur.hi then cur.lo <= k' <= cur.hi else k' == k
  {
    if cur.lo <= k <= cur.hi {
      k' := RearrangedOrigin(s, t, cur.lo, cur.hi + 1, k);
    } else {
      k' := k;
      RearrangedOutside(s, t, cur.lo, cur.hi + 1, k);
    }
  }

  /** A sorted segment is no longer pending. */
  lemma DropSorted<W, Z>(s: seq<(real, W, Z)>, segs: seq<Segment>, cur: Segment)
    requires SortedExcept(s, segs + [cur]) && Separate(segs + [cur], |s|)
    requires SortedBy(KeyLess(), s, cur.lo, cur.hi + 1)
    ensures SortedExcept(s, segs) && Separate(segs, |s|)
  {
    var all := segs + [cur];
    forall p, q | 0 <= p < q < |s| && !(s[p].0 <= s[q].0)
      ensures exists t :: 0 <= t < |segs| && Covers(segs[t], p, q)
    {
      assert all[|segs|] == cur;
      assert Covers(cur, p, q) ==> Leq(KeyLess(), s[p], s[q]);
      var t :| 0 <= t < |all| && Covers(all[t], p, q);
      assert Covers(segs[t], p, q);
    }
    forall t | 0 <= t < |segs|
      ensures segs[t] == all[t]
    {
    }
  }

  /** A partitioned segment is replaced by its two sides, in either order. */
  lemma SplitLast<W, Z>(s: seq<(real, W, Z)>, segs: seq<Segment>, cur: Segment, j: int, i: int, big: Segment,
      small: Segment)
    requires SortedExcept(s, segs + [cur]) && Separate(segs + [cur], |s|)
    requires Pivoted(s, cur.lo, j, i, cur.hi)
    requires {big, small} == {Segment(cur.lo, j - 1), Segment(i, cur.hi)}
    ensures SortedExcept(s, segs + [big, small]) && Separate(segs + [big, small], |s|)
  {
    var all, new' := segs + [cur], segs + [big, small];
    assert new'[|segs|] == big && new'[|segs| + 1] == small;
    assert forall t :: 0 <= t < |segs| ==> new'[t] == all[t] == segs[t];
    assert all[|segs|] == cur;
    assert (big == Segment(cur.lo, j - 1) && small == Segment(i, cur.hi))
        || (small == Segment(cur.lo, j - 1) && big == Segment(i, cur.hi)) by {
      assert Segment(cur.lo, j - 1) in {big, small} && Segment(i, cur.hi) in {big, small};
      assert Segment(cur.lo, j - 1) != Segment(i, cur.hi);
    }
    forall p, q | 0 <= p < q < |s| && !(s[p].0 <= s[q].0)
      ensures exists t :: 0 <= t < |new'| && Covers(new'[t], p, q)
    {
      var t :| 0 <= t < |all| && Covers(all[t], p, q);
      if t < |segs| {
        assert Covers(new'[t], p, q);
      } else {
        assert Covers(new'[|segs|], p, q) || Covers(new'[|segs| + 1], p, q);
      }
    }
    SeparateSplit(segs, cur, big, small, |s|);
  }

  lemma SeparateSplit(segs: seq<Segment>, cur: Segment, big: Segment, small: Segment, n: int)
    requires Separate(segs + [cur], n) && Disjoint(big, small)
    requires cur.lo <= big.lo <= big.hi + 1 && big.hi <= cur.hi && cur.lo <= small.lo <= small.hi + 1
        && small.hi <= cur.hi
    ensures Separate(segs + [big, small], n)
  {
    var all, new' := segs + [cur], segs + [big, small];
    forall t | 0 <= t < |new'|
      ensures 0 <= new'[t].lo <= new'[t].hi + 1 <= n
    {
      assert t < |segs| ==> new'[t] == all[t];
      assert all[|segs|] == cur;
    }
    forall t, u | 0 <= t < u < |new'|
      ensures Disjoint(new'[t], new'[u])
    {
      if t < |segs| {
        assert new'[t] == all[t] && Disjoint(all[t], all[|segs|]);
        assert u < |segs| ==> new'[u] == all[u];
      }
    }
  }

  lemma AllSorted<W, Z>(s: seq<(real, W, Z)>)
    requires SortedExcept(s, [])
    ensures SortedBy(KeyLess(), s, 0, |s|)
  {
  }

  // ---- depth of the stack, and termination ----

  /** A segment `t` places above the bottom has at most n / 2^t rows. */
  ghost predicate Halving(segs: seq<Segment>, n: nat) {
    forall t :: 0 <= t < |segs| ==> segs[t].Size() * Pow2(t) <= n
  }

  /** Pushing the larger side and keeping the smaller one keeps the sizes halving. */
  lemma HalvingSplit(segs: seq<Segment>, cur: Segment, big: Segment, small: Segment, n: nat)
    requires Halving(segs + [cur], n)
    requires 0 <= small.Size() <= big.Size() && big.Size() + small.Size() <= cur.Size()
    ensures Halving(segs + [big, small], n)
  {
    var all, new', m := segs + [cur], segs + [big, small], |segs|;
    forall t | 0 <= t < |new'|
      ensures new'[t].Size() * Pow2(t) <= n
    {
      if t < m {
        assert new'[t] == all[t];
      } else {
        assert all[m] == cur;
        MulMonotone(big.Size(), cur.Size(), Pow2(m));
        MulMonotone(2 * small.Size(), cur.Size(), Pow2(m));
        MulAssociates(small.Size(), 2, Pow2(m));
        assert Pow2(m + 1) == 2 * Pow2(m);
      }
    }
  }

  lemma HalvingPrefix(segs: seq<Segment>, cur: Segment, n: nat)
    requires Halving(segs + [cur], n)
    ensures Halving(segs, n)
  {
    assert forall t :: 0 <= t < |segs| ==> segs[t] == (segs + [cur])[t];
  }

  /** A segment long enough to be partitioned lies at most log2(n) - 3 places above the bottom. */
  lemma DepthBound(segs: seq<Segment>, cur: Segment, n: nat)
    requires Halving(segs + [cur], n) && cur.Size() > M
    ensures n >= 8 && |segs| + 1 <= Log2(n) - 2
  {
    var m := |segs|;
    assert (segs + [cur])[m] == cur;
    MulMonotone(8, cur.Size(), Pow2(m));
    Pow2Sum(3, m);
    assert Pow2(3) == 8;
    Log2IsLargest(n, m + 3);
  }

  /** For every length an `int` can index, the partitioned segments need at most 56 of the 128 slots. */
  lemma StackSuffices(n: nat)
    requires 8 <= n <= INT_MAX
    ensures 2 <= 2 * (Log2(n) - 2) <= 56 < NSTACK
  {
    assert Pow2(3) == 8 && Pow2(15) == 0x8000 && Pow2(16) == 0x1_0000;
    hide Pow2, Log2;
    Pow2Sum(16, 15);
    Log2IsLargest(n, 3);
    Log2IsLargest(n, 31);
  }

  ghost function TotalSize(segs: seq<Segment>): int {
    if segs == [] then 0 else segs[|segs| - 1].Size() + TotalSize(segs[..|segs| - 1])
  }

  lemma TotalAppend(segs: seq<Segment>, cur: Segment)
    ensures TotalSize(segs + [cur]) == TotalSize(segs) + cur.Size()
  {
    assert (segs + [cur])[..|segs|] == segs;
  }

  lemma TotalAppendTwo(segs: seq<Segment>, big: Segment, small: Segment)
    ensures TotalSize(segs + [big, small]) == TotalSize(segs) + big.Size() + small.Size()
  {
    assert segs + [big, small] == (segs + [big]) + [small];
    TotalAppend(segs, big);
    TotalAppend(segs + [big], small);
  }

  lemma {:induction false} TotalNonnegative(segs: seq<Segment>, n: int)
    requires Separate(segs, n)
    ensures TotalSize(segs) >= 0
  {
    if segs != [] {
      var init := segs[..|segs| - 1];
      assert forall t :: 0 <= t < |init| ==> init[t] == segs[t];
      TotalNonnegative(init, n);
    }
  }

  /** What partitioning a segment leaves: the rows are rearranged around the median of three keys. */
  ghost predicate SplitAtMedian<W, Z>(s0: seq<(real, W, Z)>, s: seq<(real, W, Z)>, l: int, j: int, i: int, ir: int) {
    && 0 <= l <= ir < |s0| && Rearranged(s0, s, l, ir + 1) && Pivoted(s, l, j, i, ir)
    && PivotBetween(s, MedianKey(s0[l].0, s0[(l + ir) / 2].0, s0[ir].0), j, i)
  }

  /** The side that is partitioned next: the smaller one. */
  function NextSegment(l: int, j: int, i: int, ir: int): Segment {
    if ir - i + 1 >= j - l then Segment(l, j - 1) else Segment(i, ir)
  }

  /** The side that is stacked. */
  function LaterSegment(l: int, j: int, i: int, ir: int): Segment {
    if ir - i + 1 >= j - l then Segment(i, ir) else Segment(l, j - 1)
  }

  /** For lengths up to 2^30 + 4, `l + ir` fits an `int` in every segment long enough to be partitioned. */
  lemma MidpointFits(n: nat, l: int, ir: int)
    requires n <= 0x4000_0004 && 0 <= l && l + M <= ir < n
    ensures l + ir <= INT_MAX
  {
  }

  /** The identity with the keys at the middle and at n - 9 exchanged. */
  function OverflowRows(n: nat): (s: seq<(real, int, int)>)
    requires n >= 20
    ensures |s| == n
  {
    seq(n, k requires 0 <= k < n => (OverflowKey(n, k) as real, 0, 0))
  }

  function OverflowKey(n: nat, k: nat): int {
    if k == (n - 1) / 2 then n - 9 else if k == n - 9 then (n - 1) / 2 else k
  }

  lemma OverflowDistinct(n: nat)
    requires n >= 20
    ensures Distinct(OverflowRows(n))
  {
  }

  function KeyUnder(a: real): ((real, int, int)) -> bool {
    (r: (real, int, int)) => r.0 < a
  }

  function KeyFrom(a: real): ((real, int, int)) -> bool {
    (r: (real, int, int)) => r.0 >= a
  }

  /** n - 9 of its keys are smaller than n - 9. */
  lemma OverflowCounts(n: nat)
    requires n >= 20
    ensures |Filter(KeyUnder((n - 9) as real), OverflowRows(n))| <= n - 9
    ensures |Filter(KeyFrom((n - 9) as real), OverflowRows(n))| <= 9
  {
    var s, mid := OverflowRows(n), (n - 1) / 2;
    FilterMisses(KeyUnder((n - 9) as real), s, [mid, n - 8, n - 7, n - 6, n - 5, n - 4, n - 3, n - 2, n - 1]);
    FilterMisses(KeyFrom((n - 9) as real), s, seq(n - 9, i => if i < mid then i else i + 1));
  }

  /** Whatever the first partition does to these rows, the pivot ends in row n - 9, and the last eight rows are
      partitioned next. */
  lemma OverflowSplits(n: nat, s: seq<(real, int, int)>, j: int, i: int)
    requires n >= 20 && SplitAtMedian(OverflowRows(n), s, 0, j, i, n - 1)
    ensures j == n - 9 && i == n - 8 && NextSegment(0, j, i, n - 1) == Segment(n - 8, n - 1)
  {
    var s0, a := OverflowRows(n), (n - 9) as real;
    assert s0[0..n] == s0 && s[0..n] == s;
    assert MedianKey(s0[0].0, s0[(n - 1) / 2].0, s0[n - 1].0) == a;
    OverflowDistinct(n);
    DistinctRearranged(s0, s);
    OnlyZeros(s0, s);
    forall k | 0 <= k < n && k != j
      ensures if k < j then s[k].0 < a else s[k].0 > a
    {
      assert s[k] != s[j];
    }
    assert i > j + 1 ==> s[j + 1].0 == a;
    OverflowCounts(n);
    CountsPlace(s0, s, a, j);
  }

  lemma OnlyZeros(s0: seq<(real, int, int)>, s: seq<(real, int, int)>)
    requires multiset(s0) == multiset(s) && forall k :: 0 <= k < |s0| ==> s0[k].1 == 0 && s0[k].2 == 0
    ensures forall k :: 0 <= k < |s| ==> s[k].1 == 0 && s[k].2 == 0
  {
    SameElements(s0, s);
    forall k | 0 <= k < |s|
      ensures s[k].1 == 0 && s[k].2 == 0
    {
      assert s[k] in s0;
    }
  }

  lemma CountsPlace(s0: seq<(real, int, int)>, s: seq<(real, int, int)>, a: real, j: nat)
    requires multiset(s0) == multiset(s) && j < |s|
    requires forall k :: 0 <= k < |s| ==> (k < j <==> s[k].0 < a)
    ensures |Filter(KeyUnder(a), s0)| == j && |Filter(KeyFrom(a), s0)| == |s| - j
  {
    PrefixCount(KeyUnder(a), s, j);
    SuffixCount(KeyFrom(a), s, j);
    FilterSize(KeyUnder(a), s0, s);
    FilterSize(KeyFrom(a), s0, s);
  }

  lemma PrefixCount<T>(f: T -> bool, s: seq<T>, j: nat)
    requires j <= |s| && forall k :: 0 <= k < |s| ==> (k < j <==> f(s[k]))
    ensures |Filter(f, s)| == j
  {
    assert s == s[..j] + s[j..];
    FilterConcat(f, s[..j], s[j..]);
    FilterAll(f, s[..j]);
    FilterNone(f, s[j..]);
  }

  lemma SuffixCount<T>(f: T -> bool, s: seq<T>, j: nat)
    requires j <= |s| && forall k :: 0 <= k < |s| ==> (k >= j <==> f(s[k]))
    ensures |Filter(f, s)| == |s| - j
  {
    assert s == s[..j] + s[j..];
    FilterConcat(f, s[..j], s[j..]);
    FilterNone(f, s[..j]);
    FilterAll(f, s[j..]);
  }

  /** The partition does happen: putting the two keys back is one. */
  lemma OverflowHappens(n: nat)
    requires n >= 20
    ensures SplitAtMedian(OverflowRows(n), Swapped(OverflowRows(n), (n - 1) / 2, n - 9), 0, n - 9, n - 8, n - 1)
  {
    var s0 := OverflowRows(n);
    SwapRearranges(s0, (n - 1) / 2, n - 9, 0, n);
    hide Rearranged;
    var s := Swapped(s0, (n - 1) / 2, n - 9);
    assert forall k :: 0 <= k < n ==> s[k].0 == k as real;
  }

  // ---- the invariant of the main loop ----

  ghost predicate Working<W, Z>(s0: seq<(real, W, Z)>, s: seq<(real, W, Z)>, segs: seq<Segment>, cur: Segment) {
    && |s| == |s0| && multiset(s) == multiset(s0)
    && SortedExcept(s, segs + [cur])
    && Separate(segs + [cur], |s|)
    && Halving(segs + [cur], |s|)
  }

  lemma WorkingStart<W, Z>(s: seq<(real, W, Z)>)
    ensures Working(s, s, [], Segment(0, |s| - 1))
  {
    var all := [] + [Segment(0, |s| - 1)];
    assert all[0] == Segment(0, |s| - 1);
    assert forall p, q :: 0 <= p < q < |s| ==> Covers(all[0], p, q);
  }

  lemma WorkingBounds<W, Z>(s0: seq<(real, W, Z)>, s: seq<(real, W, Z)>, segs: seq<Segment>, cur: Segment)
    requires Working(s0, s, segs, cur)
    ensures 0 <= cur.lo <= cur.hi + 1 <= |s|
  {
    assert (segs + [cur])[|segs|] == cur;
  }

  lemma WorkingRows<W, Z>(s0: seq<(real, W, Z)>, s: seq<(real, W, Z)>, segs: seq<Segment>, cur: Segment)
    requires Working(s0, s, segs, cur)
    ensures multiset(s) == multiset(s0)
  {
  }

  lemma RearrangedMultiset<T>(s: seq<T>, t: seq<T>, lo: int, hi: int)
    requires Rearranged(s, t, lo, hi)
    ensures |s| == |t| && multiset(s) == multiset(t)
  {
    assert s == s[..lo] + s[lo..hi] + s[hi..];
    assert t == t[..lo] + t[lo..hi] + t[hi..];
  }

  /** A short segment has been sorted; the topmost stacked one becomes current. */
  lemma WorkingPop<W, Z>(s0: seq<(real, W, Z)>, s: seq<(real, W, Z)>, t: seq<(real, W, Z)>, segs: seq<Segment>,
      cur: Segment)
    requires Working(s0, s, segs, cur) && Rearranged(s, t, cur.lo, cur.hi + 1)
    requires SortedBy(KeyLess(), t, cur.lo, cur.hi + 1)
    ensures segs == [] ==> multiset(t) == multiset(s0) && SortedBy(KeyLess(), t, 0, |t|)
    ensures segs != [] ==>
      && Working(s0, t, segs[..|segs| - 1], segs[|segs| - 1])
      && TotalSize(segs) == TotalSize(segs[..|segs| - 1] + [segs[|segs| - 1]]) <= TotalSize(segs + [cur])
  {
    hide Rearranged, SortedBy, SortedExcept;
    RearrangedMultiset(s, t, cur.lo, cur.hi + 1);
    RearrangeLast(s, t, segs, cur);
    DropSorted(t, segs, cur);
    HalvingPrefix(segs, cur, |s|);
    TotalAppend(segs, cur);
    WorkingBounds(s0, s, segs, cur);
    if segs == [] {
      AllSorted(t);
    } else {
      assert segs == segs[..|segs| - 1] + [segs[|segs| - 1]];
    }
  }

  /** A segment has been partitioned: the larger side is stacked, the smaller becomes current. */
  lemma WorkingPush<W, Z>(s0: seq<(real, W, Z)>, s: seq<(real, W, Z)>, t: seq<(real, W, Z)>, segs: seq<Segment>,
      cur: Segment, j: int, i: int, big: Segment, small: Segment)
    requires Working(s0, s, segs, cur) && Rearranged(s, t, cur.lo, cur.hi + 1) && Pivoted(t, cur.lo, j, i, cur.hi)
    requires {big, small} == {Segment(cur.lo, j - 1), Segment(i, cur.hi)} && small.Size() <= big.Size()
    requires 0 <= small.Size() && big.Size() + small.Size() < cur.Size()
    ensures Working(s0, t, segs + [big], small)
    ensures 0 <= TotalSize((segs + [big]) + [small]) < TotalSize(segs + [cur])
  {
    hide Rearranged, SortedExcept, Pivoted;
    RearrangedMultiset(s, t, cur.lo, cur.hi + 1);
    RearrangeLast(s, t, segs, cur);
    SplitLast(t, segs, cur, j, i, big, small);
    HalvingSplit(segs, cur, big, small, |s|);
    TotalAppend(segs, cur);
    TotalAppendTwo(segs, big, small);
    assert segs + [big, small] == (segs + [big]) + [small];
    TotalNonnegative(segs + [big, small], |s|);
  }

  /** The bounds of the stacked segments, low end first, as the data type stores them. */
  ghost predicate Stacked(stack: seq<real>, segs: seq<Segment>, toFP: int -> real) {
    && 2 * |segs| <= |stack|
    && forall t {:trigger segs[t]} :: 0 <= t < |segs| ==>
        stack[2 * t] == toFP(segs[t].lo) && stack[2 * t + 1] == toFP(segs[t].hi)
  }

  lemma StackedPush(stack: seq<real>, segs: seq<Segment>, toFP: int -> real, g: Segment)
    requires Stacked(stack, segs, toFP) && 2 * |segs| + 1 < |stack|
    ensures Stacked(stack[2 * |segs| + 1 := toFP(g.hi)][2 * |segs| := toFP(g.lo)], segs + [g], toFP)
  {
  }

  /** Every row index survives being stored in the key's floating-point type. */
  ghost predicate Representable(toFP: int -> real, n: nat) {
    forall v :: 0 <= v < n ==> toFP(v) == v as real
  }

  lemma TopOfStack(stack: seq<real>, segs: seq<Segment>, toFP: int -> real, n: nat)
    requires Stacked(stack, segs, toFP) && segs != [] && Representable(toFP, n)
    requires var g := segs[|segs| - 1]; 0 <= g.lo < n && 0 <= g.hi < n
    ensures stack[2 * |segs| - 1].Floor == segs[|segs| - 1].hi
    ensures stack[2 * |segs| - 2].Floor == segs[|segs| - 1].lo
    ensures Stacked(stack, segs[..|segs| - 1], toFP)
  {
    var t := |segs| - 1;
    assert stack[2 * t] == toFP(segs[t].lo) && stack[2 * t + 1] == toFP(segs[t].hi);
  }

  lemma EmptyStack(stack: seq<real>, toFP: int -> real)
    ensures Stacked(stack, [], toFP)
  {
  }

  lemma PivotBounds<W, Z>(s: seq<(real, W, Z)>, l: int, j: int, i: int, ir: int)
    requires Pivoted(s, l, j, i, ir)
    ensures 0 <= l < j < i <= ir < |s|
  {
  }

  lemma WorkingTotal<W, Z>(s0: seq<(real, W, Z)>, s: seq<(real, W, Z)>, segs: seq<Segment>, cur: Segment)
    requires Working(s0, s, segs, cur)
    ensures TotalSize(segs + [cur]) >= 0 && Halving(segs + [cur], |s|) && |s| == |s0|
  {
    TotalNonnegative(segs + [cur], |s|);
  }

  // ---- runs ----

  /** Where the main loop is: the rows, the stacked segments and the current one. */
  datatype Stage<!W, !Z> = Stage(rows: seq<(real, W, Z)>, segs: seq<Segment>, cur: Segment)

  /** A segment too short to be partitioned has no midpoint. */
  predicate SegmentFits(g: Segment) {
    g.Size() > M ==> g.lo + g.hi <= INT_MAX
  }

  /** A short segment is sorted, and the topmost stacked one taken. */
  ghost predicate Pops<W, Z>(s: Stage<W, Z>, t: Stage<W, Z>) {
    && s.segs != [] && s.cur.Size() <= M
    && Rearranged(s.rows, t.rows, s.cur.lo, s.cur.hi + 1) && SortedBy(KeyLess(), t.rows, s.cur.lo, s.cur.hi + 1)
    && t.segs == s.segs[..|s.segs| - 1] && t.cur == s.segs[|s.segs| - 1]
  }

  /** A long segment whose midpoint fits is partitioned, and the larger side stacked. */
  ghost predicate Pushes<W, Z>(s: Stage<W, Z>, t: Stage<W, Z>, j: int, i: int) {
    var l, ir := s.cur.lo, s.cur.hi;
    && s.cur.Size() > M && SegmentFits(s.cur) && SplitAtMedian(s.rows, t.rows, l, j, i, ir)
    && t.segs == s.segs + [LaterSegment(l, j, i, ir)] && t.cur == NextSegment(l, j, i, ir)
  }

  /** One round of the main loop. */
  ghost predicate Rounds<W, Z>(s: Stage<W, Z>, t: Stage<W, Z>) {
    Pops(s, t) || exists j, i :: Pushes(s, t, j, i)
  }

  function Last<W, Z>(run: seq<Stage<W, Z>>): Stage<W, Z>
    requires run != []
  {
    run[|run| - 1]
  }

  function Start<W, Z>(s0: seq<(real, W, Z)>): Stage<W, Z> {
    Stage(s0, [], Segment(0, |s0| - 1))
  }

  /** Rounds of the main loop, from the whole range on. */
  ghost predicate IsRun<W, Z>(s0: seq<(real, W, Z)>, run: seq<Stage<W, Z>>) {
    && run != [] && run[0] == Start(s0)
    && forall k :: 0 < k < |run| ==> Rounds(run[k - 1], run[k])
  }

  lemma RunStart<W, Z>(s0: seq<(real, W, Z)>)
    ensures IsRun(s0, [Start(s0)])
  {
  }

  lemma RunExtend<W, Z>(s0: seq<(real, W, Z)>, run: seq<Stage<W, Z>>, t: Stage<W, Z>)
    requires IsRun(s0, run) && Rounds(Last(run), t)
    ensures IsRun(s0, run + [t])
  {
    var more := run + [t];
    forall k | 0 < k < |more|
      ensures Rounds(more[k - 1], more[k])
    {
      assert more[k - 1] == run[k - 1];
      assert k < |run| ==> more[k] == run[k];
    }
  }

  /** The midpoints of all runs over n rows fit an `int`. */
  ghost predicate MidpointsFit(n: nat) {
    forall s0: seq<(real, int, int)>, run: seq<Stage<int, int>> ::
        |s0| == n && IsRun(s0, run) ==> SegmentFits(Last(run).cur)
  }

  /** They do exactly when n <= 2^30 + 4: some longer inputs fail at the second midpoint, shorter ones never do. */
  lemma MidpointsFitIff(n: nat)
    requires n <= INT_MAX
    ensures MidpointsFit(n) <==> n <= 0x4000_0004
  {
    hide Rounds;
    if n <= 0x4000_0004 {
      forall s0: seq<(real, int, int)>, run: seq<Stage<int, int>> | |s0| == n && IsRun(s0, run)
        ensures SegmentFits(Last(run).cur)
      {
        RunFits(s0, run);
      }
    } else {
      var run := OverflowRun(n);
    }
  }

  /** A run that gets to a segment whose midpoint overflows. */
  lemma OverflowRun(n: nat) returns (run: seq<Stage<int, int>>)
    requires 0x4000_0004 < n <= INT_MAX
    ensures IsRun(OverflowRows(n), run) && !SegmentFits(Last(run).cur)
  {
    var s0 := OverflowRows(n);
    var s := Swapped(s0, (n - 1) / 2, n - 9);
    OverflowHappens(n);
    OverflowSplits(n, s, n - 9, n - 8);
    hide SplitAtMedian, OverflowRows, IsRun;
    var first, second := Start(s0), Stage(s, [] + [LaterSegment(0, n - 9, n - 8, n - 1)], Segment(n - 8, n - 1));
    assert Pushes(first, second, n - 9, n - 8);
    RunStart(s0);
    RunExtend(s0, [first], second);
    run := [first] + [second];
  }

  /** What every run keeps. */
  lemma {:induction false} RunWorks<W, Z>(s0: seq<(real, W, Z)>, run: seq<Stage<W, Z>>)
    requires IsRun(s0, run)
    ensures Working(s0, Last(run).rows, Last(run).segs, Last(run).cur)
  {
    hide Working, Pops, Pushes;
    if |run| == 1 {
      WorkingStart(s0);
    } else {
      var init := run[..|run| - 1];
      RunWorks(s0, init);
      var s, t := Last(init), Last(run);
      if Pops(s, t) {
        PopWorks(s0, s, t);
      } else {
        var j, i :| Pushes(s, t, j, i);
        PushWorks(s0, s, t, j, i);
      }
    }
  }

  lemma PopWorks<W, Z>(s0: seq<(real, W, Z)>, s: Stage<W, Z>, t: Stage<W, Z>)
    requires Working(s0, s.rows, s.segs, s.cur) && Pops(s, t)
    ensures Working(s0, t.rows, t.segs, t.cur)
  {
    hide Working, Rearranged, SortedBy;
    WorkingPop(s0, s.rows, t.rows, s.segs, s.cur);
  }

  lemma PushWorks<W, Z>(s0: seq<(real, W, Z)>, s: Stage<W, Z>, t: Stage<W, Z>, j: int, i: int)
    requires Working(s0, s.rows, s.segs, s.cur) && Pushes(s, t, j, i)
    ensures Working(s0, t.rows, t.segs, t.cur)
  {
    hide Working, Rearranged, PivotBetween, Pivoted;
    var l, ir := s.cur.lo, s.cur.hi;
    PivotBounds(t.rows, l, j, i, ir);
    WorkingPush(s0, s.rows, t.rows, s.segs, s.cur, j, i, LaterSegment(l, j, i, ir), NextSegment(l, j, i, ir));
  }

  lemma RunFits<W, Z>(s0: seq<(real, W, Z)>, run: seq<Stage<W, Z>>)
    requires IsRun(s0, run) && |s0| <= 0x4000_0004
    ensures SegmentFits(Last(run).cur)
  {
    RunWorks(s0, run);
    var last := Last(run);
    WorkingBounds(s0, last.rows, last.segs, last.cur);
    if last.cur.Size() > M {
      WorkingTotal(s0, last.rows, last.segs, last.cur);
      MidpointFits(|s0|, last.cur.lo, last.cur.hi);
    }
  }

  // ---- the sort ----

  lemma PopExtends<W, Z>(s0: seq<(real, W, Z)>, run: seq<Stage<W, Z>>, rows: seq<(real, W, Z)>)
    returns (more: seq<Stage<W, Z>>)
    requires IsRun(s0, run) && run != [] && Last(run).segs != []
    requires var (segs, cur) := (Last(run).segs, Last(run).cur);
             && cur.Size() <= M && Rearranged(Last(run).rows, rows, cur.lo, cur.hi + 1)
             && SortedBy(KeyLess(), rows, cur.lo, cur.hi + 1)
    ensures var segs := Last(run).segs;
            IsRun(s0, more) && more != [] && Last(more) == Stage(rows, segs[..|segs| - 1], segs[|segs| - 1])
  {
    hide Rearranged, SortedBy, IsRun;
    var segs := Last(run).segs;
    more := run + [Stage(rows, segs[..|segs| - 1], segs[|segs| - 1])];
    assert Pops(Last(run), Last(more));
    RunExtend(s0, run, Last(more));
  }

  lemma PushExtends<W, Z>(s0: seq<(real, W, Z)>, run: seq<Stage<W, Z>>, rows: seq<(real, W, Z)>, j: int, i: int)
    returns (more: seq<Stage<W, Z>>)
    requires IsRun(s0, run) && run != [] && Last(run).cur.Size() > M && SegmentFits(Last(run).cur)
    requires SplitAtMedian(Last(run).rows, rows, Last(run).cur.lo, j, i, Last(run).cur.hi)
    ensures var (l, ir) := (Last(run).cur.lo, Last(run).cur.hi);
            && IsRun(s0, more) && more != []
            && Last(more) == Stage(rows, Last(run).segs + [LaterSegment(l, j, i, ir)], NextSegment(l, j, i, ir))
  {
    hide SplitAtMedian, IsRun;
    var l, ir := Last(run).cur.lo, Last(run).cur.hi;
    more := run + [Stage(rows, Last(run).segs + [LaterSegment(l, j, i, ir)], NextSegment(l, j, i, ir))];
    assert Pushes(Last(run), Last(more), j, i);
    RunExtend(s0, run, Last(more));
  }

  /** Lines 489-536. */
  method PartitionSegment<W, Z>(x: array<real>, w: array<W>, z: array<Z>, l: nat, ir: nat) returns (i: nat, j: nat)
    requires Parallel(x, w, z) && l + M <= ir < x.Length && l + ir <= INT_MAX
    modifies x, w, z
    ensures SplitAtMedian(old(Rows(x, w, z)), Rows(x, w, z), l, j, i, ir)
  {
    hide Rearranged, Rows, Pivoted, PivotBetween, MedianKey;
    ghost var s := Rows(x, w, z);
    RowsAt(x, w, z, l); RowsAt(x, w, z, (l + ir) / 2); RowsAt(x, w, z, ir);
    MedianToFront(x, w, z, l, ir);
    ghost var t := Rows(x, w, z);
    i, j := PartitionRows(x, w, z, l, ir);
    RearrangedTransitive(s, t, Rows(x, w, z), l, ir + 1);
  }

  /** Lines 537-550: stacks the larger side [lo, hi]. */
  method Push(istack: array<real>, jstack: nat, toFP: int -> real, ghost segs: seq<Segment>, lo: int, hi: int)
    requires jstack == 2 * |segs| + 1 < istack.Length && Stacked(istack[..], segs, toFP)
    modifies istack
    ensures Stacked(istack[..], segs + [Segment(lo, hi)], toFP)
  {
    StackedPush(istack[..], segs, toFP, Segment(lo, hi));
    istack[jstack] := toFP(hi);
    istack[jstack - 1] := toFP(lo);
  }

  lemma KeysSorted<W, Z>(x: array<real>, w: array<W>, z: array<Z>)
    requires x.Length == w.Length == z.Length && SortedBy(KeyLess(), Rows(x, w, z), 0, x.Length)
    ensures forall p, q :: 0 <= p < q < x.Length ==> x[p] <= x[q]
  {
    forall p, q | 0 <= p < q < x.Length
      ensures x[p] <= x[q]
    {
      assert Leq(KeyLess(), Rows(x, w, z)[p], Rows(x, w, z)[q]);
    }
  }

  /** The stack slots that sorting n rows can use. */
  function SlotsNeeded(n: nat): int {
    if n < 8 then 0 else 2 * (Log2(n) - 2)
  }

  /** Sorts the rows by key, on any stack with the slots needed, or ends at the first midpoint that overflows. */
  method QSortOn<W, Z>(n: nat, x: array<real>, w: array<W>, z: array<Z>, toFP: int -> real, istack: array<real>)
    returns (overflow: bool, ghost run: seq<Stage<W, Z>>)
    requires Parallel(x, w, z) && n == x.Length <= INT_MAX && Representable(toFP, n)
    requires istack.Length >= SlotsNeeded(n)
    requires istack != x && istack as object != w as object && istack as object != z as object
    modifies x, w, z, istack
    ensures IsRun(old(Rows(x, w, z)), run)
    ensures overflow <==> var g := Last(run).cur; g.hi - g.lo >= 7 && g.lo + g.hi > 0x7FFF_FFFF
    ensures !overflow ==> Last(run).segs == [] && Last(run).cur.Size() <= M
    ensures !overflow ==> forall p, q :: 0 <= p < q < n ==> x[p] <= x[q]
    ensures multiset(Rows(x, w, z)) == multiset(old(Rows(x, w, z)))
    ensures n <= 0x4000_0004 ==> !overflow
  {
    hide Rearranged, SortedBy, Rows, Working, Pivoted, Stacked, TotalSize, Log2, Halving, Representable, PivotBetween;
    hide MedianKey, IsRun, Pops, Pushes;
    var l, ir, jstack := 0, n - 1, -1;
    ghost var s0 := Rows(x, w, z);
    ghost var segs: seq<Segment> := [];
    overflow, run := false, [Start(s0)];
    RunStart(s0);
    WorkingStart(s0);
    EmptyStack(istack[..], toFP);
    while true
      invariant jstack == 2 * |segs| - 1 < istack.Length && l >= 0
      invariant IsRun(s0, run) && run != [] && Last(run) == Stage(Rows(x, w, z), segs, Segment(l, ir))
      invariant Working(s0, Rows(x, w, z), segs, Segment(l, ir))
      invariant Stacked(istack[..], segs, toFP)
      invariant forall t :: 0 <= t < |segs| ==> segs[t].lo <= segs[t].hi
      decreases TotalSize(segs + [Segment(l, ir)]), |segs|
    {
      ghost var s, cur := Rows(x, w, z), Segment(l, ir);
      WorkingBounds(s0, s, segs, cur);
      WorkingTotal(s0, s, segs, cur);
      if ir - l < M {
        InsertionSort(x, w, z, l, ir);
        WorkingPop(s0, s, Rows(x, w, z), segs, cur);
        if jstack < 0 {
          KeysSorted(x, w, z);
          break;
        }
        WorkingBounds(s0, Rows(x, w, z), segs[..|segs| - 1], segs[|segs| - 1]);
        TopOfStack(istack[..], segs, toFP, n);
        ir := istack[jstack].Floor;
        l := istack[jstack - 1].Floor;
        jstack := jstack - 2;
        run := PopExtends(s0, run, Rows(x, w, z));
        segs := segs[..|segs| - 1];
      } else if l + ir > INT_MAX {
        WorkingRows(s0, s, segs, cur);
        overflow := true;
        break;
      } else {
        DepthBound(segs, cur, n);
        var i, j := PartitionSegment(x, w, z, l, ir);
        PivotBounds(Rows(x, w, z), l, j, i, ir);
        run := PushExtends(s0, run, Rows(x, w, z), j, i);
        jstack := jstack + 2;
        if ir - i + 1 >= j - l {
          Push(istack, jstack, toFP, segs, i, ir);
          ir := j - 1;
        } else {
          Push(istack, jstack, toFP, segs, l, j - 1);
          l := i;
        }
        ghost var big := LaterSegment(cur.lo, j, i, cur.hi);
        WorkingPush(s0, s, Rows(x, w, z), segs, cur, j, i, big, Segment(l, ir));
        segs := segs + [big];
      }
    }
  }

  /** Sorts the rows by key, on the 128 slots the kernel reserves. */
  method QSort<W, Z>(n: nat, x: array<real>, w: array<W>, z: array<Z>, toFP: int -> real)
    returns (overflow: bool, ghost run: seq<Stage<W, Z>>)
    requires Parallel(x, w, z) && n == x.Length <= INT_MAX && Representable(toFP, n)
    modifies x, w, z
    ensures IsRun(old(Rows(x, w, z)), run)
    ensures overflow <==> var g := Last(run).cur; g.hi - g.lo >= 7 && g.lo + g.hi > 0x7FFF_FFFF
    ensures !overflow ==> forall p, q :: 0 <= p < q < n ==> x[p] <= x[q]
    ensures multiset(Rows(x, w, z)) == multiset(old(Rows(x, w, z)))
    ensures n <= 0x4000_0004 ==> !overflow
  {
    hide IsRun;
    if n >= 8 {
      StackSuffices(n);
    }
    var istack := new real[NSTACK];
    overflow, run := QSortOn(n, x, w, z, toFP, istack);
  }
}
