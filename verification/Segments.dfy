/** Rearrangements of a segment [lo, hi) of a sequence that leave the rest alone. */
module Segments {
  import opened Orders

  /** `t` is `s` with the elements of [lo, hi) permuted and everything else in place. */
  ghost predicate Rearranged<T>(s: seq<T>, t: seq<T>, lo: int, hi: int) {
    && 0 <= lo <= hi <= |s| == |t|
    && s[..lo] == t[..lo]
    && s[hi..] == t[hi..]
    && multiset(s[lo..hi]) == multiset(t[lo..hi])
  }

  function Swapped<T>(s: seq<T>, i: nat, j: nat): seq<T>
    requires i < |s| && j < |s|
  {
    s[i := s[j]][j := s[i]]
  }

  /** The second three values are the first three in some order. */
  predicate Permuted<T(==)>(x: T, y: T, z: T, u: T, v: T, w: T) {
    || (u == x && v == y && w == z) || (u == x && v == z && w == y) || (u == y && v == x && w == z)
    || (u == y && v == z && w == x) || (u == z && v == x && w == y) || (u == z && v == y && w == x)
  }

  lemma RearrangedReflexive<T>(s: seq<T>, lo: int, hi: int)
    requires 0 <= lo <= hi <= |s|
    ensures Rearranged(s, s, lo, hi)
  {
  }

  lemma RearrangedTransitive<T>(s: seq<T>, t: seq<T>, u: seq<T>, lo: int, hi: int)
    requires Rearranged(s, t, lo, hi) && Rearranged(t, u, lo, hi)
    ensures Rearranged(s, u, lo, hi)
  {
  }

  /** The elements of a rearranged segment come from that segment. */
  lemma RearrangedOrigin<T>(s: seq<T>, t: seq<T>, lo: int, hi: int, k: int) returns (m: int)
    requires Rearranged(s, t, lo, hi) && lo <= k < hi
    ensures lo <= m < hi && s[m] == t[k]
  {
    assert t[lo..hi][k - lo] == t[k];
    assert t[k] in multiset(t[lo..hi]);
    assert t[k] in s[lo..hi];
    m :| 0 <= m < hi - lo && s[lo..hi][m] == t[k];
    m := m + lo;
  }

  lemma RearrangedOutside<T>(s: seq<T>, t: seq<T>, lo: int, hi: int, k: int)
    requires Rearranged(s, t, lo, hi) && 0 <= k < |s| && !(lo <= k < hi)
    ensures s[k] == t[k]
  {
    if k < lo {
      assert s[..lo][k] == t[..lo][k];
    } else {
      assert s[hi..][k - hi] == t[hi..][k - hi];
    }
  }

  /** A rearrangement of a segment is one of every larger segment. */
  lemma RearrangedWiden<T>(s: seq<T>, t: seq<T>, lo: int, hi: int, lo': int, hi': int)
    requires Rearranged(s, t, lo, hi) && 0 <= lo' <= lo && hi <= hi' <= |s|
    ensures Rearranged(s, t, lo', hi')
  {
    assert s[..lo'] == s[..lo][..lo'] == t[..lo'];
    assert s[hi'..] == s[hi..][hi' - hi..] == t[hi'..];
    assert s[lo'..lo] == s[..lo][lo'..] == t[..lo][lo'..] == t[lo'..lo];
    assert s[hi..hi'] == s[hi..][..hi' - hi] == t[hi..][..hi' - hi] == t[hi..hi'];
    SliceInThree(s, lo', lo, hi, hi');
    SliceInThree(t, lo', lo, hi, hi');
  }

  lemma SliceInThree<T>(s: seq<T>, lo': int, lo: int, hi: int, hi': int)
    requires 0 <= lo' <= lo <= hi <= hi' <= |s|
    ensures s[lo'..hi'] == s[lo'..lo] + s[lo..hi] + s[hi..hi']
  {
  }

  lemma SwapRearranges<T>(s: seq<T>, i: nat, j: nat, lo: int, hi: int)
    requires 0 <= lo <= i < hi <= |s| && lo <= j < hi
    ensures Rearranged(s, Swapped(s, i, j), lo, hi)
  {
    var t := Swapped(s, i, j);
    assert s[..lo] == t[..lo] && s[hi..] == t[hi..];
    var u := s[lo..hi];
    assert t[lo..hi] == u[i - lo := u[j - lo]][j - lo := u[i - lo]];
  }

  lemma SwappedRange<T>(s: seq<T>, lo: nat, hi: nat, i: nat, j: nat)
    requires lo <= hi <= |s| && i < hi - lo && j < hi - lo
    ensures Swapped(s, lo + i, lo + j)[lo..hi] == Swapped(s[lo..hi], i, j)
  {
  }

  /** Every element of [lo, hi) is in order with every later one. */
  ghost predicate SortedBy<T>(less: (T, T) -> bool, s: seq<T>, lo: int, hi: int) {
    forall p, q :: 0 <= lo <= p < q < hi <= |s| ==> Leq(less, s[p], s[q])
  }

  /** Nothing in [lo, mid) is greater than anything in [mid, hi). */
  ghost predicate Crossed<T>(less: (T, T) -> bool, s: seq<T>, lo: int, mid: int, hi: int) {
    forall p, q :: 0 <= lo <= p < mid <= q < hi <= |s| ==> Leq(less, s[p], s[q])
  }

  /** Two parts in order with each other are sorted together exactly when each is. */
  lemma SortedGlue<T>(less: (T, T) -> bool, s: seq<T>, lo: int, mid: int, hi: int)
    requires 0 <= lo <= mid <= hi <= |s| && Crossed(less, s, lo, mid, hi)
    ensures SortedBy(less, s, lo, hi) <==> SortedBy(less, s, lo, mid) && SortedBy(less, s, mid, hi)
  {
  }

  lemma SwappedSelf<T>(s: seq<T>, i: nat)
    requires i < |s|
    ensures Swapped(s, i, i) == s
  {
  }

  /** `s` with the element at `next` moved down to `r`. */
  function Inserted<T>(s: seq<T>, r: nat, next: nat): seq<T>
    requires r <= next < |s|
  {
    s[..r] + [s[next]] + s[r..next] + s[next + 1..]
  }

  /** `t` is `s` with [r, next) moved up one place, overwriting `next`; slot `r` is free. */
  ghost predicate Shifted<T>(s: seq<T>, t: seq<T>, r: int, next: int) {
    && 0 <= r <= next < |s| == |t|
    && (forall k :: 0 <= k <= r || next < k < |s| ==> t[k] == s[k])
    && (forall k :: r < k <= next ==> t[k] == s[k - 1])
  }

  lemma ShiftedStart<T>(s: seq<T>, next: nat)
    requires next < |s|
    ensures Shifted(s, s, next, next)
  {
  }

  /** Moves the free slot one place down. */
  lemma ShiftedStep<T>(s: seq<T>, t: seq<T>, r: nat, next: nat)
    requires Shifted(s, t, r, next)
    ensures r <= next < |s| == |t|
    ensures r > 0 ==> t[r - 1] == s[r - 1] && Shifted(s, t[r := t[r - 1]], r - 1, next)
  {
  }

  lemma FillSlot<T>(s: seq<T>, t: seq<T>, r: nat, next: nat)
    requires Shifted(s, t, r, next)
    ensures r <= next < |s| == |t| && t[r := s[next]] == Inserted(s, r, next)
  {
  }

  lemma InsertedRearranges<T>(s: seq<T>, first: nat, r: nat, next: nat)
    requires first <= r <= next < |s|
    ensures Rearranged(s, Inserted(s, r, next), first, next + 1)
  {
    var t := Inserted(s, r, next);
    assert t[..first] == s[..first] && t[next + 1..] == s[next + 1..];
    assert s[first..next + 1] == s[first..r] + s[r..next] + [s[next]];
    assert t[first..next + 1] == s[first..r] + [s[next]] + s[r..next];
  }

  /** The exchange every kernel is built on (`iterSwap`, `swap`). */
  method Swap<T>(a: array<T>, i: nat, j: nat)
    requires i < a.Length && j < a.Length
    modifies a
    ensures a[..] == Swapped(old(a[..]), i, j)
  {
    a[i], a[j] := a[j], a[i];
  }
}
