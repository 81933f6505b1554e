/** ROC AUC from midranks: a linear pass over the sorted scores in place of a count over all pairs. */
module RocAuc {
  import opened Blocks
  import opened Filters
  import opened Multisets
  import opened Options

  const BLOCK_SIZE := 256

  datatype IdxVal = IdxVal(value: real, index: nat)

  // ---- what the score means ----

  /** The contribution of a pair: 1 when `a` scores above `b`, 1/2 for a tie. */
  function Wins(a: real, b: real): real {
    if b < a then 1.0 else if a == b then 0.5 else 0.0
  }

  /** `a` against every score in `s`. */
  function Against(a: real, s: seq<real>): real {
    Sum((b: real) => Wins(a, b), s)
  }

  /** Every score of `p` against every score of `q`. */
  function Pairs(p: seq<real>, q: seq<real>): real {
    if p == [] then 0.0 else Against(p[0], q) + Pairs(p[1..], q)
  }

  function CountBelow(a: real, s: seq<real>): nat {
    if s == [] then 0 else (if s[0] < a then 1 else 0) + CountBelow(a, s[1..])
  }

  function CountEqual(a: real, s: seq<real>): nat {
    if s == [] then 0 else (if s[0] == a then 1 else 0) + CountEqual(a, s[1..])
  }

  /** The number of pairs (x from p, y from q) with x above y. */
  function PairsAbove(p: seq<real>, q: seq<real>): nat {
    if p == [] then 0 else CountBelow(p[0], q) + PairsAbove(p[1..], q)
  }

  function PairsTied(p: seq<real>, q: seq<real>): nat {
    if p == [] then 0 else CountEqual(p[0], q) + PairsTied(p[1..], q)
  }

  lemma {:induction false} AgainstCounts(a: real, s: seq<real>)
    ensures Against(a, s) == CountBelow(a, s) as real + 0.5 * CountEqual(a, s) as real
  {
    if s != [] {
      AgainstCounts(a, s[1..]);
    }
  }

  lemma {:induction false} PairsCounts(p: seq<real>, q: seq<real>)
    ensures Pairs(p, q) == PairsAbove(p, q) as real + 0.5 * PairsTied(p, q) as real
  {
    if p != [] {
      AgainstCounts(p[0], q);
      PairsCounts(p[1..], q);
    }
  }

  // ---- counting by positions ----

  function Count(f: real -> bool, s: seq<real>): nat {
    if s == [] then 0 else (if f(s[0]) then 1 else 0) + Count(f, s[1..])
  }

  function PairsIn(rel: real -> real -> bool, p: seq<real>, q: seq<real>): nat {
    if p == [] then 0 else Count(rel(p[0]), q) + PairsIn(rel, p[1..], q)
  }

  function LowerThan(a: real): real -> bool {
    b => b < a
  }

  function EqualTo(a: real): real -> bool {
    b => b == a
  }

  lemma {:induction false} CountsAre(a: real, s: seq<real>)
    ensures CountBelow(a, s) == Count(LowerThan(a), s) && CountEqual(a, s) == Count(EqualTo(a), s)
  {
    if s != [] {
      CountsAre(a, s[1..]);
    }
  }

  lemma {:induction false} PairsAre(p: seq<real>, q: seq<real>)
    ensures PairsAbove(p, q) == PairsIn(LowerThan, p, q) && PairsTied(p, q) == PairsIn(EqualTo, p, q)
  {
    if p != [] {
      CountsAre(p[0], q);
      PairsAre(p[1..], q);
    }
  }

  lemma {:induction false} CountAppend(f: real -> bool, s: seq<real>, t: seq<real>)
    ensures Count(f, s + t) == Count(f, s) + Count(f, t)
  {
    if s == [] {
      assert s + t == t;
    } else {
      assert (s + t)[1..] == s[1..] + t;
      CountAppend(f, s[1..], t);
    }
  }

  lemma {:induction false} PairsAppend(rel: real -> real -> bool, s: seq<real>, t: seq<real>, q: seq<real>)
    ensures PairsIn(rel, s + t, q) == PairsIn(rel, s, q) + PairsIn(rel, t, q)
  {
    if s == [] {
      assert s + t == t;
    } else {
      assert (s + t)[1..] == s[1..] + t;
      PairsAppend(rel, s[1..], t, q);
    }
  }

  lemma {:induction false} LabelledAppend(v: seq<real>, l: seq<int>, v': seq<real>, l': seq<int>, positive: bool)
    requires |v| == |l| && |v'| == |l'|
    ensures Labelled(v + v', l + l', positive) == Labelled(v, l, positive) + Labelled(v', l', positive)
  {
    if v == [] {
      assert v + v' == v' && l + l' == l';
    } else {
      assert (v + v')[1..] == v[1..] + v' && (l + l')[1..] == l[1..] + l';
      LabelledAppend(v[1..], l[1..], v', l', positive);
      var first := if (l[0] == 1) == positive then [v[0]] else [];
      assert Labelled(v + v', l + l', positive) == first + Labelled(v[1..] + v', l[1..] + l', positive);
      assert Labelled(v, l, positive) == first + Labelled(v[1..], l[1..], positive);
      hide Labelled;
      Associate(first, Labelled(v[1..], l[1..], positive), Labelled(v', l', positive));
    }
  }

  /** Splits off the last score. */
  lemma LabelledLast(v: seq<real>, l: seq<int>, m: nat, positive: bool)
    requires m < |v| == |l|
    ensures Labelled(v[..m + 1], l[..m + 1], positive)
         == Labelled(v[..m], l[..m], positive) + (if (l[m] == 1) == positive then [v[m]] else [])
  {
    assert v[..m + 1] == v[..m] + [v[m]] && l[..m + 1] == l[..m] + [l[m]];
    LabelledAppend(v[..m], l[..m], [v[m]], [l[m]], positive);
    assert [v[m]][1..] == [] && [l[m]][1..] == [];
  }

  /** The first m positions with this label and a score in `f`. */
  ghost function Places(v: seq<real>, l: seq<int>, m: nat, positive: bool, f: real -> bool): set<nat>
    requires m <= |v| == |l|
  {
    set j: nat | j < m && Fits(v, l, j, positive, f)
  }

  predicate Fits(v: seq<real>, l: seq<int>, j: nat, positive: bool, f: real -> bool)
    requires j < |v| == |l|
  {
    (l[j] == 1) == positive && f(v[j])
  }

  lemma {:induction false} PlacesCount(v: seq<real>, l: seq<int>, m: nat, positive: bool, f: real -> bool)
    requires m <= |v| == |l|
    ensures |Places(v, l, m, positive, f)| == Count(f, Labelled(v[..m], l[..m], positive))
  {
    if m > 0 {
      PlacesCount(v, l, m - 1, positive, f);
      LabelledLast(v, l, m - 1, positive);
      var more := if (l[m - 1] == 1) == positive then [v[m - 1]] else [];
      CountAppend(f, Labelled(v[..m - 1], l[..m - 1], positive), more);
      CountUpToOne(f, more);
      PlacesStep(v, l, m, positive, f);
      hide *;
    }
  }

  lemma PlacesStep(v: seq<real>, l: seq<int>, m: nat, positive: bool, f: real -> bool)
    requires 0 < m <= |v| == |l|
    ensures |Places(v, l, m, positive, f)|
         == |Places(v, l, m - 1, positive, f)| + if (l[m - 1] == 1) == positive && f(v[m - 1]) then 1 else 0
  {
    PlacesGrow(v, l, m, positive, f);
    hide Places;
  }

  lemma PlacesGrow(v: seq<real>, l: seq<int>, m: nat, positive: bool, f: real -> bool)
    requires 0 < m <= |v| == |l|
    ensures m - 1 !in Places(v, l, m - 1, positive, f)
    ensures Places(v, l, m, positive, f)
         == Places(v, l, m - 1, positive, f) + if Fits(v, l, m - 1, positive, f) then {m - 1} else {}
  {
    hide Fits;
  }

  lemma CountUpToOne(f: real -> bool, s: seq<real>)
    requires |s| <= 1
    ensures Count(f, s) == if s != [] && f(s[0]) then 1 else 0
  {
  }

  lemma PairsUpToOne(rel: real -> real -> bool, s: seq<real>, q: seq<real>)
    requires |s| <= 1
    ensures PairsIn(rel, s, q) == if s != [] then Count(rel(s[0]), q) else 0
  {
    if s != [] {
      assert s[1..] == [];
    }
  }

  /** The pairs of a positive position, one of the first m, and a negative one, with scores so related. */
  ghost function PlacePairs(v: seq<real>, l: seq<int>, m: nat, rel: real -> real -> bool): set<(nat, nat)>
    requires m <= |v| == |l|
  {
    set i: nat, j: nat | i < m && j < |v| && l[i] == 1 && l[j] != 1 && rel(v[i])(v[j]) :: (i, j)
  }

  /** One position with each of a set. */
  ghost function PairedWith(i: nat, s: set<nat>): set<(nat, nat)> {
    set j | j in s :: (i, j)
  }

  lemma {:induction false} PairedCount(i: nat, s: set<nat>)
    ensures |PairedWith(i, s)| == |s|
  {
    if s != {} {
      var x :| x in s;
      PairedCount(i, s - {x});
      assert PairedWith(i, s) == PairedWith(i, s - {x}) + {(i, x)};
    } else {
      assert PairedWith(i, s) == {};
    }
  }

  lemma {:induction false} PlacePairsCount(v: seq<real>, l: seq<int>, m: nat, rel: real -> real -> bool)
    requires m <= |v| == |l|
    ensures |PlacePairs(v, l, m, rel)| == PairsIn(rel, Labelled(v[..m], l[..m], true), Labelled(v, l, false))
  {
    if m > 0 {
      PlacePairsCount(v, l, m - 1, rel);
      LabelledLast(v, l, m - 1, true);
      var q, more := Labelled(v, l, false), if l[m - 1] == 1 then [v[m - 1]] else [];
      PairsAppend(rel, Labelled(v[..m - 1], l[..m - 1], true), more, q);
      PairsUpToOne(rel, more, q);
      var s := Places(v, l, |v|, false, rel(v[m - 1]));
      PlacesCount(v, l, |v|, false, rel(v[m - 1]));
      assert v[..|v|] == v && l[..|l|] == l;
      PairedCount(m - 1, s);
      PairsOfPlace(v, l, m, rel);
      hide *;
    } else {
      assert PlacePairs(v, l, 0, rel) == {};
    }
  }

  lemma PairsOfPlace(v: seq<real>, l: seq<int>, m: nat, rel: real -> real -> bool)
    requires 0 < m <= |v| == |l|
    ensures var fewer, s := PlacePairs(v, l, m - 1, rel), Places(v, l, |v|, false, rel(v[m - 1]));
            && |PlacePairs(v, l, m, rel)| == |fewer| + if l[m - 1] == 1 then |PairedWith(m - 1, s)| else 0
  {
    var fewer, s := PlacePairs(v, l, m - 1, rel), Places(v, l, |v|, false, rel(v[m - 1]));
    var added := if l[m - 1] == 1 then PairedWith(m - 1, s) else {};
    assert fewer !! added;
    assert PlacePairs(v, l, m, rel) == fewer + added;
  }

  /** The pairs of a positive position and a negative one with a lower score. */
  ghost function WonPairs(values: seq<real>, labels: seq<int>): set<(nat, nat)>
    requires |values| == |labels|
  {
    set i: nat, j: nat | i < |values| && j < |values| && labels[i] == 1 && labels[j] != 1 && values[j] < values[i] ::
        (i, j)
  }

  /** And with the same score. */
  ghost function TiedPairs(values: seq<real>, labels: seq<int>): set<(nat, nat)>
    requires |values| == |labels|
  {
    set i: nat, j: nat | i < |values| && j < |values| && labels[i] == 1 && labels[j] != 1 && values[j] == values[i] ::
        (i, j)
  }

  ghost function WithLabelOne(labels: seq<int>): set<nat> {
    set i: nat | i < |labels| && labels[i] == 1
  }

  ghost function WithOtherLabel(labels: seq<int>): set<nat> {
    set i: nat | i < |labels| && labels[i] != 1
  }

  function Anything(): real -> bool {
    b => true
  }

  lemma {:induction false} CountAnything(s: seq<real>)
    ensures Count(Anything(), s) == |s|
  {
    if s != [] {
      CountAnything(s[1..]);
    }
  }

  /** The counts on score lists are counts of positions and of pairs of positions. */
  lemma CountsByPosition(values: seq<real>, labels: seq<int>)
    requires |values| == |labels|
    ensures var p, q := Labelled(values, labels, true), Labelled(values, labels, false);
            && PairsAbove(p, q) == |WonPairs(values, labels)| && PairsTied(p, q) == |TiedPairs(values, labels)|
            && |p| == |WithLabelOne(labels)| && |q| == |WithOtherLabel(labels)|
  {
    var n := |values|;
    assert values[..n] == values && labels[..n] == labels;
    PairsAre(Labelled(values, labels, true), Labelled(values, labels, false));
    PlacePairsCount(values, labels, n, LowerThan);
    PlacePairsCount(values, labels, n, EqualTo);
    PlacesCount(values, labels, n, true, Anything());
    PlacesCount(values, labels, n, false, Anything());
    CountAnything(Labelled(values, labels, true));
    CountAnything(Labelled(values, labels, false));
    hide Labelled, PairsIn, Count, PairsAbove, PairsTied;
    assert PlacePairs(values, labels, n, LowerThan) == WonPairs(values, labels);
    assert PlacePairs(values, labels, n, EqualTo) == TiedPairs(values, labels);
    assert Places(values, labels, n, true, Anything()) == WithLabelOne(labels);
    assert Places(values, labels, n, false, Anything()) == WithOtherLabel(labels);
  }

  // ---- double counting ----

  ghost predicate Binary(labels: seq<int>) {
    forall i :: 0 <= i < |labels| ==> labels[i] == 0 || labels[i] == 1
  }

  /** The scores whose label is 1 (or is not). */
  function Labelled(values: seq<real>, labels: seq<int>, positive: bool): seq<real>
    requires |values| == |labels|
  {
    if values == [] then []
    else (if (labels[0] == 1) == positive then [values[0]] else []) + Labelled(values[1..], labels[1..], positive)
  }

  /** Against everyone is against the positives plus against the negatives. */
  lemma {:induction false} AgainstSplits(a: real, values: seq<real>, labels: seq<int>)
    requires |values| == |labels|
    ensures Against(a, values)
        == Against(a, Labelled(values, labels, true)) + Against(a, Labelled(values, labels, false))
  {
    if values != [] {
      AgainstSplits(a, values[1..], labels[1..]);
      forall positive: bool
        ensures Against(a, Labelled(values, labels, positive))
             == (if (labels[0] == 1) == positive then Wins(a, values[0]) else 0.0)
              + Against(a, Labelled(values[1..], labels[1..], positive))
      {
        SumAppend((b: real) => Wins(a, b), if (labels[0] == 1) == positive then [values[0]] else [],
          Labelled(values[1..], labels[1..], positive));
      }
    }
  }

  /** Of every two elements exactly one point is shared, so everyone against everyone scores n^2 / 2. */
  lemma {:induction false} PairsAmongThemselves(p: seq<real>)
    ensures Pairs(p, p) == 0.5 * |p| as real * |p| as real
  {
    if p != [] {
      var x, q := p[0], p[1..];
      PairsAmongThemselves(q);
      PairsPrepend(q, x, q);
      AgainstBoth(x, q);
      assert p == [x] + q;
      assert Against(x, p) == Wins(x, x) + Against(x, q) by {
        SumAppend((b: real) => Wins(x, b), [x], q);
      }
    }
  }

  /** Every score of `p` against `x`. */
  function AllAgainst(p: seq<real>, x: real): real {
    if p == [] then 0.0 else Wins(p[0], x) + AllAgainst(p[1..], x)
  }

  lemma {:induction false} PairsPrepend(p: seq<real>, x: real, q: seq<real>)
    ensures Pairs(p, [x] + q) == AllAgainst(p, x) + Pairs(p, q)
  {
    if p != [] {
      PairsPrepend(p[1..], x, q);
      SumAppend((b: real) => Wins(p[0], b), [x], q);
    }
  }

  lemma {:induction false} AgainstBoth(x: real, q: seq<real>)
    ensures Against(x, q) + AllAgainst(q, x) == |q| as real
  {
    if q != [] {
      AgainstBoth(x, q[1..]);
    }
  }

  /** The midrank of a score: one half more than its points against all scores, itself included. */
  function MidRank(values: seq<real>, a: real): real {
    0.5 + Against(a, values)
  }

  function MidRankSum(p: seq<real>, values: seq<real>): real {
    if p == [] then 0.0 else MidRank(values, p[0]) + MidRankSum(p[1..], values)
  }

  lemma {:induction false} MidRankSumSplits(p: seq<real>, values: seq<real>, labels: seq<int>)
    requires |values| == |labels|
    ensures MidRankSum(p, values)
         == 0.5 * |p| as real + Pairs(p, Labelled(values, labels, true)) + Pairs(p, Labelled(values, labels, false))
  {
    if p != [] {
      AgainstSplits(p[0], values, labels);
      MidRankSumSplits(p[1..], values, labels);
    }
  }

  /** The rank-sum formula counts pairs. */
  lemma RankSumCountsPairs(values: seq<real>, labels: seq<int>)
    requires |values| == |labels|
    ensures var p, q := Labelled(values, labels, true), Labelled(values, labels, false);
            MidRankSum(p, values) - 0.5 * |p| as real * (|p| as real + 1.0)
            == PairsAbove(p, q) as real + 0.5 * PairsTied(p, q) as real
  {
    hide *;
    var p, q := Labelled(values, labels, true), Labelled(values, labels, false);
    MidRankSumSplits(p, values, labels);
    PairsAmongThemselves(p);
    PairsCounts(p, q);
    HalfSquare(|p| as real);
  }

  lemma HalfSquare(n: real)
    ensures 0.5 * n * (n + 1.0) == 0.5 * n * n + 0.5 * n
  {
  }

  // ---- the kernel ----

  function Fill(values: seq<real>): seq<IdxVal> {
    seq(|values|, i requires 0 <= i < |values| => IdxVal(values[i], i))
  }

  /** What a sort of the filled buffer may leave there, ties in any order. */
  ghost predicate SortOutcome(values: seq<real>, p: seq<IdxVal>) {
    && multiset(p) == multiset(Fill(values))
    && forall i, j :: 0 <= i < j < |p| ==> p[i].value <= p[j].value
  }

  /** The sort outcome lists every position once, with its own score. */
  lemma OutcomeIndexes(values: seq<real>, p: seq<IdxVal>)
    requires SortOutcome(values, p)
    ensures |p| == |values|
    ensures forall k :: 0 <= k < |p| ==> p[k].index < |values| && p[k].value == values[p[k].index]
    ensures forall j, k :: 0 <= j < k < |p| ==> p[j].index != p[k].index
  {
    var f := Fill(values);
    SameLength(p, f);
    SameElements(p, f);
    DistinctRearranged(f, p);
    forall k | 0 <= k < |p|
      ensures p[k].index < |values| && p[k].value == values[p[k].index]
    {
      assert p[k] in f;
    }
    forall j, k | 0 <= j < k < |p|
      ensures p[j].index != p[k].index
    {
      assert p[j] != p[k];
    }
  }

  lemma IndexListed(values: seq<real>, p: seq<IdxVal>, i: nat) returns (k: nat)
    requires SortOutcome(values, p) && i < |values|
    ensures k < |p| && p[k].index == i
  {
    SameElements(p, Fill(values));
    assert Fill(values)[i] in p;
    k :| 0 <= k < |p| && p[k] == Fill(values)[i];
  }

  lemma {:induction false} SumPointwise<S, T>(f: S -> real, s: seq<S>, g: T -> real, t: seq<T>)
    requires |s| == |t| && forall k :: 0 <= k < |s| ==> f(s[k]) == g(t[k])
    ensures Sum(f, s) == Sum(g, t)
  {
    if s != [] {
      SumPointwise(f, s[1..], g, t[1..]);
    }
  }

  lemma {:induction false} SumConstant<T>(f: T -> real, s: seq<T>, c: real)
    requires forall k :: 0 <= k < |s| ==> f(s[k]) == c
    ensures Sum(f, s) == c * |s| as real
  {
    if s != [] {
      SumConstant(f, s[1..], c);
    }
  }

  /** [i, e) is a maximal run of equal scores. */
  ghost predicate TieBlock(p: seq<IdxVal>, i: int, e: int) {
    && 0 <= i < e <= |p|
    && (forall k :: 0 <= k < i ==> p[k].value < p[i].value)
    && (forall k :: i <= k < e ==> p[k].value == p[i].value)
    && (forall k :: e <= k < |p| ==> p[k].value > p[i].value)
  }

  /** The average position of a tie block is the midrank of its score. */
  lemma BlockRank(values: seq<real>, p: seq<IdxVal>, i: int, e: int)
    requires SortOutcome(values, p) && TieBlock(p, i, e)
    ensures MidRank(values, p[i].value) == (i + 1) as real + ((e - i) as real - 1.0) * 0.5
  {
    AgainstOutcome(values, p, p[i].value);
    PointsOfBlock(p, i, e);
  }

  /** The points of a score against a list of entries. */
  function Points(v: real): IdxVal -> real {
    (x: IdxVal) => Wins(v, x.value)
  }

  lemma AgainstOutcome(values: seq<real>, p: seq<IdxVal>, v: real)
    requires SortOutcome(values, p)
    ensures Against(v, values) == Sum(Points(v), p)
  {
    SumPointwise(Points(v), Fill(values), (b: real) => Wins(v, b), values);
    SumRearranged(Points(v), p, Fill(values));
  }

  lemma PointsOfBlock(p: seq<IdxVal>, i: int, e: int)
    requires TieBlock(p, i, e)
    ensures Sum(Points(p[i].value), p) == i as real + 0.5 * (e - i) as real
  {
    var f := Points(p[i].value);
    assert Sum(f, p[0..i]) == i as real by { SumSlice(f, p, 0, i, 1.0); }
    assert Sum(f, p[i..e]) == 0.5 * (e - i) as real by { SumSlice(f, p, i, e, 0.5); }
    assert Sum(f, p[e..|p|]) == 0.0 by { SumSlice(f, p, e, |p|, 0.0); }
    hide *;
    SumInThree(f, p, i, e);
  }

  lemma SumInThree<T>(f: T -> real, s: seq<T>, i: int, e: int)
    requires 0 <= i <= e <= |s|
    ensures Sum(f, s) == Sum(f, s[0..i]) + Sum(f, s[i..e]) + Sum(f, s[e..|s|])
  {
    hide Sum;
    SumAppend(f, s[0..i], s[i..|s|]);
    SumAppend(f, s[i..e], s[e..|s|]);
    assert s == s[0..i] + s[i..|s|];
    assert s[i..|s|] == s[i..e] + s[e..|s|];
  }

  lemma SumSlice<T>(f: T -> real, s: seq<T>, lo: int, hi: int, c: real)
    requires 0 <= lo <= hi <= |s| && forall k :: lo <= k < hi ==> f(s[k]) == c
    ensures Sum(f, s[lo..hi]) == c * (hi - lo) as real
  {
    assert forall k :: 0 <= k < hi - lo ==> s[lo..hi][k] == s[lo + k];
    SumConstant(f, s[lo..hi], c);
  }

  /** Lines 54-64: the threads fill the buffer block by block. */
  method FillPredict(values: array<real>, predict: array<IdxVal>, order: seq<nat>)
    requires predict.Length == values.Length && Schedule(order, NumBlocks(values.Length, BLOCK_SIZE))
    modifies predict
    ensures predict[..] == Fill(values[..])
  {
    var n := values.Length;
    for t := 0 to |order|
      invariant forall k: nat :: k < n && BlockIndex(BLOCK_SIZE, k) in order[..t] ==> predict[k] == IdxVal(values[k], k)
    {
      var iBlock := order[t];
      assert iBlock in order;
      BlockBounds(n, BLOCK_SIZE, iBlock);
      FillBlock(values, predict, iBlock);
      assert order[..t + 1] == order[..t] + [iBlock];
    }
    forall k: nat | k < n
      ensures predict[k] == IdxVal(values[k], k)
    {
      BlockOf(n, BLOCK_SIZE, k);
      assert BlockIndex(BLOCK_SIZE, k) in order && order == order[..|order|];
    }
  }

  method FillBlock(values: array<real>, predict: array<IdxVal>, iBlock: nat)
    requires predict.Length == values.Length && iBlock < NumBlocks(values.Length, BLOCK_SIZE)
    modifies predict
    ensures forall k: nat :: k < values.Length ==>
        predict[k] == if BlockIndex(BLOCK_SIZE, k) == iBlock then IdxVal(values[k], k) else old(predict[k])
  {
    var n := values.Length;
    BlockBounds(n, BLOCK_SIZE, iBlock);
    var blockBegin := iBlock * BLOCK_SIZE;
    var blockSize := if iBlock == NumBlocks(n, BLOCK_SIZE) - 1 then n - blockBegin else BLOCK_SIZE;
    for i := 0 to blockSize
      invariant forall k: nat :: k < n ==>
          predict[k] == if blockBegin <= k < blockBegin + i then IdxVal(values[k], k) else old(predict[k])
    {
      var idx := blockBegin + i;
      predict[idx] := IdxVal(values[idx], idx);
    }
    forall k: nat | k < n
      ensures blockBegin <= k < blockBegin + blockSize <==> BlockIndex(BLOCK_SIZE, k) == iBlock
    {
      BlockOf(n, BLOCK_SIZE, k);
    }
  }

  /** `parallel_sort`: leaves some sort outcome of the buffer; `outcome` says which. */
  method ParallelSort(predict: array<IdxVal>, outcome: seq<IdxVal>, ghost values: seq<real>)
    requires predict[..] == Fill(values) && SortOutcome(values, outcome)
    modifies predict
    ensures predict[..] == outcome
  {
    SameLength(outcome, Fill(values));
    for k := 0 to |outcome|
      invariant predict[..k] == outcome[..k]
    {
      predict[k] := outcome[k];
    }
  }

  /** Lines 75-80: the end of the tie block that starts at `i`. */
  method TieBlockEnd(predict: array<IdxVal>, i: nat, ghost values: seq<real>) returns (e: nat)
    requires i < predict.Length && SortOutcome(values, predict[..])
    requires i > 0 ==> predict[i - 1].value < predict[i].value
    ensures i < e <= predict.Length && TieBlock(predict[..], i, e)
  {
    var p := predict[..];
    var j := i;
    while j < predict.Length - 1 && predict[j].value == predict[j + 1].value
      invariant i <= j < predict.Length
      invariant forall k :: i <= k <= j ==> p[k].value == p[i].value
    {
      j := j + 1;
    }
    e := j + 1;
    assert forall k :: 0 <= k < i ==> p[k].value <= p[i - 1].value;
    assert forall k :: e <= k < |p| ==> p[e].value <= p[k].value;
  }

  /** Every entry listed before `i` has its midrank. */
  ghost predicate RankedUpTo(values: seq<real>, p: seq<IdxVal>, ranks: seq<real>, i: int) {
    && |ranks| == |values| == |p| && 0 <= i <= |p|
    && forall k :: 0 <= k < i ==> p[k].index < |ranks| && ranks[p[k].index] == MidRank(values, p[k].value)
  }

  /** Lines 84-88. */
  method AssignRanks(predict: array<IdxVal>, ranks: array<real>, i: nat, e: nat, rank: nat, ghost values: seq<real>)
    requires ranks.Length == predict.Length == |values| && SortOutcome(values, predict[..])
    requires TieBlock(predict[..], i, e) && rank == i + 1 && RankedUpTo(values, predict[..], ranks[..], i)
    modifies ranks
    ensures RankedUpTo(values, predict[..], ranks[..], e)
  {
    var elementsInBlock := e - i;
    ghost var p := predict[..];
    OutcomeIndexes(values, p);
    BlockRank(values, p, i, e);
    for j := 0 to elementsInBlock
      invariant RankedUpTo(values, p, ranks[..], i + j)
    {
      var idx := predict[i + j].index;
      ranks[idx] := rank as real + (elementsInBlock as real - 1.0) * 0.5;
    }
  }

  /** Lines 68-92: one pass over the sorted buffer. */
  method ComputeRanks(predict: array<IdxVal>, ranks: array<real>, ghost values: seq<real>)
    requires ranks.Length == predict.Length == |values| && SortOutcome(values, predict[..])
    modifies ranks
    ensures forall k :: 0 <= k < |values| ==> ranks[k] == MidRank(values, values[k])
  {
    var nElements := predict.Length;
    var rank, i := 1, 0;
    while i < nElements
      invariant 0 <= i <= nElements && rank == i + 1
      invariant 0 < i < nElements ==> predict[i - 1].value < predict[i].value
      invariant RankedUpTo(values, predict[..], ranks[..], i)
    {
      var e := TieBlockEnd(predict, i, values);
      ghost var p := predict[..];
      AssignRanks(predict, ranks, i, e, rank, values);
      assert e < nElements ==> p[e - 1].value < p[e].value;
      rank := rank + (e - i);
      i := e;
    }
    OutcomeIndexes(values, predict[..]);
    forall k: nat | k < |values|
      ensures ranks[k] == MidRank(values, values[k])
    {
      var m := IndexListed(values, predict[..], k);
      assert ranks[..][predict[..][m].index] == MidRank(values, predict[..][m].value);
    }
  }

  function FilteredSum(labels: seq<int>, ranks: seq<real>): real
    requires |labels| == |ranks|
  {
    if labels == [] then 0.0 else (if labels[0] == 1 then ranks[0] else 0.0) + FilteredSum(labels[1..], ranks[1..])
  }

  function LabelSum(labels: seq<int>): int {
    if labels == [] then 0 else labels[0] + LabelSum(labels[1..])
  }

  /** The sum counts every label with its value. */
  lemma {:induction false} LabelSumAppend(s: seq<int>, t: seq<int>)
    ensures LabelSum(s + t) == LabelSum(s) + LabelSum(t)
    ensures |s| == 1 ==> LabelSum(s) == s[0]
  {
    if s == [] {
      assert s + t == t;
    } else {
      assert (s + t)[1..] == s[1..] + t;
      LabelSumAppend(s[1..], t);
    }
  }

  lemma {:induction false} FilteredSumIsMidRankSum(all: seq<real>, values: seq<real>, labels: seq<int>,
      ranks: seq<real>)
    requires |values| == |labels| == |ranks|
    requires forall k :: 0 <= k < |values| ==> ranks[k] == MidRank(all, values[k])
    ensures FilteredSum(labels, ranks) == MidRankSum(Labelled(values, labels, true), all)
  {
    if values != [] {
      FilteredSumIsMidRankSum(all, values[1..], labels[1..], ranks[1..]);
      var rest := Labelled(values[1..], labels[1..], true);
      assert ([values[0]] + rest)[1..] == rest;
      assert [] + rest == rest;
    }
  }

  lemma {:induction false} BinaryLabelSum(values: seq<real>, labels: seq<int>)
    requires |values| == |labels| && Binary(labels)
    ensures LabelSum(labels) == |Labelled(values, labels, true)|
    ensures |values| - LabelSum(labels) == |Labelled(values, labels, false)|
  {
    if values != [] {
      BinaryLabelSum(values[1..], labels[1..]);
    }
  }

  /** Lines 93-110: sums the labels, and the ranks of the positives, block by block. */
  method SumPositives(labels: array<int>, ranks: array<real>) returns (nPos: real, filteredRankSum: real)
    requires labels.Length == ranks.Length
    ensures nPos == LabelSum(labels[..]) as real
    ensures filteredRankSum == FilteredSum(labels[..], ranks[..])
  {
    var nElements := labels.Length;
    var nBlocks := NumBlocks(nElements, BLOCK_SIZE);
    nPos, filteredRankSum := 0.0, 0.0;
    var done := 0;
    for iBlock := 0 to nBlocks
      invariant done == if iBlock == nBlocks then nElements else iBlock * BLOCK_SIZE
      invariant 0 <= done <= nElements
      invariant Summed(labels[..], ranks[..], done, nPos, filteredRankSum)
    {
      var blockBegin := iBlock * BLOCK_SIZE;
      var blockSize := if iBlock == nBlocks - 1 then nElements - blockBegin else BLOCK_SIZE;
      BlockBounds(nElements, BLOCK_SIZE, iBlock);
      for i := 0 to blockSize
        invariant done == blockBegin + i
        invariant Summed(labels[..], ranks[..], done, nPos, filteredRankSum)
      {
        SummedStep(labels[..], ranks[..], done, nPos, filteredRankSum);
        nPos := nPos + labels[blockBegin + i] as real;
        if labels[blockBegin + i] == 1 {
          filteredRankSum := filteredRankSum + ranks[i + blockBegin];
        }
        done := done + 1;
      }
    }
  }

  /** The accumulators hold the sums over the first `done` elements. */
  ghost predicate Summed(labels: seq<int>, ranks: seq<real>, done: int, nPos: real, rankSum: real) {
    && |labels| == |ranks| && 0 <= done <= |labels|
    && nPos + LabelSum(labels[done..]) as real == LabelSum(labels) as real
    && rankSum + FilteredSum(labels[done..], ranks[done..]) == FilteredSum(labels, ranks)
  }

  lemma SummedStep(labels: seq<int>, ranks: seq<real>, done: int, nPos: real, rankSum: real)
    requires Summed(labels, ranks, done, nPos, rankSum) && done < |labels|
    ensures Summed(labels, ranks, done + 1, nPos + labels[done] as real,
              if labels[done] == 1 then rankSum + ranks[done] else rankSum)
  {
    assert labels[done..][1..] == labels[done + 1..] && ranks[done..][1..] == ranks[done + 1..];
  }

  /** The score; none when its quotient is undefined. */
  method RocAucScore(labels: array<int>, values: array<real>, order: seq<nat>, outcome: seq<IdxVal>)
    returns (score: Option<real>)
    requires labels.Length == values.Length
    requires Schedule(order, NumBlocks(values.Length, BLOCK_SIZE)) && SortOutcome(values[..], outcome)
    ensures ScoreIs(values[..], labels[..], score)
    ensures Binary(labels[..]) ==> ScoreCountsPairs(values[..], labels[..], score)
  {
    var nElements := labels.Length;
    var predict := new IdxVal[nElements];
    FillPredict(values, predict, order);
    ParallelSort(predict, outcome, values[..]);
    var predictedRank := new real[nElements];
    ComputeRanks(predict, predictedRank, values[..]);
    var nPos, filteredRankSum := SumPositives(labels, predictedRank);
    var nNeg := nElements as real - nPos;
    ScoreMeaning(values[..], labels[..], predictedRank[..], nPos, nNeg, filteredRankSum);
    score := Score(filteredRankSum, nPos, nNeg);
    if Binary(labels[..]) {
      BinaryScore(values[..], labels[..], score);
    }
  }

  /** Line 112. */
  function Score(filteredRankSum: real, nPos: real, nNeg: real): Option<real> {
    if nPos * nNeg == 0.0 then None
    else Some((filteredRankSum - nPos * (nPos + 1.0) * 0.5) / (nPos * nNeg))
  }

  /** A triangular number. */
  function Triangle(n: real): real {
    n * (n + 1.0) * 0.5
  }

  /** `score` is `numerator` over the product of two numbers, when there are any. */
  ghost predicate IsQuotient(score: Option<real>, numerator: real, nPos: real, nNeg: real) {
    && (score.Some? <==> nPos != 0.0 && nNeg != 0.0)
    && (score.Some? ==> score.value * (nPos * nNeg) == numerator)
  }

  /** What the score is for any labels: the pairs won, ties at one half, corrected by what the sum of the labels
      differs from the number of ones, over the product of that sum and the rest. */
  ghost predicate ScoreIs(values: seq<real>, labels: seq<int>, score: Option<real>) {
    && |values| == |labels|
    && var ones, sum := |WithLabelOne(labels)| as real, LabelSum(labels) as real;
    IsQuotient(score, PairPoints(values, labels) + (Triangle(ones) - Triangle(sum)), sum, |labels| as real - sum)
  }

  ghost function PairPoints(values: seq<real>, labels: seq<int>): real
    requires |values| == |labels|
  {
    |WonPairs(values, labels)| as real + 0.5 * |TiedPairs(values, labels)| as real
  }

  /** What the score is meant to be: it exists exactly when both classes are present, and scales to the number of
      pairs of a positive above a negative, ties at one half. */
  ghost predicate ScoreCountsPairs(values: seq<real>, labels: seq<int>, score: Option<real>) {
    && |values| == |labels|
    && IsQuotient(score, PairPoints(values, labels), |WithLabelOne(labels)| as real, |WithOtherLabel(labels)| as real)
  }

  lemma ScoreMeaning(values: seq<real>, labels: seq<int>, ranks: seq<real>, nPos: real, nNeg: real, rankSum: real)
    requires |values| == |labels| == |ranks|
    requires forall k :: 0 <= k < |values| ==> ranks[k] == MidRank(values, values[k])
    requires nPos == LabelSum(labels) as real && nNeg == |values| as real - nPos
    requires rankSum == FilteredSum(labels, ranks)
    ensures ScoreIs(values, labels, Score(rankSum, nPos, nNeg))
  {
    hide MidRank, LabelSum, FilteredSum, Labelled, PairsAbove, PairsTied, Score, IsQuotient, MidRankSum, Triangle;
    hide WonPairs, TiedPairs, WithLabelOne, WithOtherLabel;
    var ones := |Labelled(values, labels, true)| as real;
    FilteredSumIsMidRankSum(values, values, labels, ranks);
    RankSumCountsPairs(values, labels);
    CountsByPosition(values, labels);
    TriangleIs(ones);
    ScoreIsQuotient(rankSum, PairPoints(values, labels), ones, nPos, nNeg);
  }

  lemma TriangleIs(n: real)
    ensures Triangle(n) == 0.5 * n * (n + 1.0)
  {
  }

  lemma ScoreIsQuotient(rankSum: real, points: real, ones: real, nPos: real, nNeg: real)
    requires rankSum - Triangle(ones) == points
    ensures IsQuotient(Score(rankSum, nPos, nNeg), points + (Triangle(ones) - Triangle(nPos)), nPos, nNeg)
  {
    hide Triangle;
    var d, top := nPos * nNeg, rankSum - nPos * (nPos + 1.0) * 0.5;
    assert top == rankSum - Triangle(nPos) by { TriangleDefinition(nPos); }
    ProductZero(nPos, nNeg);
    if d != 0.0 {
      assert top / d * d == top;
    }
  }

  lemma TriangleDefinition(n: real)
    ensures Triangle(n) == n * (n + 1.0) * 0.5
  {
  }

  lemma ProductZero(x: real, y: real)
    ensures x * y == 0.0 <==> x == 0.0 || y == 0.0
  {
    if x != 0.0 {
      assert x * y / x == y;
    }
  }

  /** For 0/1 labels the sum is the number of ones, and nothing is to correct. */
  lemma BinaryScore(values: seq<real>, labels: seq<int>, score: Option<real>)
    requires ScoreIs(values, labels, score) && Binary(labels)
    ensures ScoreCountsPairs(values, labels, score)
  {
    BinaryLabelSum(values, labels);
    CountsByPosition(values, labels);
  }

  lemma {:induction false} LabelledSizes(values: seq<real>, labels: seq<int>)
    requires |values| == |labels|
    ensures |Labelled(values, labels, true)| + |Labelled(values, labels, false)| == |labels|
  {
    if values != [] {
      LabelledSizes(values[1..], labels[1..]);
    }
  }

  /** With both classes present, the score counts pairs, whatever the values, exactly when the labels sum to the
      number of ones. */
  lemma ScoreCountsPairsIff(labels: seq<int>)
    requires WithLabelOne(labels) != {} && WithOtherLabel(labels) != {}
    ensures LabelSum(labels) == |WithLabelOne(labels)|
       <==> forall values, score :: ScoreIs(values, labels, score) ==> ScoreCountsPairs(values, labels, score)
  {
    hide LabelSum, WithLabelOne, WithOtherLabel, PairPoints;
    if LabelSum(labels) == |WithLabelOne(labels)| {
      forall values, score | ScoreIs(values, labels, score)
        ensures ScoreCountsPairs(values, labels, score)
      {
        CountsByPosition(values, labels);
        LabelledSizes(values, labels);
      }
    } else {
      var value, score := CountsOtherwise(labels);
    }
  }

  /** Scores that tell the classes apart, the right way round or the wrong one. */
  function ByClass(labels: seq<int>, ones: real, others: real): (values: seq<real>)
    ensures |values| == |labels|
  {
    seq(|labels|, i requires 0 <= i < |labels| => if labels[i] == 1 then ones else others)
  }

  /** When the labels sum to something else, one of these two inputs is scored wrongly. */
  lemma CountsOtherwise(labels: seq<int>) returns (values: seq<real>, score: Option<real>)
    requires WithLabelOne(labels) != {} && WithOtherLabel(labels) != {} && LabelSum(labels) != |WithLabelOne(labels)|
    ensures ScoreIs(values, labels, score) && !ScoreCountsPairs(values, labels, score)
  {
    var ones, others, sum := |WithLabelOne(labels)| as real, |WithOtherLabel(labels)| as real, LabelSum(labels) as real;
    var rest := |labels| as real - sum;
    var low, high := ByClass(labels, 0.0, 1.0), ByClass(labels, 1.0, 0.0);
    PointsByClass(labels);
    hide LabelSum, WithLabelOne, WithOtherLabel, PairPoints, IsQuotient, Triangle;
    if sum == 0.0 || rest == 0.0 || Triangle(ones) != Triangle(sum) {
      values := low;
      score := CorrectionShows(ones, others, sum, rest, Triangle(ones) - Triangle(sum));
    } else {
      SameTriangle(ones, sum);
      values := high;
      score := SignShows(ones, others, sum, rest, PairPoints(high, labels));
    }
  }

  lemma CorrectionShows(ones: real, others: real, sum: real, rest: real, correction: real) returns (score: Option<real>)
    requires ones > 0.0 && others > 0.0 && (sum == 0.0 || rest == 0.0 || correction != 0.0)
    ensures IsQuotient(score, 0.0 + correction, sum, rest) && !IsQuotient(score, 0.0, ones, others)
  {
    ProductZero(sum, rest);
    if sum == 0.0 || rest == 0.0 {
      score := None;
    } else {
      score := Some(correction / (sum * rest));
      QuotientTimes(correction, sum * rest);
      PositiveProduct(ones, others);
      WrongAtZero(score.value, ones * others, sum * rest, correction);
    }
  }

  lemma SignShows(ones: real, others: real, sum: real, rest: real, points: real) returns (score: Option<real>)
    requires ones > 0.0 && others > 0.0 && sum < 0.0 && rest > 0.0 && points > 0.0
    ensures IsQuotient(score, points + 0.0, sum, rest) && !IsQuotient(score, points, ones, others)
  {
    NegativeProduct(sum, rest);
    PositiveProduct(ones, others);
    score := Some(points / (sum * rest));
    QuotientTimes(points, sum * rest);
    WrongSign(score.value, points, sum * rest, ones * others);
  }

  lemma PointsByClass(labels: seq<int>)
    requires WithLabelOne(labels) != {} && WithOtherLabel(labels) != {}
    ensures PairPoints(ByClass(labels, 0.0, 1.0), labels) == 0.0 && PairPoints(ByClass(labels, 1.0, 0.0), labels) > 0.0
  {
    var low, high := ByClass(labels, 0.0, 1.0), ByClass(labels, 1.0, 0.0);
    assert WonPairs(low, labels) == {} && TiedPairs(low, labels) == {};
    var i :| i in WithLabelOne(labels);
    var j :| j in WithOtherLabel(labels);
    assert (i, j) in WonPairs(high, labels);
  }

  lemma QuotientTimes(x: real, d: real)
    requires d != 0.0
    ensures x / d * d == x
  {
  }

  lemma WrongAtZero(value: real, pairs: real, d: real, correction: real)
    requires value * d == correction && correction != 0.0 && pairs != 0.0
    ensures value * pairs != 0.0
  {
    assert value != 0.0;
    ProductZero(value, pairs);
  }

  lemma WrongSign(value: real, points: real, d: real, pairs: real)
    requires value * d == points && points > 0.0 && d < 0.0 && pairs > 0.0
    ensures value * pairs != points
  {
    if value > 0.0 {
      NegativeProduct(d, value);
    } else {
      NonPositiveProduct(value, pairs);
    }
  }

  lemma NonPositiveProduct(x: real, y: real)
    requires x <= 0.0 && y > 0.0
    ensures x * y <= 0.0
  {
  }

  lemma NegativeProduct(x: real, y: real)
    requires x < 0.0 && y > 0.0
    ensures x * y < 0.0
  {
  }

  lemma PositiveProduct(x: real, y: real)
    requires x > 0.0 && y > 0.0
    ensures x * y > 0.0
  {
  }

  /** Two numbers have the same triangle when they are equal, or mirrored around -1/2. */
  lemma SameTriangle(x: real, y: real)
    requires Triangle(x) == Triangle(y) && x != y
    ensures y == -x - 1.0
  {
    assert (x - y) * (x + y + 1.0) == 2.0 * (Triangle(x) - Triangle(y));
    ProductZero(x - y, x + y + 1.0);
  }

  /** Labels 1 and -1 sum to 0: there is no score, although both classes are present. */
  lemma SignedLabelsHaveNoScore(score: Option<real>)
    requires ScoreIs([2.0, 1.0], [1, -1], score)
    ensures score.None? && !ScoreCountsPairs([2.0, 1.0], [1, -1], score)
  {
    assert [1, -1][1..] == [-1] && [-1][1..] == [];
    assert LabelSum([1, -1]) == 0;
    assert 0 in WithLabelOne([1, -1]) && 1 in WithOtherLabel([1, -1]);
  }
}
