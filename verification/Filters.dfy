/** The elements of a sequence that satisfy a predicate, in their order. */
module Filters {
  import opened Multisets

  function Keep<T>(f: T -> bool, x: T): seq<T> {
    if f(x) then [x] else []
  }

  function Filter<T>(f: T -> bool, s: seq<T>): seq<T> {
    if s == [] then [] else Keep(f, s[0]) + Filter(f, s[1..])
  }

  lemma FilterOne<T>(f: T -> bool, x: T)
    ensures Filter(f, [x]) == Keep(f, x)
  {
    assert [x][1..] == [];
  }

  lemma Associate<T>(s: seq<T>, t: seq<T>, u: seq<T>)
    ensures s + (t + u) == (s + t) + u
  {
  }

  lemma {:induction false} FilterConcat<T>(f: T -> bool, s: seq<T>, t: seq<T>)
    ensures Filter(f, s + t) == Filter(f, s) + Filter(f, t)
  {
    if s == [] {
      assert s + t == t;
    } else {
      FilterConcat(f, s[1..], t);
      hide Keep;
      assert (s + t)[0] == s[0] && (s + t)[1..] == s[1..] + t;
      Associate(Keep(f, s[0]), Filter(f, s[1..]), Filter(f, t));
    }
  }

  lemma {:induction false} FilterNone<T>(f: T -> bool, s: seq<T>)
    requires forall k :: 0 <= k < |s| ==> !f(s[k])
    ensures Filter(f, s) == []
  {
    if s != [] {
      FilterNone(f, s[1..]);
    }
  }

  lemma {:induction false} FilterAll<T>(f: T -> bool, s: seq<T>)
    requires forall k :: 0 <= k < |s| ==> f(s[k])
    ensures Filter(f, s) == s
  {
    if s != [] {
      FilterAll(f, s[1..]);
      assert s == [s[0]] + s[1..];
    }
  }

  /** The elements left out do not matter. */
  lemma {:induction false} FilterSame<T>(f: T -> bool, s: seq<T>, t: seq<T>)
    requires |s| == |t| && forall k :: 0 <= k < |s| && (f(s[k]) || f(t[k])) ==> s[k] == t[k]
    ensures Filter(f, s) == Filter(f, t)
  {
    if s != [] {
      FilterSame(f, s[1..], t[1..]);
    }
  }

  function Indicator<T>(f: T -> bool): T -> real {
    x => if f(x) then 1.0 else 0.0
  }

  lemma {:induction false} FilterCounts<T>(f: T -> bool, s: seq<T>)
    ensures Sum(Indicator(f), s) == |Filter(f, s)| as real
  {
    if s != [] {
      FilterCounts(f, s[1..]);
    }
  }

  lemma FilterSize<T>(f: T -> bool, s: seq<T>, t: seq<T>)
    requires multiset(s) == multiset(t)
    ensures |Filter(f, s)| == |Filter(f, t)|
  {
    FilterCounts(f, s);
    FilterCounts(f, t);
    SumRearranged(Indicator(f), s, t);
  }

  ghost predicate Ascending(places: seq<int>) {
    forall i, j :: 0 <= i < j < |places| ==> places[i] < places[j]
  }

  /** Every place known to fail the predicate is missing from the result. */
  lemma {:induction false} FilterMisses<T>(f: T -> bool, s: seq<T>, places: seq<int>)
    requires Ascending(places) && forall i :: 0 <= i < |places| ==> 0 <= places[i] < |s| && !f(s[places[i]])
    ensures |Filter(f, s)| + |places| <= |s|
    decreases |s|
  {
    if s != [] {
      var n := |s| - 1;
      var init := s[..n];
      assert s == init + [s[n]];
      FilterConcat(f, init, [s[n]]);
      FilterOne(f, s[n]);
      if places != [] && places[|places| - 1] == n {
        FilterMisses(f, init, places[..|places| - 1]);
      } else {
        FilterMisses(f, init, places);
      }
    }
  }
}
