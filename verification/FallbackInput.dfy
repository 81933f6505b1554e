/** Inputs that drive the introsort into its heap fallback: at every level the pivot is as bad as the samples
    allow, so the range loses four elements, or two when it is short, until the limit is used up. */
module FallbackInput {
  import opened Filters
  import opened IntroSort
  import opened Orders
  import opened Partition
  import opened Sampling
  import opened Segments

  function Below(): (int, int) -> bool {
    (x, y) => x < y
  }

  lemma BelowIsOrder()
    ensures StrictWeakOrder(Below())
  {
  }

  /** How many elements a level takes off a range of this length. */
  function Removed(count: nat): nat {
    if count <= MIDDLE_OF_3_THRESHOLD then 2 else if 45 <= count < 49 then count - 41 else 4
  }

  /** What is left after so many levels. */
  function Remaining(count: int, levels: nat): int
    decreases levels
  {
    if levels == 0 || count < 0 then count else Remaining(count - Removed(count), levels - 1)
  }

  /** At every level the range is long enough to be partitioned, and its samples right of the pivot outlive the run. */
  ghost predicate Feasible(count: nat, levels: nat) {
    if levels == 0 then count > INSERTION_SORT_MAX_SIZE
    else
      && (35 <= count <= MIDDLE_OF_3_THRESHOLD || (45 <= count && count / 8 < Remaining(count, levels) / 2))
      && Feasible(count - Removed(count), levels - 1)
  }

  ghost predicate Plantable(count: nat) {
    35 <= count && count !in {42, 43, 44}
  }

  /** The places of the pivot and of what is sampled left of it. */
  predicate IsPlanted(count: nat, i: nat) {
    if count <= MIDDLE_OF_3_THRESHOLD then i == 0 || i == count / 2
    else i <= Removed(count) - 4 || i == count / 8 || i == count / 2 - count / 8 || i == count / 2
  }

  /** How many of these places come before `i`. */
  function PlantedBefore(count: nat, i: nat): nat {
    if count <= MIDDLE_OF_3_THRESHOLD then (if i == 0 then 0 else if i <= count / 2 then 1 else 2)
    else
      var extra := Removed(count) - 4;
      if i <= extra then i
      else if i <= count / 8 then extra + 1
      else if i <= count / 2 - count / 8 then extra + 2
      else if i <= count / 2 then extra + 3
      else extra + 4
  }

  lemma PlantedPlaces(count: nat, i: nat, j: nat)
    requires Plantable(count) && i <= j < count
    ensures IsPlanted(count, i) ==> PlantedBefore(count, i) < Removed(count)
    ensures !IsPlanted(count, i)
        ==> PlantedBefore(count, i) <= i && i - PlantedBefore(count, i) < count - Removed(count)
    ensures i < j && IsPlanted(count, i) ==> PlantedBefore(count, i) < PlantedBefore(count, j)
    ensures i < j && !IsPlanted(count, i) && !IsPlanted(count, j)
        ==> i - PlantedBefore(count, i) < j - PlantedBefore(count, j)
    ensures i > count / 2 ==> !IsPlanted(count, i) && PlantedBefore(count, i) == Removed(count)
  {
  }

  /** `t` with the smallest elements lo, lo + 1, ... at the planted places. */
  function Planted(t: seq<int>, count: nat, lo: int): (s: seq<int>)
    requires Plantable(count) && |t| == count - Removed(count)
    ensures |s| == count
  {
    seq(count, i requires 0 <= i < count => PlantedAt(t, count, lo, i))
  }

  function PlantedAt(t: seq<int>, count: nat, lo: int, i: nat): int
    requires Plantable(count) && |t| == count - Removed(count) && i < count
  {
    PlantedPlaces(count, i, i);
    if IsPlanted(count, i) then lo + PlantedBefore(count, i) else t[i - PlantedBefore(count, i)]
  }

  /** An input of this length, of different elements from `lo` up, for so many bad levels. */
  function BadInput(count: nat, levels: nat, lo: int): (s: seq<int>)
    requires Feasible(count, levels)
    ensures |s| == count
    decreases levels
  {
    if levels == 0 then seq(count, i => lo + i)
    else Planted(BadInput(count - Removed(count), levels - 1, lo + Removed(count)), count, lo)
  }

  // ---- its elements ----

  /** All elements from `lo` up are different; those from `v` up rise, and the last ones are among them. */
  ghost predicate Rising(s: seq<int>, lo: int, v: int, tail: int) {
    && (forall i :: 0 <= i < |s| ==> lo <= s[i])
    && (forall i, j :: 0 <= i < j < |s| ==> s[i] != s[j])
    && (forall i, j :: 0 <= i < j < |s| && v <= s[i] && v <= s[j] ==> s[i] < s[j])
    && 0 <= tail <= |s| && (forall j :: |s| - tail <= j < |s| ==> v <= s[j])
  }

  lemma PlantedRises(t: seq<int>, count: nat, lo: int, v: int, tail: int)
    requires Plantable(count) && |t| == count - Removed(count)
    requires Rising(t, lo + Removed(count), v, tail) && lo + Removed(count) <= v && tail < count - count / 2
    ensures Rising(Planted(t, count, lo), lo, v, tail)
  {
    hide IsPlanted, PlantedBefore, Removed, Plantable;
    var s := Planted(t, count, lo);
    forall i | 0 <= i < count
      ensures lo <= s[i] && (count - tail <= i ==> v <= s[i])
    {
      PlantedPlaces(count, i, i);
    }
    forall i, j | 0 <= i < j < count
      ensures s[i] != s[j] && (v <= s[i] && v <= s[j] ==> s[i] < s[j])
    {
      PlantedPlaces(count, i, j);
      PlantedPlaces(count, j, j);
    }
  }

  /** All elements right of the middle are those of `t`, the planted ones are smaller. */
  lemma PlantedPivot(t: seq<int>, count: nat, lo: int, i: nat)
    requires Plantable(count) && |t| == count - Removed(count) && i < count
    requires forall k :: 0 <= k < |t| ==> lo + Removed(count) <= t[k]
    ensures Planted(t, count, lo)[count / 2] == lo + Removed(count) - 1
    ensures if IsPlanted(count, i) then Planted(t, count, lo)[i] <= lo + Removed(count) - 1
            else Planted(t, count, lo)[i] > lo + Removed(count) - 1
  {
    PlantedPlaces(count, i, i);
  }

  lemma NextPlanted(count: nat, i: nat)
    requires Plantable(count) && i < count
    ensures PlantedBefore(count, i + 1) == PlantedBefore(count, i) + if IsPlanted(count, i) then 1 else 0
    ensures PlantedBefore(count, 0) == 0 && PlantedBefore(count, count) == Removed(count)
    ensures PlantedBefore(count, i) <= i && i - PlantedBefore(count, i) <= count - Removed(count)
  {
  }

  lemma FilterPrefix<T>(f: T -> bool, s: seq<T>, i: nat)
    requires 0 < i <= |s|
    ensures Filter(f, s[..i]) == Filter(f, s[..i - 1]) + Keep(f, s[i - 1])
  {
    assert s[..i] == s[..i - 1] + [s[i - 1]];
    FilterConcat(f, s[..i - 1], [s[i - 1]]);
    FilterOne(f, s[i - 1]);
  }

  lemma PrefixGrows<T>(t: seq<T>, k: int)
    requires 0 <= k <= |t|
    ensures t[..k] + [] == t[..k] && (k < |t| ==> t[..k + 1] == t[..k] + [t[k]])
  {
  }

  /** The greater elements of a prefix are a prefix of `t`. */
  lemma {:induction false} PlantedFilter(t: seq<int>, count: nat, lo: int, i: nat)
    requires Plantable(count) && |t| == count - Removed(count) && i <= count
    requires forall k :: 0 <= k < |t| ==> lo + Removed(count) <= t[k]
    ensures 0 <= i - PlantedBefore(count, i) <= |t|
    ensures Filter(GreaterThan(Below(), lo + Removed(count) - 1), Planted(t, count, lo)[..i])
        == t[..i - PlantedBefore(count, i)]
  {
    hide IsPlanted, PlantedBefore, Removed;
    var f, s := GreaterThan(Below(), lo + Removed(count) - 1), Planted(t, count, lo);
    if i == 0 {
      NextPlanted(count, 0);
      assert s[..0] == [];
    } else {
      PlantedFilter(t, count, lo, i - 1);
      NextPlanted(count, i - 1);
      PlantedPlaces(count, i - 1, i - 1);
      PlantedPivot(t, count, lo, i - 1);
      hide Planted;
      FilterPrefix(f, s, i);
      PrefixGrows(t, i - 1 - PlantedBefore(count, i - 1));
    }
  }

  lemma PlantedGreater(t: seq<int>, count: nat, lo: int)
    requires Plantable(count) && |t| == count - Removed(count)
    requires forall k :: 0 <= k < |t| ==> lo + Removed(count) <= t[k]
    ensures var s := Planted(t, count, lo); Filter(GreaterThan(Below(), s[count / 2]), s) == t
  {
    PlantedFilter(t, count, lo, count);
    NextPlanted(count, count - 1);
    PlantedPivot(t, count, lo, 0);
    var s := Planted(t, count, lo);
    assert s[..count] == s && t[..|t|] == t;
  }

  /** The samples are in order: the planted ones by their values, those on the right because they outlive the run
      or are planted later. */
  lemma PlantedCalm(t: seq<int>, count: nat, lo: int, v: int, tail: int)
    requires Plantable(count) && |t| == count - Removed(count)
    requires Rising(t, lo + Removed(count), v, tail) && lo + Removed(count) <= v && 1 <= tail < count - count / 2
    requires count <= MIDDLE_OF_3_THRESHOLD || count / 8 < tail
    ensures Calm(Below(), Planted(t, count, lo))
  {
    hide Planted, Removed, Filter;
    var s := Planted(t, count, lo);
    PlantedRises(t, count, lo, v, tail);
    PlantedRight(t, count, lo);
    if count <= MIDDLE_OF_3_THRESHOLD {
      PlantedShort(t, count, lo);
    } else {
      PlantedSamples(t, count, lo);
      assert s[count - 2 * (count / 8) - 1] < s[count - count / 8 - 1] < s[count - 1];
    }
  }

  lemma PlantedRight(t: seq<int>, count: nat, lo: int)
    requires Plantable(count) && |t| == count - Removed(count)
    requires forall k :: 0 <= k < |t| ==> lo + Removed(count) <= t[k]
    ensures forall k :: count / 2 < k < count ==> Planted(t, count, lo)[count / 2] < Planted(t, count, lo)[k]
  {
    forall k | count / 2 < k < count
      ensures Planted(t, count, lo)[count / 2] < Planted(t, count, lo)[k]
    {
      PlantedPlaces(count, k, k);
      PlantedPivot(t, count, lo, k);
    }
  }

  lemma PlantedShort(t: seq<int>, count: nat, lo: int)
    requires Plantable(count) && |t| == count - Removed(count) && count <= MIDDLE_OF_3_THRESHOLD
    ensures Planted(t, count, lo)[0] < Planted(t, count, lo)[count / 2]
  {
  }

  lemma PlantedSamples(t: seq<int>, count: nat, lo: int)
    requires Plantable(count) && |t| == count - Removed(count) && count > MIDDLE_OF_3_THRESHOLD
    requires forall k :: 0 <= k < |t| ==> lo + Removed(count) <= t[k]
    ensures var s, step, mid := Planted(t, count, lo), count / 8, count / 2;
            s[0] < s[step] < s[2 * step] && s[mid - step] < s[mid] < s[mid + step] && s[step] < s[mid]
  {
    var s, step, mid := Planted(t, count, lo), count / 8, count / 2;
    PlantedPivot(t, count, lo, 2 * step);
    PlantedPivot(t, count, lo, mid + step);
    assert s[0] == lo && s[step] == lo + Removed(count) - 3 && s[mid - step] == lo + Removed(count) - 2;
  }

  // ---- its run ----

  lemma {:induction false} RemainingBounds(count: nat, levels: nat)
    requires Feasible(count, levels)
    ensures INSERTION_SORT_MAX_SIZE < Remaining(count, levels) <= count
    decreases levels
  {
    if levels > 0 {
      RemainingBounds(count - Removed(count), levels - 1);
    }
  }

  /** One level of the definitions. */
  lemma Unfolded(count: nat, levels: nat, lo: int)
    requires Feasible(count, levels) && levels > 0
    ensures Plantable(count) && 0 <= count - Removed(count) && Feasible(count - Removed(count), levels - 1)
    ensures Remaining(count, levels) == Remaining(count - Removed(count), levels - 1)
    ensures count <= MIDDLE_OF_3_THRESHOLD || count / 8 < Remaining(count, levels) / 2
    ensures BadInput(count, levels, lo)
        == Planted(BadInput(count - Removed(count), levels - 1, lo + Removed(count)), count, lo)
    ensures 2 <= Removed(count) && INSERTION_SORT_MAX_SIZE < count
  {
    hide Planted;
  }

  lemma PlainRises(count: nat, lo: int)
    ensures Rising(seq(count, i => lo + i), lo, lo, count / 2)
  {
  }

  /** The elements that outlive the run are the last ones planted before it, and rise. */
  lemma {:induction false} BadInputRises(count: nat, levels: nat, lo: int)
    requires Feasible(count, levels)
    ensures Rising(BadInput(count, levels, lo), lo, lo + count - Remaining(count, levels), Remaining(count, levels) / 2)
    decreases levels
  {
    hide Rising, Planted;
    if levels == 0 {
      PlainRises(count, lo);
    } else {
      Unfolded(count, levels, lo);
      RemainingBounds(count - Removed(count), levels - 1);
      var inner, left := BadInput(count - Removed(count), levels - 1, lo + Removed(count)), Remaining(count, levels);
      BadInputRises(count - Removed(count), levels - 1, lo + Removed(count));
      hide *;
      PlantedRises(inner, count, lo, lo + count - left, left / 2);
    }
  }

  lemma RisingFrom(s: seq<int>, lo: int, v: int, tail: int)
    requires Rising(s, lo, v, tail)
    ensures forall k :: 0 <= k < |s| ==> lo <= s[k]
  {
  }

  lemma CalmLevel<T>(less: (T, T) -> bool, seg: seq<T>, depthLimit: int, trace: Trace<T>)
    requires IsRun(less, seg, depthLimit, trace) && Calm(less, seg)
    requires |seg| > INSERTION_SORT_MAX_SIZE && depthLimit > 0
    ensures trace.Level? && IsRun(less, Filter(GreaterThan(less, seg[|seg| / 2]), seg), Shrink(depthLimit), trace.right)
  {
    hide Filter, Calm, Partitioned, Margin;
  }

  /** Such an input is calm, and its greater elements are the next one. */
  lemma BadInputCalm(count: nat, levels: nat, lo: int)
    requires Feasible(count, levels) && levels > 0
    ensures 0 <= count - Removed(count) && Feasible(count - Removed(count), levels - 1)
    ensures INSERTION_SORT_MAX_SIZE < count
    ensures Calm(Below(), BadInput(count, levels, lo))
    ensures Filter(GreaterThan(Below(), BadInput(count, levels, lo)[count / 2]), BadInput(count, levels, lo))
        == BadInput(count - Removed(count), levels - 1, lo + Removed(count))
  {
    hide BadInput, Planted, Rising, Feasible, Remaining, Removed, Calm, Filter, Plantable;
    Unfolded(count, levels, lo);
    var rest, from := count - Removed(count), lo + Removed(count);
    var inner, left := BadInput(rest, levels - 1, from), Remaining(rest, levels - 1);
    RemainingBounds(rest, levels - 1);
    BadInputRises(rest, levels - 1, from);
    RisingFrom(inner, from, from + rest - left, left / 2);
    PlantedCalm(inner, count, lo, from + rest - left, left / 2);
    PlantedGreater(inner, count, lo);
  }

  /** Every run on such an input, with a limit that allows no more levels, enters the fallback. */
  lemma {:induction false} FallbackEntered(count: nat, levels: nat, lo: int, depthLimit: int, trace: Trace<int>)
    requires Feasible(count, levels) && Levels(depthLimit) == levels
    requires IsRun(Below(), BadInput(count, levels, lo), depthLimit, trace)
    ensures !NoFallback(trace)
    decreases levels
  {
    hide IsRun, BadInput, Removed, Filter, Calm, Remaining, Feasible;
    if levels > 0 {
      LevelsUnfold(depthLimit, Shrink(depthLimit));
      hide Levels, Shrink;
      BadInputCalm(count, levels, lo);
      CalmLevel(Below(), BadInput(count, levels, lo), depthLimit, trace);
      FallbackEntered(count - Removed(count), levels - 1, lo + Removed(count), Shrink(depthLimit), trace.right);
    } else {
      RemainingBounds(count, levels);
      NoLevelsLeft(Below(), BadInput(count, levels, lo), depthLimit, trace);
    }
  }

  lemma NoLevelsLeft<T>(less: (T, T) -> bool, seg: seq<T>, depthLimit: int, trace: Trace<T>)
    requires IsRun(less, seg, depthLimit, trace)
    requires |seg| > INSERTION_SORT_MAX_SIZE && Levels(depthLimit) == 0
    ensures !NoFallback(trace)
  {
    hide Filter, Calm, Partitioned, Margin;
  }

  // ---- for which lengths there is one ----

  lemma {:induction false} EnoughRemains(count: nat, levels: nat)
    requires INSERTION_SORT_MAX_SIZE < count && count !in {42, 43, 44} && levels < LevelsNeeded(count)
    ensures Remaining(count, levels) > INSERTION_SORT_MAX_SIZE
    ensures Remaining(count, levels) >= if count <= MIDDLE_OF_3_THRESHOLD then count - 2 * levels
        else count - 4 * levels - 3
    decreases levels
  {
    if levels > 0 {
      EnoughRemains(count - Removed(count), levels - 1);
    }
  }

  lemma {:induction false} FeasibleWhen(count: nat, levels: nat, bound: nat)
    requires INSERTION_SORT_MAX_SIZE < count && count !in {42, 43, 44} && levels < LevelsNeeded(count)
    requires count / 8 <= bound < Remaining(count, levels) / 2
    ensures Feasible(count, levels)
    decreases levels
  {
    if levels > 0 {
      FeasibleWhen(count - Removed(count), levels - 1, bound);
    }
  }

  lemma LongFeasible(count: nat)
    requires !LimitSuffices(count)
    ensures Feasible(count, Levels(count))
  {
    hide Levels, Remaining, Feasible;
    LimitSufficesIff(count);
    EnoughRemains(count, Levels(count));
    if count >= 128 {
      LongLevels(count);
    }
    FeasibleWhen(count, Levels(count), count / 8);
  }

  /** The input of this length on which the introsort fails. */
  function FailingInput(count: nat): (s: seq<int>)
    requires !LimitSuffices(count)
    ensures |s| == count
  {
    LongFeasible(count);
    BadInput(count, Levels(count), 0)
  }

  lemma RisingDiffers(s: seq<int>, lo: int, v: int, tail: int)
    requires Rising(s, lo, v, tail)
    ensures AllDifferent(Below(), s)
  {
  }

  lemma FailingInputDiffers(count: nat)
    requires !LimitSuffices(count)
    ensures AllDifferent(Below(), FailingInput(count))
  {
    LongFeasible(count);
    BadInputRises(count, Levels(count), 0);
    hide Rising, BadInput, Levels, Feasible, Remaining;
    RisingDiffers(FailingInput(count), 0, count - Remaining(count, Levels(count)), Remaining(count, Levels(count)) / 2);
  }

  lemma FailingInputFallsBack(count: nat, trace: Trace<int>)
    requires !LimitSuffices(count) && IsRun(Below(), FailingInput(count), count, trace)
    ensures !NoFallback(trace)
  {
    hide IsRun, BadInput, Levels, Feasible;
    LongFeasible(count);
    FallbackEntered(count, Levels(count), 0, count, trace);
  }

  /** At every length for which the limit does not suffice, there is an input of different elements that every
      run of the introsort leaves unsorted. */
  lemma FailingInputStaysUnsorted(count: nat, trace: Trace<int>)
    requires !LimitSuffices(count) && IsRun(Below(), FailingInput(count), count, trace)
    ensures !Sorted(Below(), Output(trace))
  {
    hide *;
    FailingInputFallsBack(count, trace);
    FailingInputDiffers(count);
    BelowIsOrder();
    DifferentSortedIff(Below(), FailingInput(count), count, trace);
    RunSortsIff(Below(), FailingInput(count), count, trace);
  }

  /** The introsort on that input. */
  method SortFailingInput(count: nat) returns (a: array<int>)
    requires !LimitSuffices(count)
    ensures a.Length == count && multiset(a[..]) == multiset(FailingInput(count))
    ensures !SortedBy(Below(), a[..], 0, count)
  {
    hide BadInput, Levels, Feasible, IsRun, HeapsFit, Output;
    var s := FailingInput(count);
    a := new int[count](i requires 0 <= i < count => s[i]);
    assert a[..] == s && s[0..count] == s;
    ghost var trace := IntroSort.IntroSort(a, 0, count, Below());
    FailingInputStaysUnsorted(count, trace);
    ReplacedParts(s, a[..], 0, count, Output(trace));
    RunPermutes(Below(), s, count, trace);
    assert a[..][0..count] == a[..];
  }
}
