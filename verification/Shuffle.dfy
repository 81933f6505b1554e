/** Shuffled indices: masked rejection sampling driving a Fisher-Yates loop. */
module Shuffle {
  import opened Arith
  import opened Bits
  import opened Blocks
  import opened Multisets
  import opened Options
  import opened Segments

  // ---- the shuffle as a function of its choices ----

  /** js[i - 1] is the choice made at position i: one of 0..i. */
  ghost predicate Choices(js: seq<nat>) {
    forall i :: 0 <= i < |js| ==> js[i] <= i + 1
  }

  /** Positions |js|, ..., 1 are exchanged, in this order, with the chosen ones. */
  function Shuffled<T>(s: seq<T>, js: seq<nat>): seq<T>
    requires |js| < |s|
    requires forall i :: 0 <= i < |js| ==> js[i] <= i + 1
    decreases |js|
  {
    if js == [] then s
    else Shuffled(Swapped(s, |js|, js[|js| - 1]), js[..|js| - 1])
  }

  /** A shuffle is a permutation, and positions past the first choice stay. */
  lemma {:induction false} ShuffledPermutes<T>(s: seq<T>, js: seq<nat>)
    requires |js| < |s| && Choices(js)
    ensures |Shuffled(s, js)| == |s| && multiset(Shuffled(s, js)) == multiset(s)
    ensures forall k :: |js| < k < |s| ==> Shuffled(s, js)[k] == s[k]
    decreases |js|
  {
    if js != [] {
      var i := |js|;
      var t := Swapped(s, i, js[i - 1]);
      ShuffledPermutes(t, js[..i - 1]);
      SwapKeepsMultiset(s, i, js[i - 1]);
    }
  }

  lemma SwapKeepsMultiset<T>(s: seq<T>, i: nat, j: nat)
    requires i < |s| && j < |s|
    ensures multiset(Swapped(s, i, j)) == multiset(s)
  {
    SwapRearranges(s, i, j, 0, |s|);
    assert s[0..|s|] == s && Swapped(s, i, j)[0..|s|] == Swapped(s, i, j);
  }

  lemma SwapKeepsDistinct<T>(s: seq<T>, i: nat, j: nat)
    requires i < |s| && j < |s| && Distinct(s)
    ensures Distinct(Swapped(s, i, j))
  {
  }

  /** What ends at position |js| is what the first choice picked. */
  lemma FirstChoiceShows<T>(s: seq<T>, js: seq<nat>)
    requires 0 < |js| < |s| && Choices(js)
    ensures |Shuffled(s, js)| == |s| && Shuffled(s, js)[|js|] == s[js[|js| - 1]]
  {
    var t := Swapped(s, |js|, js[|js| - 1]);
    ShuffledPermutes(t, js[..|js| - 1]);
  }

  /** Different choices give different permutations. */
  lemma {:induction false} ShuffleInjective<T>(s: seq<T>, js: seq<nat>, js': seq<nat>)
    requires Distinct(s) && |js| == |js'| < |s| && Choices(js) && Choices(js')
    requires Shuffled(s, js) == Shuffled(s, js')
    ensures js == js'
    decreases |js|
  {
    if js != [] {
      var i := |js|;
      FirstChoiceShows(s, js);
      FirstChoiceShows(s, js');
      assert js[i - 1] == js'[i - 1];
      SwapKeepsDistinct(s, i, js[i - 1]);
      ShuffleInjective(Swapped(s, i, js[i - 1]), js[..i - 1], js'[..i - 1]);
      assert js == js[..i - 1] + [js[i - 1]] && js' == js'[..i - 1] + [js'[i - 1]];
    }
  }

  /** `t` permutes the first i + 1 elements of `s`. */
  ghost predicate PermutesFront<T>(s: seq<T>, t: seq<T>, i: nat) {
    && i < |s| == |t|
    && multiset(s) == multiset(t)
    && forall k :: i < k < |s| ==> t[k] == s[k]
  }

  /** The place of `t`'s element i within the first i + 1 elements of `s`. */
  lemma FrontPlace<T>(s: seq<T>, t: seq<T>, i: nat) returns (j: nat)
    requires PermutesFront(s, t, i)
    ensures j <= i && s[j] == t[i]
  {
    assert s == s[..i + 1] + s[i + 1..] && t == t[..i + 1] + t[i + 1..];
    assert s[i + 1..] == t[i + 1..];
    assert multiset(s[..i + 1]) == multiset(t[..i + 1]) by {
      assert multiset(s[..i + 1]) == multiset(s) - multiset(s[i + 1..]);
      assert multiset(t[..i + 1]) == multiset(t) - multiset(t[i + 1..]);
    }
    SameElements(s[..i + 1], t[..i + 1]);
    assert t[i] == t[..i + 1][i];
    assert t[i] in s[..i + 1];
    j :| 0 <= j <= i && s[..i + 1][j] == t[i];
  }

  /** Every permutation is reached: the choices that reach it, found from the last position down. */
  lemma {:induction false} ShuffleSurjective<T>(s: seq<T>, t: seq<T>, i: nat) returns (js: seq<nat>)
    requires PermutesFront(s, t, i)
    ensures |js| == i && Choices(js) && Shuffled(s, js) == t
    decreases i
  {
    if i == 0 {
      js := [];
      var j := FrontPlace(s, t, 0);
      assert s == t;
    } else {
      var j := FrontPlace(s, t, i);
      var s' := Swapped(s, i, j);
      SwapKeepsMultiset(s, i, j);
      var front := ShuffleSurjective(s', t, i - 1);
      js := front + [j];
      assert js[..i - 1] == front && js[i - 1] == j;
    }
  }

  /** The choices that leave everything in place. */
  function Staying(n: nat): (js: seq<nat>)
    ensures |js| == n && forall k :: 0 <= k < n ==> js[k] == k + 1
  {
    seq(n, k => k + 1)
  }

  lemma {:induction false} StayingStays<T>(s: seq<T>, n: nat)
    requires n < |s|
    ensures Shuffled(s, Staying(n)) == s
  {
    if n > 0 {
      assert Staying(n)[..n - 1] == Staying(n - 1);
      SwappedSelf(s, n);
      StayingStays(s, n - 1);
    }
  }

  /** A single choice exchanges two elements, and the others stay where they are. */
  lemma OneChoiceExchanges<T>(s: seq<T>, i: nat, j: nat)
    requires 0 < i < |s| && j <= i
    ensures var t := Shuffled(s, Staying(i - 1) + [j]);
            && |t| == |s| && t[i] == s[j] && t[j] == s[i]
            && forall k :: 0 <= k < |s| && k != i && k != j ==> t[k] == s[k]
  {
    var js := Staying(i - 1) + [j];
    assert js[..i - 1] == Staying(i - 1) && js[i - 1] == j;
    StayingStays(Swapped(s, i, j), i - 1);
  }

  /** A shuffle makes its choices one after the other, from the last position down. */
  lemma ChoicesInTurn<T>(s: seq<T>, js: seq<nat>)
    requires 0 < |js| < |s| && Choices(js)
    ensures var i := |js|;
            && |Shuffled(s, Staying(i - 1) + [js[i - 1]])| == |s|
            && Shuffled(s, js) == Shuffled(Shuffled(s, Staying(i - 1) + [js[i - 1]]), js[..i - 1])
  {
    var i := |js|;
    var one := Staying(i - 1) + [js[i - 1]];
    assert one[..i - 1] == Staying(i - 1) && one[i - 1] == js[i - 1];
    StayingStays(Swapped(s, i, js[i - 1]), i - 1);
  }

  function Identity(n: nat): (s: seq<nat>)
    ensures |s| == n && forall k :: 0 <= k < n ==> s[k] == k
  {
    seq(n, k => k)
  }

  ghost predicate IsPermutation(t: seq<nat>, n: nat) {
    multiset(t) == multiset(Identity(n))
  }

  /** The shuffle is a bijection from choice sequences onto permutations. */
  lemma ShuffleBijective(n: nat)
    requires n >= 1
    ensures forall js: seq<nat> :: |js| == n - 1 && Choices(js) ==> IsPermutation(Shuffled(Identity(n), js), n)
    ensures forall t: seq<nat> {:trigger IsPermutation(t, n)} :: IsPermutation(t, n) ==>
        exists js: seq<nat> :: |js| == n - 1 && Choices(js) && Shuffled(Identity(n), js) == t
    ensures forall js: seq<nat>, js': seq<nat> ::
        |js| == |js'| == n - 1 && Choices(js) && Choices(js') && Shuffled(Identity(n), js) == Shuffled(Identity(n), js')
        ==> js == js'
  {
    var id := Identity(n);
    forall js: seq<nat> | |js| == n - 1 && Choices(js)
      ensures IsPermutation(Shuffled(id, js), n)
    {
      ShuffledPermutes(id, js);
    }
    forall t: seq<nat> | IsPermutation(t, n)
      ensures exists js: seq<nat> :: |js| == n - 1 && Choices(js) && Shuffled(id, js) == t
    {
      SameLength(id, t);
      var js := ShuffleSurjective(id, t, n - 1);
    }
    forall js: seq<nat>, js': seq<nat> |
        |js| == |js'| == n - 1 && Choices(js) && Choices(js') && Shuffled(id, js) == Shuffled(id, js')
      ensures js == js'
    {
      ShuffleInjective(id, js, js');
    }
  }

  // ---- drawing the choices ----

  /** The candidate index a random word stands for. */
  function Masked(w: nat, i: nat): nat {
    And(w, Smear(i))
  }

  /** Every index 0..i is the candidate of equally many words, so accepted draws are uniform. */
  lemma AcceptedUniformly(i: nat, j: nat)
    requires 0 < i < WORD && j <= i
    ensures BitLength(i) <= 32
    ensures |set w: nat | w < WORD && Masked(w, i) == j| == Pow2(32 - BitLength(i))
  {
    var k := BitLength(i);
    BitLengthOfWord(i);
    BitLengthBounds(i);
    LowCounts(Pow2(32 - k), k, j);
    Pow2Sum(32 - k, k);
    WordIsPow2();
    forall w: nat
      ensures Masked(w, i) == Low(w, k)
    {
      MaskedIsLow(w, i);
    }
    hide *;
    SameWords(i, k, j);
  }

  lemma MaskedIsLow(w: nat, i: nat)
    requires 0 < i < WORD
    ensures Masked(w, i) == Low(w, BitLength(i))
  {
    SmearIsOnes(i);
    AndOnes(w, BitLength(i));
  }

  /** The candidate is the word's remainder by the least power of two above the index. */
  lemma MaskedIsRemainder(w: nat, i: nat, k: nat)
    requires 0 < i < WORD && k > 0 && Pow2(k - 1) <= i < Pow2(k)
    ensures Masked(w, i) == w % Pow2(k)
  {
    MaskedIsLow(w, i);
    BitLengthIs(i, k);
    HighAndLow(w, k);
    Quotient(ShiftRight(w, k), Low(w, k), Pow2(k));
    DivisionFacts(w, Pow2(k));
  }

  lemma SameWords(i: nat, k: nat, j: nat)
    requires forall w: nat :: Masked(w, i) == Low(w, k)
    ensures (set w: nat | w < WORD && Masked(w, i) == j) == WithLow(WORD, k, j)
  {
    hide Masked, Low;
  }

  /** The first word from `r` on whose candidate is not above `i`. */
  function NextAccepted(words: seq<nat>, r: nat, i: nat): (t: Option<nat>)
    ensures t.Some? ==> r <= t.value < |words| && Masked(words[t.value], i) <= i
    decreases |words| - r
  {
    if r >= |words| then None
    else if Masked(words[r], i) <= i then Some(r)
    else NextAccepted(words, r + 1, i)
  }

  lemma {:induction false} NextAcceptedIsFirst(words: seq<nat>, r: nat, t: nat, i: nat)
    requires r <= t <= |words| && forall k :: r <= k < t ==> Masked(words[k], i) > i
    requires t < |words| ==> Masked(words[t], i) <= i
    ensures NextAccepted(words, r, i) == if t < |words| then Some(t) else None
    decreases t - r
  {
    if r < t {
      NextAcceptedIsFirst(words, r + 1, t, i);
    }
  }

  /** The choices for positions i, ..., 1 that the words from `r` on determine. */
  function Drawn(words: seq<nat>, r: nat, i: nat): Option<seq<nat>>
    decreases i
  {
    if i == 0 then Some([])
    else
      match NextAccepted(words, r, i)
      case None => None
      case Some(t) =>
        match Drawn(words, t + 1, i - 1)
        case None => None
        case Some(js) => Some(js + [Masked(words[t], i)])
  }

  lemma {:induction false} DrawnAreChoices(words: seq<nat>, r: nat, i: nat)
    ensures Drawn(words, r, i).Some? ==> |Drawn(words, r, i).value| == i && Choices(Drawn(words, r, i).value)
    decreases i
  {
    hide Masked;
    if i > 0 && NextAccepted(words, r, i).Some? {
      DrawnAreChoices(words, NextAccepted(words, r, i).value + 1, i - 1);
    }
  }

  /** Every choice takes a word: pos[k - 1] is the place of the word that choice k takes. It is the first one behind
      the word of choice k + 1 whose candidate is not above k, and the candidate is the choice. */
  ghost predicate Takes(words: seq<nat>, r: nat, i: nat, pos: seq<nat>, js: seq<nat>) {
    && |pos| == |js| == i
    && forall k {:trigger pos[k - 1]} :: 1 <= k <= i ==>
        && From(r, i, pos, k) <= pos[k - 1] < |words|
        && (forall t :: From(r, i, pos, k) <= t < pos[k - 1] ==> Masked(words[t], k) > k)
        && js[k - 1] == Masked(words[pos[k - 1]], k) <= k
  }

  /** Where the search for choice k starts. */
  function From(r: nat, i: nat, pos: seq<nat>, k: nat): nat
    requires 1 <= k <= i == |pos|
  {
    if k == i then r else pos[k] + 1
  }

  lemma {:induction false} DrawnTakes(words: seq<nat>, r: nat, i: nat) returns (pos: seq<nat>)
    requires Drawn(words, r, i).Some?
    ensures Takes(words, r, i, pos, Drawn(words, r, i).value)
    decreases i
  {
    hide Masked;
    pos := [];
    if i > 0 {
      var t := NextAccepted(words, r, i).value;
      NextAcceptedSkips(words, r, i);
      var front := DrawnTakes(words, t + 1, i - 1);
      pos := front + [t];
      TakesOneMore(words, r, i, front, t, Drawn(words, t + 1, i - 1).value);
    }
  }

  lemma {:induction false} NextAcceptedSkips(words: seq<nat>, r: nat, i: nat)
    requires NextAccepted(words, r, i).Some?
    ensures forall k :: r <= k < NextAccepted(words, r, i).value ==> Masked(words[k], i) > i
    decreases |words| - r
  {
    hide Masked;
    if Masked(words[r], i) > i {
      NextAcceptedSkips(words, r + 1, i);
    }
  }

  lemma TakesOneMore(words: seq<nat>, r: nat, i: nat, front: seq<nat>, t: nat, js: seq<nat>)
    requires i > 0 && r <= t < |words| && Masked(words[t], i) <= i
    requires forall k :: r <= k < t ==> Masked(words[k], i) > i
    requires Takes(words, t + 1, i - 1, front, js)
    ensures Takes(words, r, i, front + [t], js + [Masked(words[t], i)])
  {
    hide Masked;
    var pos := front + [t];
    forall k | 1 <= k <= i
      ensures From(r, i, pos, k) == if k == i then r else From(t + 1, i - 1, front, k)
    {
    }
    assert forall k {:trigger pos[k - 1]} :: 1 <= k < i ==> pos[k - 1] == front[k - 1];
  }

  /** And nothing else is drawn: the words determine the choices by this description alone. */
  lemma {:induction false} TakenAreDrawn(words: seq<nat>, r: nat, i: nat, pos: seq<nat>, js: seq<nat>)
    requires Takes(words, r, i, pos, js) && r <= |words|
    ensures Drawn(words, r, i) == Some(js)
    decreases i
  {
    hide Masked;
    if i > 0 {
      var t := pos[i - 1];
      NextAcceptedIsFirst(words, r, t, i);
      var front := pos[..i - 1];
      forall k | 1 <= k < i
        ensures From(t + 1, i - 1, front, k) == From(r, i, pos, k) && front[k - 1] == pos[k - 1]
      {
      }
      TakenAreDrawn(words, t + 1, i - 1, front, js[..i - 1]);
      assert js == js[..i - 1] + [js[i - 1]];
    }
  }

  /** Lines 48-65. The source reads on past the end of a used-up buffer; here that yields None. */
  method GenSwapIdx(i: nat, randomNumbers: array<nat>, rnIdx0: nat) returns (j: Option<nat>, rnIdx: nat)
    requires i < WORD && rnIdx0 <= randomNumbers.Length
    ensures j == match NextAccepted(randomNumbers[..], rnIdx0, i)
                 case None => None
                 case Some(t) => Some(Masked(randomNumbers[t], i))
    ensures j.Some? ==> j.value <= i && rnIdx0 < rnIdx <= randomNumbers.Length
                        && NextAccepted(randomNumbers[..], rnIdx0, i) == Some(rnIdx - 1)
    ensures forall k :: rnIdx0 <= k < (if j.Some? then rnIdx - 1 else randomNumbers.Length)
              ==> Masked(randomNumbers[k], i) > i
  {
    var bitMask := i;
    bitMask := Or(bitMask, ShiftRight(bitMask, 1));
    bitMask := Or(bitMask, ShiftRight(bitMask, 2));
    bitMask := Or(bitMask, ShiftRight(bitMask, 4));
    bitMask := Or(bitMask, ShiftRight(bitMask, 8));
    bitMask := Or(bitMask, ShiftRight(bitMask, 16));
    assert bitMask == Smear(i);

    hide Smear;
    rnIdx := rnIdx0;
    while rnIdx < randomNumbers.Length && And(randomNumbers[rnIdx], bitMask) > i
      invariant rnIdx0 <= rnIdx <= randomNumbers.Length
      invariant forall k :: rnIdx0 <= k < rnIdx ==> Masked(randomNumbers[k], i) > i
    {
      rnIdx := rnIdx + 1;
    }
    NextAcceptedIsFirst(randomNumbers[..], rnIdx0, rnIdx, i);
    if rnIdx == randomNumbers.Length {
      return None, rnIdx;
    }
    j := Some(And(randomNumbers[rnIdx], bitMask));
    rnIdx := rnIdx + 1;
  }

  /** `t` is the identity shuffled by the choices `js`. */
  ghost predicate ShuffledBy(t: seq<nat>, js: seq<nat>) {
    |js| + 1 == |t| && Choices(js) && t == Shuffled(Identity(|t|), js)
  }

  /** What is left of the run determines the same permutation as the whole. */
  ghost predicate Shuffling(words: seq<nat>, n: nat, idx: seq<nat>, r: nat, i: nat) {
    && i < n == |idx|
    && match Drawn(words, r, i)
       case None => Drawn(words, 0, n - 1).None?
       case Some(front) =>
         && |front| == i && Choices(front)
         && Drawn(words, 0, n - 1).Some?
         && |Drawn(words, 0, n - 1).value| == n - 1 && Choices(Drawn(words, 0, n - 1).value)
         && Shuffled(idx, front) == Shuffled(Identity(n), Drawn(words, 0, n - 1).value)
  }

  lemma ShufflingStep(words: seq<nat>, n: nat, idx: seq<nat>, r: nat, i: nat, t: nat)
    requires Shuffling(words, n, idx, r, i) && i > 0
    requires NextAccepted(words, r, i) == Some(t)
    ensures Shuffling(words, n, Swapped(idx, i, Masked(words[t], i)), t + 1, i - 1)
  {
    hide Masked, NextAccepted;
    DrawnAreChoices(words, t + 1, i - 1);
    if Drawn(words, t + 1, i - 1).Some? {
      var front, j := Drawn(words, t + 1, i - 1).value, Masked(words[t], i);
      assert (front + [j])[..i - 1] == front && (front + [j])[i - 1] == j;
    }
  }

  /** Lines 134-144. False when the words run out. */
  method GenerateShuffledIndices(idx: array<nat>, randomUInts: array<nat>) returns (ok: bool)
    requires 1 <= idx.Length < WORD && randomUInts as object != idx as object
    modifies idx
    ensures ok <==> Drawn(randomUInts[..], 0, idx.Length - 1).Some?
    ensures ok ==>
        IsPermutation(idx[..], idx.Length) && ShuffledBy(idx[..], Drawn(randomUInts[..], 0, idx.Length - 1).value)
  {
    hide Shuffling, Shuffled, Drawn, Masked, NextAccepted, IsPermutation, ShuffledBy;
    var n := idx.Length;
    for i := 0 to n
      invariant forall k :: 0 <= k < i ==> idx[k] == k
    {
      idx[i] := i;
    }
    ghost var words := randomUInts[..];
    ShufflingStart(words, n, idx[..]);
    var iIdx: nat, i: nat := 0, n - 1;
    while i > 0
      invariant 0 <= i < n && iIdx <= randomUInts.Length
      invariant Shuffling(words, n, idx[..], iIdx, i)
    {
      ghost var s := idx[..];
      var j, iIdx' := GenSwapIdx(i, randomUInts, iIdx);
      if j.None? {
        NoneLeft(words, n, s, iIdx, i);
        return false;
      }
      ShufflingStep(words, n, s, iIdx, i, iIdx' - 1);
      Swap(idx, i, j.value);
      iIdx := iIdx';
      i := i - 1;
    }
    ShufflingEnd(words, n, idx[..], iIdx);
    return true;
  }

  lemma ShufflingStart(words: seq<nat>, n: nat, idx: seq<nat>)
    requires n >= 1 && |idx| == n && forall k :: 0 <= k < n ==> idx[k] == k
    ensures Shuffling(words, n, idx, 0, n - 1)
  {
    hide Shuffled, Drawn, NextAccepted, Masked;
    DrawnAreChoices(words, 0, n - 1);
    assert idx == Identity(n);
  }

  lemma NoneLeft(words: seq<nat>, n: nat, idx: seq<nat>, r: nat, i: nat)
    requires Shuffling(words, n, idx, r, i) && i > 0
    requires NextAccepted(words, r, i).None?
    ensures n >= 1 && Drawn(words, 0, n - 1).None?
  {
  }

  lemma ShufflingEnd(words: seq<nat>, n: nat, idx: seq<nat>, r: nat)
    requires Shuffling(words, n, idx, r, 0)
    ensures n >= 1 && Drawn(words, 0, n - 1).Some?
    ensures ShuffledBy(idx, Drawn(words, 0, n - 1).value) && IsPermutation(idx, n)
  {
    ShuffledPermutes(Identity(n), Drawn(words, 0, n - 1).value);
  }

  /** The words drawn in advance for n positions. */
  predicate FullBuffer(words: seq<nat>, n: nat) {
    |words| == 2 * n + 32 && forall k :: 0 <= k < |words| ==> words[k] < WORD
  }

  /** From three positions on the words drawn in advance may not do: all may be rejected, or all but the first. */
  lemma BufferMayRunOut(n: nat) returns (words: seq<nat>)
    requires 3 <= n < WORD
    ensures FullBuffer(words, n) && Drawn(words, 0, n - 1).None?
  {
    var i := n - 1;
    var k := BitLength(i);
    BitLengthBounds(i);
    BitLengthOfWord(i);
    Pow2Monotone(k, 32);
    WordIsPow2();
    words := seq(2 * n + 32, _ => Ones(k));
    assert Ones(k) < WORD && i <= Ones(k);
    hide Ones, Masked, Drawn, BitLength, Pow2;
    AllRejected(words, 0, i, k);
    if Ones(k) == i {
      LastOfItsLength(k);
      NextAcceptedIsFirst(words, 0, 0, i);
      AllRejected(words, 1, i - 1, k);
    }
    DrawingFails(words, i);
  }

  lemma DrawingFails(words: seq<nat>, i: nat)
    requires i > 0
    requires NextAccepted(words, 0, i).None?
        || (i > 1 && NextAccepted(words, 0, i) == Some(0) && NextAccepted(words, 1, i - 1).None?)
    ensures Drawn(words, 0, i).None?
  {
    hide Masked, NextAccepted;
  }

  /** Words of k ones are rejected at every index of k bits but the last. */
  lemma AllRejected(words: seq<nat>, r: nat, i: nat, k: nat)
    requires 0 < i < WORD && BitLength(i) == k && r <= |words|
    requires forall t :: 0 <= t < |words| ==> words[t] == Ones(k)
    ensures forall t :: 0 <= t < |words| ==> Masked(words[t], i) == Ones(k)
    ensures i < Ones(k) ==> NextAccepted(words, r, i).None?
  {
    MaskedIsLow(Ones(k), i);
    LowOnes(k);
    hide Masked, Ones;
    if i < Ones(k) {
      NextAcceptedIsFirst(words, r, |words|, i);
    }
  }

  /** The index before k ones has k bits too. */
  lemma LastOfItsLength(k: nat)
    requires k > 0 && Ones(k) >= 2
    ensures Ones(k) - 1 > 0 && BitLength(Ones(k) - 1) == k
  {
    BitLengthIs(Ones(k) - 1, k);
  }

  /** Over arbitrary words, one or two positions always find enough; from three on they may run out. */
  lemma BufferSufficesIff(n: nat)
    requires 1 <= n < WORD
    ensures n <= 2 <==> forall words :: FullBuffer(words, n) ==> Drawn(words, 0, n - 1).Some?
  {
    if n >= 3 {
      var words := BufferMayRunOut(n);
    } else {
      forall words | FullBuffer(words, n)
        ensures Drawn(words, 0, n - 1).Some?
      {
        if n == 2 {
          MaskedIsLow(words[0], 1);
          assert BitLength(1) == 1;
          hide Masked;
          NextAcceptedIsFirst(words, 0, 0, 1);
        }
      }
    }
  }
}
