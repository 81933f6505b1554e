/** The reference-counted pointer as a state machine: the operations of handles, cut into the atomic actions that
    threads interleave. */
module RefCounting {
  import opened Options

  /** A raw pointer, or NULL. */
  type Ptr = nat
  const NULL: Ptr := 0

  // ---- states ----

  /** What a handle does once it has let go of its block: disappear, become empty, take over a raw pointer, or
      copy another handle. */
  datatype Next<!H> = Die | Clear | Own(p: Ptr) | CopyOf(src: H)

  /** Where a handle is inside an operation: between operations; about to count itself on the block it read
      from `src`; about to decrement; about to call the deleter; about to overwrite its fields. */
  datatype Phase<!H> =
    | Steady
    | Counting(src: H)
    | Dropping(next: Next<H>)
    | Deleting(next: Next<H>)
    | Refilling(next: Next<H>)

  datatype Handle<!H, !B> = Handle(owned: Ptr, ptr: Ptr, block: Option<B>, phase: Phase<H>)

  /** A control block: the pointer it was made for, its counter, the deleter's calls, and whether it is freed. */
  datatype Block = Block(managed: Ptr, count: int, deletions: seq<Ptr>, freed: bool)

  datatype State<!H, !B> = State(handles: map<H, Handle<H, B>>, blocks: map<B, Block>)

  /** One atomic action of one handle. */
  datatype Action<!H, !B> =
    | Make(h: H)
    | MakeRaw(h: H, p: Ptr, b: Option<B>)
    | MakeFrom(h: H, src: H, owned: Ptr, ptr: Ptr)
    | Begin(h: H, next: Next<H>)
    | Count(h: H)
    | Drop(h: H)
    | Delete(h: H)
    | Refill(h: H, b: Option<B>)

  /** Another handle is in the middle of copying `h`. */
  ghost predicate Pinned<H, B>(s: State<H, B>, h: H) {
    exists k :: k in s.handles && Reads(s.handles[k].phase, h)
  }

  predicate Reads<H(==)>(phase: Phase<H>, h: H) {
    match phase
    case Steady => false
    case Counting(src) => src == h
    case Dropping(next) => next == CopyOf(h)
    case Deleting(next) => next == CopyOf(h)
    case Refilling(next) => next == CopyOf(h)
  }

  predicate IsSteady<H, B>(s: State<H, B>, h: H) {
    h in s.handles && s.handles[h].phase.Steady?
  }

  predicate IsFresh<H, B>(s: State<H, B>, b: Option<B>) {
    b.Some? && b.value !in s.blocks
  }

  /** Taking over a raw pointer needs a new block. */
  predicate NewBlockFor<H, B>(s: State<H, B>, next: Next<H>, b: Option<B>) {
    next.Own? && next.p != NULL ==> IsFresh(s, b)
  }

  /** What a program without data races on a handle may do next: no operation starts on a handle that is
      inside another operation, or that another handle is just copying. */
  ghost predicate Enabled<H, B>(s: State<H, B>, a: Action<H, B>) {
    match a
    case Make(h) => h !in s.handles
    case MakeRaw(h, p, b) => h !in s.handles && (p != NULL ==> IsFresh(s, b))
    case MakeFrom(h, src, _, _) => h !in s.handles && IsSteady(s, src)
    case Begin(h, next) => IsSteady(s, h) && !Pinned(s, h) && (next.CopyOf? ==> next.src != h && IsSteady(s, next.src))
    case Count(h) => h in s.handles && s.handles[h].phase.Counting?
    case Drop(h) => h in s.handles && s.handles[h].phase.Dropping?
    case Delete(h) => h in s.handles && s.handles[h].phase.Deleting?
    case Refill(h, b) => h in s.handles && s.handles[h].phase.Refilling? && NewBlockFor(s, s.handles[h].phase.next, b)
  }

  // ---- actions ----

  function Empty<H, B>(): Handle<H, B> { Handle(NULL, NULL, None, Steady) }

  function SetHandle<H, B>(s: State<H, B>, h: H, x: Handle<H, B>): State<H, B> {
    s.(handles := s.handles[h := x])
  }

  /** The counter of a handle's block moves by `d`. */
  function Bump<H, B>(s: State<H, B>, block: Option<B>, d: int): State<H, B> {
    if block.Some? && block.value in s.blocks then
      var x := s.blocks[block.value];
      s.(blocks := s.blocks[block.value := x.(count := x.count + d)])
    else s
  }

  /** Taking over a raw pointer: a new block, unless the pointer is null. */
  function Owning<H, B>(s: State<H, B>, h: H, p: Ptr, b: Option<B>): State<H, B> {
    if p == NULL || b.None? then SetHandle(s, h, Empty())
    else SetHandle(s, h, Handle(p, p, b, Steady)).(blocks := s.blocks[b.value := Block(p, 1, [], false)])
  }

  /** Fields read from `src`; a block still has to be counted. */
  function Reading<H, B>(s: State<H, B>, h: H, src: H, owned: Ptr, ptr: Ptr): State<H, B>
    requires src in s.handles
  {
    var block := s.handles[src].block;
    SetHandle(s, h, Handle(owned, ptr, block, if block.Some? then Counting(src) else Steady))
  }

  /** The decrement, and the test of its result. */
  function Dropped<H, B>(s: State<H, B>, h: H): State<H, B>
    requires h in s.handles && s.handles[h].phase.Dropping?
  {
    var x := s.handles[h];
    var t := Bump(s, x.block, -1);
    var zero := x.block.Some? && x.block.value in t.blocks && t.blocks[x.block.value].count <= 0;
    SetHandle(t, h, x.(phase := if zero then Deleting(x.phase.next) else Refilling(x.phase.next)))
  }

  /** The deleter is called with the handle's owned pointer, and the block is freed. */
  function Deleted<H, B>(s: State<H, B>, h: H): State<H, B>
    requires h in s.handles && s.handles[h].phase.Deleting?
  {
    var x := s.handles[h];
    var t := SetHandle(s, h, x.(block := None, ptr := NULL, phase := Refilling(x.phase.next)));
    if x.block.Some? && x.block.value in s.blocks then
      var y := s.blocks[x.block.value];
      t.(blocks := s.blocks[x.block.value := y.(deletions := y.deletions + [x.owned], freed := true)])
    else t
  }

  function Refilled<H, B>(s: State<H, B>, h: H, b: Option<B>): State<H, B>
    requires h in s.handles && s.handles[h].phase.Refilling?
  {
    match s.handles[h].phase.next
    case Die => s.(handles := s.handles - {h})
    case Clear => SetHandle(s, h, Empty())
    case Own(p) => Owning(s, h, p, b)
    case CopyOf(src) => if src in s.handles then Reading(s, h, src, s.handles[src].owned, s.handles[src].ptr) else s
  }

  function Begun<H, B>(s: State<H, B>, h: H, next: Next<H>): State<H, B>
    requires h in s.handles
  {
    var x := s.handles[h];
    SetHandle(s, h, x.(phase := if x.block.Some? then Dropping(next) else Refilling(next)))
  }

  ghost function Step<H, B>(s: State<H, B>, a: Action<H, B>): State<H, B>
    requires Enabled(s, a)
  {
    match a
    case Make(h) => SetHandle(s, h, Empty())
    case MakeRaw(h, p, b) => Owning(s, h, p, b)
    case MakeFrom(h, src, owned, ptr) => Reading(s, h, src, owned, ptr)
    case Begin(h, next) => Begun(s, h, next)
    case Count(h) => SetHandle(Bump(s, s.handles[h].block, 1), h, s.handles[h].(phase := Steady))
    case Drop(h) => Dropped(s, h)
    case Delete(h) => Deleted(s, h)
    case Refill(h, b) => Refilled(s, h, b)
  }

  // ---- the invariant ----

  /** A handle holds its block from its increment to its decrement. */
  predicate Holds<H, B(==)>(x: Handle<H, B>, b: B) {
    (x.phase.Steady? || x.phase.Dropping?) && x.block == Some(b)
  }

  ghost function Holders<H, B>(s: State<H, B>, b: B): set<H> {
    set h | h in s.handles && Holds(s.handles[h], b)
  }

  ghost function Deleters<H, B>(s: State<H, B>, b: B): set<H> {
    set h | h in s.handles && s.handles[h].phase.Deleting? && s.handles[h].block == Some(b)
  }

  /** Nobody changes a handle that is being copied. */
  ghost predicate NextFits<H, B>(s: State<H, B>, h: H, next: Next<H>) {
    next.CopyOf? ==> next.src != h && IsSteady(s, next.src)
  }

  ghost predicate HandleFits<H, B>(s: State<H, B>, h: H)
    requires h in s.handles
  {
    var x := s.handles[h];
    match x.phase
    case Steady => x.block.Some? ==> x.block.value in s.blocks
    case Counting(src) => x.block.Some? && src != h && IsSteady(s, src) && s.handles[src].block == x.block
    case Dropping(next) => x.block.Some? && x.block.value in s.blocks && NextFits(s, h, next)
    case Deleting(next) => x.block.Some? && x.block.value in s.blocks && NextFits(s, h, next)
    case Refilling(next) => NextFits(s, h, next)
  }

  /** The counter is the number of holders, and the deleter has run, or is about to run once, exactly when
      there is none. */
  ghost predicate BlockFits<H, B>(s: State<H, B>, b: B)
    requires b in s.blocks
  {
    var x := s.blocks[b];
    && x.count == |Holders(s, b)|
    && |Deleters(s, b)| + |x.deletions| == (if x.count == 0 then 1 else 0)
    && (x.freed <==> x.deletions != [])
  }

  ghost predicate Consistent<H, B>(s: State<H, B>) {
    && (forall h :: h in s.handles ==> HandleFits(s, h))
    && (forall b :: b in s.blocks ==> BlockFits(s, b))
  }

  // ---- every action keeps it ----

  /** Only the handle `h` differs between the states. */
  ghost predicate OnlyChanges<H, B>(s: State<H, B>, t: State<H, B>, h: H) {
    t.handles - {h} == s.handles - {h}
  }

  function One(c: bool): nat { if c then 1 else 0 }

  lemma SameElsewhere<H, B>(s: State<H, B>, t: State<H, B>, h: H, k: H)
    requires OnlyChanges(s, t, h) && k != h
    ensures (k in s.handles) == (k in t.handles) && (k in s.handles ==> s.handles[k] == t.handles[k])
  {
    assert k in s.handles - {h} <==> k in t.handles - {h};
    assert k in s.handles ==> (s.handles - {h})[k] == s.handles[k];
  }

  lemma SetsChange<H, B>(s: State<H, B>, t: State<H, B>, h: H, b: B)
    requires OnlyChanges(s, t, h)
    ensures |Holders(t, b)| == |Holders(s, b)| - One(h in Holders(s, b)) + One(h in Holders(t, b))
    ensures |Deleters(t, b)| == |Deleters(s, b)| - One(h in Deleters(s, b)) + One(h in Deleters(t, b))
  {
    forall k | k != h
      ensures k in Holders(s, b) <==> k in Holders(t, b)
      ensures k in Deleters(s, b) <==> k in Deleters(t, b)
    {
      SameElsewhere(s, t, h, k);
    }
    hide *;
    SizeChange(Holders(s, b), Holders(t, b), h);
    SizeChange(Deleters(s, b), Deleters(t, b), h);
  }

  lemma SizeChange<T>(x: set<T>, y: set<T>, h: T)
    requires forall k :: k in x + y && k != h ==> k in x && k in y
    ensures |y| == |x| - One(h in x) + One(h in y)
  {
    assert x - {h} == y - {h};
    Without(x, h);
    Without(y, h);
  }

  lemma Without<T>(s: set<T>, x: T)
    ensures |s| == |s - {x}| + One(x in s)
  {
    if x in s {
      assert s == (s - {x}) + {x};
    } else {
      assert s - {x} == s;
    }
  }

  lemma StepChanges<H, B>(s: State<H, B>, a: Action<H, B>)
    requires Enabled(s, a)
    ensures OnlyChanges(s, Step(s, a), a.h)
    ensures s.blocks.Keys <= Step(s, a).blocks.Keys
  {
  }

  lemma {:induction false} StepKeepsHandles<H, B>(s: State<H, B>, a: Action<H, B>, k: H)
    requires Consistent(s) && Enabled(s, a) && k in Step(s, a).handles
    ensures HandleFits(Step(s, a), k)
  {
    var t := Step(s, a);
    StepChanges(s, a);
    if k != a.h {
      SameElsewhere(s, t, a.h, k);
      assert HandleFits(s, k);
      var x := s.handles[k];
      forall src | Reads(x.phase, src) && IsSteady(s, src)
        ensures IsSteady(t, src) && t.handles[src] == s.handles[src]
      {
        if src != a.h {
          SameElsewhere(s, t, a.h, src);
        }
      }
    } else {
      assert a.h in s.handles ==> HandleFits(s, a.h);
    }
  }

  lemma StepKeepsBlock<H, B>(s: State<H, B>, a: Action<H, B>, b: B)
    requires Consistent(s) && Enabled(s, a) && b in Step(s, a).blocks
    ensures BlockFits(Step(s, a), b)
  {
    var t := Step(s, a);
    StepChanges(s, a);
    SetsChange(s, t, a.h, b);
    assert a.h in s.handles ==> HandleFits(s, a.h);
    if b in s.blocks {
      assert BlockFits(s, b);
      HeldIsPositive(s, b, a.h);
      if a.Count? {
        HeldIsPositive(s, b, s.handles[a.h].phase.src);
      }
    } else {
      FreshHasNone(s, b);
    }
  }

  /** A block with a holder has a positive count; a block nobody made has no holder. */
  lemma HeldIsPositive<H, B>(s: State<H, B>, b: B, h: H)
    ensures h in Holders(s, b) ==> |Holders(s, b)| > 0
    ensures h in Deleters(s, b) ==> |Deleters(s, b)| > 0
  {
  }

  lemma FreshHasNone<H, B>(s: State<H, B>, b: B)
    requires Consistent(s) && b !in s.blocks
    ensures Holders(s, b) == {} && Deleters(s, b) == {}
  {
    forall h | h in s.handles
      ensures h !in Holders(s, b) && h !in Deleters(s, b)
    {
      assert HandleFits(s, h);
    }
  }

  lemma StepKeeps<H, B>(s: State<H, B>, a: Action<H, B>)
    requires Consistent(s) && Enabled(s, a)
    ensures Consistent(Step(s, a))
  {
    hide Step, Enabled, HandleFits, BlockFits;
    forall h | h in Step(s, a).handles ensures HandleFits(Step(s, a), h) { StepKeepsHandles(s, a, h); }
    forall b | b in Step(s, a).blocks ensures BlockFits(Step(s, a), b) { StepKeepsBlock(s, a, b); }
  }

  // ---- what single actions do to a block ----

  predicate Touches<H, B(==)>(s: State<H, B>, a: Action<H, B>, b: B) {
    (a.Count? || a.Drop? || a.Delete?) && a.h in s.handles && s.handles[a.h].block == Some(b)
  }

  /** No increment, decrement or deleter call ever reaches a freed control block. */
  lemma TouchedBlockIsLive<H, B>(s: State<H, B>, a: Action<H, B>, b: B)
    requires Consistent(s) && Enabled(s, a) && Touches(s, a, b)
    ensures b in s.blocks && !s.blocks[b].freed && s.blocks[b].deletions == []
  {
    assert HandleFits(s, a.h);
    if a.Count? {
      assert HandleFits(s, s.handles[a.h].phase.src);
      HeldIsPositive(s, b, s.handles[a.h].phase.src);
    }
    assert BlockFits(s, b);
    HeldIsPositive(s, b, a.h);
  }

  lemma SteadyBlockIsLive<H, B>(s: State<H, B>, h: H)
    requires Consistent(s) && IsSteady(s, h) && s.handles[h].block.Some?
    ensures s.handles[h].block.value in s.blocks && !s.blocks[s.handles[h].block.value].freed
  {
    assert HandleFits(s, h);
    assert BlockFits(s, s.handles[h].block.value);
    HeldIsPositive(s, s.handles[h].block.value, h);
  }

  /** The decrement that removes the last holder, and no other, goes on to the deleter. */
  lemma LastDropDeletes<H, B>(s: State<H, B>, h: H, b: B)
    requires Consistent(s) && Enabled(s, Drop(h)) && s.handles[h].block == Some(b)
    ensures Step(s, Drop(h)).handles[h].phase.Deleting? <==> Holders(Step(s, Drop(h)), b) == {}
  {
    var a: Action<H, B> := Drop(h);
    StepKeeps(s, a);
    assert HandleFits(s, h);
    assert BlockFits(Step(s, a), b);
  }

  /** Only the deleting action adds to a block's deletions: its handle's owned pointer, when there was none
      and no holder is left. */
  lemma DeletionStep<H, B>(s: State<H, B>, a: Action<H, B>, b: B)
    requires Consistent(s) && Enabled(s, a) && b in s.blocks
    ensures b in Step(s, a).blocks && Step(s, a).blocks[b].managed == s.blocks[b].managed
    ensures if a.Delete? && s.handles[a.h].block == Some(b)
            then Step(s, a).blocks[b].deletions == [s.handles[a.h].owned] && Holders(s, b) == {}
            else Step(s, a).blocks[b].deletions == s.blocks[b].deletions
  {
    if a.Delete? && s.handles[a.h].block == Some(b) {
      TouchedBlockIsLive(s, a, b);
      assert BlockFits(s, b);
      HeldIsPositive(s, b, a.h);
    }
  }

  /** A block that has lost its last holder never gets one again. */
  lemma NeverRevived<H, B>(s: State<H, B>, a: Action<H, B>, b: B)
    requires Consistent(s) && Enabled(s, a) && b in s.blocks && Holders(s, b) == {}
    ensures Holders(Step(s, a), b) == {}
  {
    var t := Step(s, a);
    StepKeeps(s, a);
    assert BlockFits(s, b) && BlockFits(t, b);
    assert a.h in s.handles ==> HandleFits(s, a.h);
    if a.Count? {
      HeldIsPositive(s, b, s.handles[a.h].phase.src);
    }
  }

  // ---- runs ----

  ghost predicate Possible<H, B>(s: State<H, B>, run: seq<Action<H, B>>)
    decreases |run|
  {
    run == [] || (Enabled(s, run[0]) && Possible(Step(s, run[0]), run[1..]))
  }

  ghost function After<H, B>(s: State<H, B>, run: seq<Action<H, B>>): State<H, B>
    requires Possible(s, run)
    decreases |run|
  {
    if run == [] then s else After(Step(s, run[0]), run[1..])
  }

  function Initial<H, B>(): State<H, B> { State(map[], map[]) }

  lemma {:induction false} RunKeeps<H, B>(s: State<H, B>, run: seq<Action<H, B>>)
    requires Consistent(s) && Possible(s, run)
    ensures Consistent(After(s, run))
    decreases |run|
  {
    if run != [] {
      StepKeeps(s, run[0]);
      RunKeeps(Step(s, run[0]), run[1..]);
    }
  }

  /** No operation is in progress. */
  ghost predicate Quiet<H, B>(s: State<H, B>) {
    forall h :: h in s.handles ==> s.handles[h].phase.Steady?
  }

  /** What the invariant says of a block: its counter is the number of its holders; it has been deleted at most
      once, and not while it is held; and between operations it has been deleted and freed exactly when nobody
      holds it. */
  ghost predicate BooksInOrder<H, B>(s: State<H, B>, b: B)
    requires b in s.blocks
  {
    var x := s.blocks[b];
    && x.count == |Holders(s, b)| && |x.deletions| <= 1
    && (Holders(s, b) != {} ==> x.deletions == [] && !x.freed)
    && (Quiet(s) ==> (Holders(s, b) == {} <==> |x.deletions| == 1 && x.freed))
  }

  lemma ConsistentBooks<H, B>(s: State<H, B>, b: B)
    requires Consistent(s) && b in s.blocks
    ensures BooksInOrder(s, b)
  {
    assert BlockFits(s, b);
    if Quiet(s) {
      assert Deleters(s, b) == {};
    }
  }

  /** In every interleaving, at every moment. */
  lemma EveryRunDeletesOnce<H, B>(run: seq<Action<H, B>>, b: B)
    requires Possible(Initial(), run) && b in After(Initial(), run).blocks
    ensures BooksInOrder(After(Initial(), run), b)
  {
    RunKeeps(Initial(), run);
    ConsistentBooks(After(Initial(), run), b);
  }

  /** When the last handle of all is gone, every block has been deleted exactly once. */
  lemma NothingLeaks<H, B>(run: seq<Action<H, B>>, b: B)
    requires Possible(Initial(), run) && b in After(Initial(), run).blocks && After(Initial(), run).handles == map[]
    ensures |After(Initial(), run).blocks[b].deletions| == 1
  {
    EveryRunDeletesOnce(run, b);
    assert Holders(After(Initial(), run), b) == {};
  }

  // ---- which pointer the deleter gets ----

  /** An alias keeps the start of what it shares. */
  ghost predicate KeepsStart<H, B>(s: State<H, B>, a: Action<H, B>)
    requires Enabled(s, a)
  {
    a.MakeFrom? ==> a.owned == s.handles[a.src].owned
  }

  /** Whoever refers to the block owns the pointer it was made for, and its deleter is called with nothing else. */
  ghost predicate Faithful<H, B>(s: State<H, B>, b: B)
    requires b in s.blocks
  {
    && (forall h :: (h in s.handles && !s.handles[h].phase.Refilling? && s.handles[h].block == Some(b))
          ==> s.handles[h].owned == s.blocks[b].managed)
    && (s.blocks[b].deletions == [] || s.blocks[b].deletions == [s.blocks[b].managed])
  }

  lemma StepOwnsManaged<H, B>(s: State<H, B>, a: Action<H, B>, b: B, k: H)
    requires Consistent(s) && Enabled(s, a) && KeepsStart(s, a) && b in s.blocks && Faithful(s, b)
    requires var t := Step(s, a); k in t.handles && !t.handles[k].phase.Refilling? && t.handles[k].block == Some(b)
    ensures Step(s, a).handles[k].owned == s.blocks[b].managed
  {
    var t := Step(s, a);
    assert k in s.handles ==> HandleFits(s, k);
    if k != a.h {
      StepChanges(s, a);
      SameElsewhere(s, t, a.h, k);
    }
  }

  lemma StepFaithful<H, B>(s: State<H, B>, a: Action<H, B>, b: B)
    requires Consistent(s) && Enabled(s, a) && KeepsStart(s, a) && b in Step(s, a).blocks
    requires b in s.blocks ==> Faithful(s, b)
    ensures Faithful(Step(s, a), b)
  {
    var t := Step(s, a);
    if b in s.blocks {
      DeletionStep(s, a, b);
      forall k | k in t.handles && !t.handles[k].phase.Refilling? && t.handles[k].block == Some(b)
        ensures t.handles[k].owned == s.blocks[b].managed
      {
        StepOwnsManaged(s, a, b, k);
      }
    } else {
      forall k | k in t.handles && k != a.h
        ensures t.handles[k].phase.Refilling? || t.handles[k].block != Some(b)
      {
        StepChanges(s, a);
        SameElsewhere(s, t, a.h, k);
        assert HandleFits(s, k);
        assert s.handles[k].phase.Counting? ==> HandleFits(s, s.handles[k].phase.src);
      }
    }
  }

  ghost predicate KeepsStarts<H, B>(s: State<H, B>, run: seq<Action<H, B>>)
    requires Possible(s, run)
    decreases |run|
  {
    run == [] || (KeepsStart(s, run[0]) && KeepsStarts(Step(s, run[0]), run[1..]))
  }

  /** In a run whose aliases keep their starts, the deleter of a block gets the very pointer the block was made for. */
  lemma {:induction false} RunFaithful<H, B>(s: State<H, B>, run: seq<Action<H, B>>, b: B)
    requires Consistent(s) && Possible(s, run) && KeepsStarts(s, run) && b in After(s, run).blocks
    requires b in s.blocks ==> Faithful(s, b)
    ensures Faithful(After(s, run), b)
    decreases |run|
  {
    if run != [] {
      StepKeeps(s, run[0]);
      StepChanges(s, run[0]);
      if b in Step(s, run[0]).blocks {
        StepFaithful(s, run[0], b);
      }
      RunFaithful(Step(s, run[0]), run[1..], b);
    }
  }

  // ---- an alias with another start ----

  lemma {:induction false} RunsJoin<H, B>(s: State<H, B>, first: seq<Action<H, B>>, second: seq<Action<H, B>>)
    requires Possible(s, first) && Possible(After(s, first), second)
    ensures Possible(s, first + second)
    ensures KeepsStarts(s, first + second) <==> KeepsStarts(s, first) && KeepsStarts(After(s, first), second)
    ensures After(s, first + second) == After(After(s, first), second)
    decreases |first|
  {
    if first == [] {
      assert first + second == second;
    } else {
      assert (first + second)[1..] == first[1..] + second;
      RunsJoin(Step(s, first[0]), first[1..], second);
    }
  }

  lemma RunStep<H, B>(s: State<H, B>, a: Action<H, B>, rest: seq<Action<H, B>>)
    requires Enabled(s, a) && KeepsStart(s, a) && Possible(Step(s, a), rest) && KeepsStarts(Step(s, a), rest)
    ensures Possible(s, [a] + rest) && KeepsStarts(s, [a] + rest) && After(s, [a] + rest) == After(Step(s, a), rest)
  {
    assert ([a] + rest)[1..] == rest;
  }

  lemma RunOfThree<H, B>(s: State<H, B>, x: Action<H, B>, y: Action<H, B>, z: Action<H, B>)
    requires Enabled(s, x) && Enabled(Step(s, x), y) && Enabled(Step(Step(s, x), y), z)
    requires !x.MakeFrom? && !y.MakeFrom? && !z.MakeFrom?
    ensures Possible(s, [x, y, z]) && KeepsStarts(s, [x, y, z]) && After(s, [x, y, z]) == Step(Step(Step(s, x), y), z)
  {
    RunStep(Step(Step(s, x), y), z, []);
    RunStep(Step(s, x), y, [z] + []);
    RunStep(s, x, [y] + ([z] + []));
    assert [x] + ([y] + ([z] + [])) == [x, y, z];
  }

  /** What a holder does that is not the last. */
  function Leaving<H, B>(k: H): seq<Action<H, B>> {
    [Begin(k, Die), Drop(k), Refill(k, None)]
  }

  /** One holder of several goes. */
  lemma ReleaseOne<H, B>(s: State<H, B>, b: B, k: H, h: H)
    requires Consistent(s) && Quiet(s) && b in s.blocks && k in Holders(s, b) && h in Holders(s, b) && k != h
    ensures var run := Leaving(k);
            && Possible(s, run) && KeepsStarts(s, run)
            && var t := After(s, run);
               && Consistent(t) && Quiet(t) && b in t.blocks && h in t.handles && t.handles[h] == s.handles[h]
               && Holders(t, b) == Holders(s, b) - {k}
  {
    var x: Action<H, B>, y: Action<H, B>, z: Action<H, B> := Begin(k, Die), Drop(k), Refill(k, None);
    assert !Pinned(s, k);
    assert BlockFits(s, b) && {k, h} <= Holders(s, b);
    TwoAreTwo(Holders(s, b), k, h);
    RunOfThree(s, x, y, z);
    assert Leaving(k) == [x, y, z];
    RunKeeps(s, Leaving(k));
    var t := Step(Step(Step(s, x), y), z);
    assert t.handles == s.handles - {k};
    assert Holders(t, b) == Holders(s, b) - {k};
  }

  lemma TwoAreTwo<T>(s: set<T>, x: T, y: T)
    requires x in s && y in s && x != y
    ensures |s| >= 2
  {
    assert |s - {x}| > 0;
  }

  /** The last holder goes, and the deleter gets its owned pointer. */
  lemma ReleaseLast<H, B>(s: State<H, B>, b: B, h: H)
    requires Consistent(s) && Quiet(s) && b in s.blocks && Holders(s, b) == {h}
    ensures var run := [Begin(h, Die), Drop(h), Delete(h)];
            Possible(s, run) && KeepsStarts(s, run) && b in After(s, run).blocks
            && After(s, run).blocks[b].deletions == [s.handles[h].owned]
            && After(s, run).blocks[b].managed == s.blocks[b].managed
  {
    var x: Action<H, B>, y: Action<H, B>, z: Action<H, B> := Begin(h, Die), Drop(h), Delete(h);
    assert h in Holders(s, b);
    assert !Pinned(s, h);
    assert BlockFits(s, b);
    RunOfThree(s, x, y, z);
  }

  /** Any holder can be the last one. */
  lemma {:induction false} AnyHolderMayBeLast<H, B>(s: State<H, B>, b: B, h: H) returns (run: seq<Action<H, B>>)
    requires Consistent(s) && Quiet(s) && b in s.blocks && h in Holders(s, b)
    ensures Possible(s, run) && KeepsStarts(s, run) && b in After(s, run).blocks
    ensures After(s, run).blocks[b].deletions == [s.handles[h].owned]
    decreases |Holders(s, b)|
  {
    if Holders(s, b) == {h} {
      run := [Begin(h, Die), Drop(h), Delete(h)];
      ReleaseLast(s, b, h);
    } else {
      assert Holders(s, b) - {h} != {};
      var k :| k in Holders(s, b) && k != h;
      var first := Leaving(k);
      ReleaseOne(s, b, k, h);
      var rest := AnyHolderMayBeLast(After(s, first), b, h);
      RunsJoin(s, first, rest);
      run := first + rest;
    }
  }

  /** The condition under which the documented promise holds, that the object originally managed is the one
      deleted: between operations, whatever aliases with the same start and releases follow, a block still held
      gets its own pointer deleted if and only if all its holders own that pointer. */
  lemma ManagedIsDeletedIff<H(!new), B(!new)>(s: State<H, B>, b: B)
    requires Consistent(s) && Quiet(s) && b in s.blocks && Holders(s, b) != {}
    ensures (forall run :: Possible(s, run) && KeepsStarts(s, run) && b in After(s, run).blocks
                ==> After(s, run).blocks[b].deletions == []
                    || After(s, run).blocks[b].deletions == [s.blocks[b].managed])
        <==> forall h :: h in Holders(s, b) ==> s.handles[h].owned == s.blocks[b].managed
  {
    assert BlockFits(s, b);
    if h :| h in Holders(s, b) && s.handles[h].owned != s.blocks[b].managed {
      var run := AnyHolderMayBeLast(s, b, h);
      assert After(s, run).blocks[b].deletions[0] == s.handles[h].owned;
    } else {
      assert s.blocks[b].deletions == [];
      assert forall h :: h in s.handles && s.handles[h].block == Some(b) ==> h in Holders(s, b);
      assert Faithful(s, b);
      forall run | Possible(s, run) && KeepsStarts(s, run) && b in After(s, run).blocks
        ensures After(s, run).blocks[b].deletions == [] || After(s, run).blocks[b].deletions == [s.blocks[b].managed]
      {
        RunFaithful(s, run, b);
        RunKeepsManaged(s, run, b);
      }
    }
  }

  lemma {:induction false} RunKeepsManaged<H, B>(s: State<H, B>, run: seq<Action<H, B>>, b: B)
    requires Consistent(s) && Possible(s, run) && b in s.blocks
    ensures b in After(s, run).blocks && After(s, run).blocks[b].managed == s.blocks[b].managed
    decreases |run|
  {
    if run != [] {
      StepKeeps(s, run[0]);
      DeletionStep(s, run[0], b);
      RunKeepsManaged(Step(s, run[0]), run[1..], b);
    }
  }

  // ---- whole operations ----

  /** `_remove`: the decrement, and the deleter if it was the last one. */
  function Removed<H, B>(s: State<H, B>, h: H, next: Next<H>): State<H, B>
    requires h in s.handles
  {
    var t := Begun(s, h, next);
    if t.handles[h].phase.Dropping? then
      var u := Dropped(t, h);
      if u.handles[h].phase.Deleting? then Deleted(u, h) else u
    else t
  }

  function Counted<H, B>(s: State<H, B>, h: H): State<H, B> {
    if h in s.handles && s.handles[h].phase.Counting? then
      SetHandle(Bump(s, s.handles[h].block, 1), h, s.handles[h].(phase := Steady))
    else s
  }

  /** An operation on an existing handle, undisturbed from its start to its end. */
  function Completed<H, B>(s: State<H, B>, h: H, next: Next<H>, b: Option<B>): State<H, B>
    requires h in s.handles
  {
    Counted(Refilled(Removed(s, h, next), h, b), h)
  }

  lemma RemovalIsRun<H, B>(s: State<H, B>, h: H, next: Next<H>) returns (run: seq<Action<H, B>>)
    requires Consistent(s) && Enabled(s, Begin(h, next))
    ensures Possible(s, run) && After(s, run) == Removed(s, h, next) && forall a :: a in run ==> a.h == h
    ensures h in After(s, run).handles && After(s, run).handles[h].phase == Refilling(next)
    ensures After(s, run).blocks.Keys == s.blocks.Keys
  {
    run := Then(s, [], Begin(h, next));
    var t := After(s, run);
    assert HandleFits(s, h);
    if t.handles[h].phase.Dropping? {
      run := Then(s, run, Drop(h));
      t := After(s, run);
      if t.handles[h].phase.Deleting? {
        run := Then(s, run, Delete(h));
      }
    }
  }

  /** The operation is a run of the machine, of the handle's actions alone. */
  lemma OperationIsRun<H, B>(s: State<H, B>, h: H, next: Next<H>, b: Option<B>) returns (run: seq<Action<H, B>>)
    requires Consistent(s) && Enabled(s, Begin(h, next)) && NewBlockFor(s, next, b)
    ensures Possible(s, run) && After(s, run) == Completed(s, h, next, b) && forall a :: a in run ==> a.h == h
  {
    run := RemovalIsRun(s, h, next);
    hide Removed, HandleFits, BlockFits;
    run := Then(s, run, Refill(h, b));
    var t := After(s, run);
    if h in t.handles && t.handles[h].phase.Counting? {
      run := Then(s, run, Count(h));
    }
  }

  lemma {:induction false} Then<H, B>(s: State<H, B>, run: seq<Action<H, B>>, a: Action<H, B>)
    returns (longer: seq<Action<H, B>>)
    requires Possible(s, run) && Enabled(After(s, run), a)
    ensures longer == run + [a] && Possible(s, longer) && After(s, longer) == Step(After(s, run), a)
    decreases |run|
  {
    longer := run + [a];
    if run == [] {
      assert longer[1..] == [];
    } else {
      var rest := Then(Step(s, run[0]), run[1..], a);
      assert longer[1..] == rest;
    }
  }

  /** The handles an undisturbed operation leaves: `h` is gone, empty, the owner of a raw pointer, or equal to
      the copied handle, and no other handle changes. */
  function HandlesAfter<H, B>(handles: map<H, Handle<H, B>>, h: H, next: Next<H>, b: Option<B>): map<H, Handle<H, B>>
    requires next.CopyOf? ==> next.src in handles
  {
    match next
    case Die => handles - {h}
    case Clear => handles[h := Empty()]
    case Own(p) => handles[h := if p == NULL then Empty() else Handle(p, p, b, Steady)]
    case CopyOf(src) => handles[h := handles[src]]
  }

  lemma RemovedHandles<H, B>(s: State<H, B>, h: H, next: Next<H>)
    requires Consistent(s) && IsSteady(s, h)
    ensures var t := Removed(s, h, next);
            h in t.handles && t.handles[h].phase == Refilling(next) && t.handles - {h} == s.handles - {h}
  {
    assert HandleFits(s, h);
  }

  /** The last step of an operation: the fields are overwritten, and a block taken from another handle is counted. */
  lemma CompletedEnds<H, B>(s: State<H, B>, h: H, next: Next<H>, b: Option<B>)
    requires Consistent(s) && Enabled(s, Begin(h, next)) && NewBlockFor(s, next, b)
    ensures var t := Removed(s, h, next);
            && h in t.handles && t.blocks.Keys == s.blocks.Keys && (next.CopyOf? ==> next.src in t.handles)
            && Completed(s, h, next, b) == match next {
                 case Die => t.(handles := t.handles - {h})
                 case Clear => SetHandle(t, h, Empty())
                 case Own(p) => Owning(t, h, p, b)
                 case CopyOf(src) => Counted(Reading(t, h, src, t.handles[src].owned, t.handles[src].ptr), h)
               }
  {
    var run := RemovalIsRun(s, h, next);
    RemovedHandles(s, h, next);
    if next.CopyOf? {
      SameElsewhere(s, Removed(s, h, next), h, next.src);
    }
  }

  lemma CompletedHandles<H, B>(s: State<H, B>, h: H, next: Next<H>, b: Option<B>)
    requires Consistent(s) && Enabled(s, Begin(h, next)) && NewBlockFor(s, next, b)
    ensures Completed(s, h, next, b).handles == HandlesAfter(s.handles, h, next, b)
  {
    RemovedHandles(s, h, next);
    CompletedEnds(s, h, next, b);
    assert next.CopyOf? ==> next.src in s.handles && next.src != h && s.handles[next.src].phase.Steady?;
    hide Removed, Completed, Consistent, Enabled, NewBlockFor;
    SetAfter(s, Removed(s, h, next), h);
    assert next.CopyOf? ==> Removed(s, h, next).handles[next.src] == s.handles[next.src];
  }

  /** Overwriting the one handle that differs. */
  lemma SetAfter<H, B>(s: State<H, B>, t: State<H, B>, h: H)
    requires h in t.handles && t.handles - {h} == s.handles - {h}
    ensures forall x {:trigger t.handles[h := x]} :: t.handles[h := x] == s.handles[h := x]
    ensures forall k :: k in s.handles && k != h ==> k in t.handles && t.handles[k] == s.handles[k]
  {
    forall k | k != h
      ensures (k in s.handles) == (k in t.handles) && (k in s.handles ==> t.handles[k] == s.handles[k])
    {
      SameElsewhere(s, t, h, k);
    }
  }

  lemma CompletedMeans<H, B>(s: State<H, B>, h: H, next: Next<H>, b: Option<B>)
    requires Consistent(s) && Quiet(s) && Enabled(s, Begin(h, next)) && NewBlockFor(s, next, b)
    ensures Consistent(Completed(s, h, next, b)) && Quiet(Completed(s, h, next, b))
    ensures Completed(s, h, next, b).handles == HandlesAfter(s.handles, h, next, b)
  {
    var run := OperationIsRun(s, h, next, b);
    RunKeeps(s, run);
    CompletedHandles(s, h, next, b);
  }

  /** Assignment from a handle of another type: nothing happens when the source points where this handle's
      memory starts. */
  function AssignedFrom<H(==), B>(s: State<H, B>, h: H, src: H): State<H, B>
    requires h in s.handles && src in s.handles
  {
    if src != h && s.handles[src].ptr != s.handles[h].owned then Completed(s, h, CopyOf(src), None) else s
  }

  /** It makes a copy exactly when the guard lets it through or there is nothing to do. */
  lemma AssignFromCopiesIff<H, B>(s: State<H, B>, h: H, src: H)
    requires Consistent(s) && Quiet(s) && h in s.handles && src in s.handles
    ensures AssignedFrom(s, h, src).handles[h] == s.handles[src]
        <==> (s.handles[src].ptr == s.handles[h].owned ==> s.handles[src] == s.handles[h])
  {
    if src != h && s.handles[src].ptr != s.handles[h].owned {
      assert !Pinned(s, h);
      CompletedMeans(s, h, CopyOf(src), None);
    }
  }

  /** Where the guard stops an assignment, nothing at all changes; where it does not, the handle ends as a copy and
      the other handles as they were. */
  lemma AssignFromMeans<H, B>(s: State<H, B>, h: H, src: H)
    requires Consistent(s) && Quiet(s) && h in s.handles && src in s.handles
    ensures AssignedFrom(s, h, src).handles
         == if s.handles[src].ptr == s.handles[h].owned then s.handles else s.handles[h := s.handles[src]]
    ensures s.handles[src].ptr == s.handles[h].owned ==> AssignedFrom(s, h, src).blocks == s.blocks
  {
    if src == h {
      assert s.handles[h := s.handles[src]] == s.handles;
    } else if s.handles[src].ptr != s.handles[h].owned {
      assert !Pinned(s, h);
      CompletedMeans(s, h, CopyOf(src), None);
    }
  }

  /** Taking over a raw pointer: nothing happens when it is where this handle's memory starts. */
  function ResetTo<H, B>(s: State<H, B>, h: H, p: Ptr, b: Option<B>): State<H, B>
    requires h in s.handles
  {
    if p != s.handles[h].owned then Completed(s, h, Own(p), b) else s
  }

  /** Where the guard stops a reset, nothing at all changes; where it does not, the handle points to the pointer, and
      the other handles are as they were. */
  lemma ResetMeans<H, B>(s: State<H, B>, h: H, p: Ptr, b: Option<B>)
    requires Consistent(s) && Quiet(s) && h in s.handles && NewBlockFor(s, Own(p), b)
    ensures ResetTo(s, h, p, b).handles
         == if p == s.handles[h].owned then s.handles
            else s.handles[h := Handle(p, p, if p == NULL then None else b, Steady)]
    ensures p == s.handles[h].owned ==> ResetTo(s, h, p, b).blocks == s.blocks
  {
    if p != s.handles[h].owned {
      assert !Pinned(s, h);
      CompletedMeans(s, h, Own(p), b);
    }
  }

  /** The handle holds a block made for this pointer. */
  predicate Owner<H, B>(s: State<H, B>, h: H, p: Ptr) {
    && h in s.handles && s.handles[h].block.Some? && s.handles[h].block.value in s.blocks
    && s.blocks[s.handles[h].block.value].managed == p
  }

  /** The handle owns the pointer afterwards exactly when the guard let a pointer other than null through, or it
      was the owner already and the guard did not. */
  lemma ResetOwnsIff<H, B>(s: State<H, B>, h: H, p: Ptr, b: Option<B>)
    requires Consistent(s) && Quiet(s) && h in s.handles && NewBlockFor(s, Own(p), b)
    ensures Owner(ResetTo(s, h, p, b), h, p)
       <==> if p != s.handles[h].owned then p != NULL else Owner(s, h, p)
  {
    if p != s.handles[h].owned {
      assert !Pinned(s, h);
      CompletedEnds(s, h, Own(p), b);
    }
  }

  /** It lets go of the block it held exactly when the guard let it through or it held none. */
  lemma ResetReleasesIff<H, B>(s: State<H, B>, h: H, p: Ptr, b: Option<B>)
    requires Consistent(s) && Quiet(s) && h in s.handles && NewBlockFor(s, Own(p), b)
    ensures (forall x :: s.handles[h].block == Some(x) ==> h !in Holders(ResetTo(s, h, p, b), x))
       <==> p != s.handles[h].owned || s.handles[h].block.None?
  {
    if p != s.handles[h].owned {
      assert !Pinned(s, h);
      CompletedEnds(s, h, Own(p), b);
      assert HandleFits(s, h);
    }
  }

  /** The block a copy is about to count itself on survives the copier's letting go of its own. */
  lemma CopiedBlockIsLive<H, B>(s: State<H, B>, h: H, src: H)
    requires Consistent(s) && Enabled(s, Begin(h, CopyOf(src))) && s.handles[src].block.Some?
    ensures var t := Removed(s, h, CopyOf(src)); var b := s.handles[src].block.value;
            src in t.handles && t.handles[src] == s.handles[src] && b in t.blocks && !t.blocks[b].freed
  {
    var run := RemovalIsRun(s, h, CopyOf(src));
    RunKeeps(s, run);
    RemovedHandles(s, h, CopyOf(src));
    SameElsewhere(s, Removed(s, h, CopyOf(src)), h, src);
    hide Removed, Consistent, HandleFits, BlockFits, Enabled;
    SteadyBlockIsLive(Removed(s, h, CopyOf(src)), src);
  }

  /** A handle made from another one shares its block. */
  lemma MadeFromMeans<H, B>(s: State<H, B>, h: H, src: H, owned: Ptr, ptr: Ptr)
    requires Consistent(s) && Quiet(s) && h !in s.handles && src in s.handles
    ensures var t := Counted(Reading(s, h, src, owned, ptr), h);
            && Consistent(t) && Quiet(t)
            && t.handles == s.handles[h := Handle(owned, ptr, s.handles[src].block, Steady)]
  {
    var t := Step(s, MakeFrom(h, src, owned, ptr));
    StepKeeps(s, MakeFrom(h, src, owned, ptr));
    if t.handles[h].phase.Counting? {
      StepKeeps(t, Count(h));
    }
  }

  /** A handle made for a raw pointer owns it through a new block. */
  lemma MadeRawMeans<H, B>(s: State<H, B>, h: H, p: Ptr, b: Option<B>)
    requires Consistent(s) && Quiet(s) && h !in s.handles && (p != NULL ==> IsFresh(s, b))
    ensures Consistent(Owning(s, h, p, b)) && Quiet(Owning(s, h, p, b))
  {
    StepKeeps(s, MakeRaw(h, p, b));
  }

  /** An owner, an alias of it that points nowhere, and an empty handle. */
  function OwnerAliasAndEmpty(start: Ptr): State<int, int> {
    State(map[0 := Handle(10, 10, Some(0), Steady), 1 := Handle(start, NULL, Some(0), Steady), 2 := Empty()],
          map[0 := Block(10, 2, [], false)])
  }

  lemma OwnerAliasAndEmptyFits(start: Ptr)
    ensures Consistent(OwnerAliasAndEmpty(start)) && Quiet(OwnerAliasAndEmpty(start))
    ensures Holders(OwnerAliasAndEmpty(start), 0) == {0, 1}
  {
    var s := OwnerAliasAndEmpty(start);
    assert Holders(s, 0) == {0, 1};
    assert Deleters(s, 0) == {};
    assert BlockFits(s, 0);
  }

  /** An alias with another start that goes last has the deleter called with that start, and the object
      originally managed is never deleted. */
  lemma AliasStartIsDeleted() returns (run: seq<Action<int, int>>)
    ensures var s := OwnerAliasAndEmpty(20);
            && Possible(s, run) && 0 in After(s, run).blocks
            && After(s, run).blocks[0].managed == 10 && After(s, run).blocks[0].deletions == [20]
  {
    var s := OwnerAliasAndEmpty(20);
    OwnerAliasAndEmptyFits(20);
    run := AnyHolderMayBeLast(s, 0, 1);
    RunKeepsManaged(s, run, 0);
  }

  /** The empty handle stays empty when assigned, across types, from an alias that points nowhere. */
  lemma AssignFromMaySkip()
    ensures var s := OwnerAliasAndEmpty(10);
            Consistent(s) && AssignedFrom(s, 2, 1) == s && s.handles[2] != s.handles[1] && s.handles[1].block == Some(0)
  {
    OwnerAliasAndEmptyFits(10);
  }

  /** An alias that owns 20 of a block made for 10, reset to 20, stays as it is: 20 has no owner, and once both
      holders are gone only 10 has been deleted. */
  lemma ResetMayKeepAlias(b: Option<int>) returns (run: seq<Action<int, int>>)
    ensures var s := OwnerAliasAndEmpty(20);
            && Consistent(s) && ResetTo(s, 1, 20, b) == s && !Owner(s, 1, 20)
            && Possible(s, run) && 0 in After(s, run).blocks && After(s, run).blocks[0].deletions == [10]
  {
    OwnerAliasAndEmptyFits(20);
    run := AnyHolderMayBeLast(OwnerAliasAndEmpty(20), 0, 0);
  }

  /** An alias with a null start that holds a block still holds it after being reset to null. */
  lemma ResetMayNotRelease(b: Option<int>)
    ensures var s := OwnerAliasAndEmpty(NULL);
            Consistent(s) && ResetTo(s, 1, NULL, b) == s && 1 in Holders(s, 0)
  {
    OwnerAliasAndEmptyFits(NULL);
  }

  /** An alias of an empty handle has a start and no block; resetting it to that start makes no owner. */
  lemma ResetMayNotOwn(b: Option<int>)
    ensures var s: State<int, int> := State(map[0 := Handle(10, 10, None, Steady)], map[]);
            Consistent(s) && ResetTo(s, 0, 10, b) == s && !Owner(s, 0, 10)
  {
  }
}
