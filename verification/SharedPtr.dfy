/** The class SharedPtr: its methods, statement by statement, perform the actions of RefCounting. */
module SharedPtr {
  import opened Options
  import opened RefCounting

  /** A control block: its counter and its deleter. What the deleter was called with, and whether the block
      has been freed, is kept beside it. */
  class RefCounter {
    var count: int
    ghost const managed: Ptr
    ghost var deletions: seq<Ptr>
    ghost var freed: bool

    constructor (ghost managed: Ptr)
      ensures Value() == Block(managed, 1, [], false)
    {
      count, this.managed, deletions, freed := 1, managed, [], false;
    }

    ghost function Value(): Block
      reads this
    {
      Block(managed, count, deletions, freed)
    }

    method Inc()
      requires !freed
      modifies this
      ensures Value() == old(Value()).(count := old(count) + 1)
    {
      count := count + 1;
    }

    method Dec() returns (n: int)
      requires !freed
      modifies this
      ensures Value() == old(Value()).(count := old(count) - 1) && n == count
    {
      count := count - 1;
      n := count;
    }

    /** Line 352-353: the deleter is called, and the block is freed. */
    method CallDeleter(p: Ptr)
      requires !freed
      modifies this
      ensures Value() == old(Value()).(deletions := old(deletions) + [p], freed := true)
    {
      deletions, freed := deletions + [p], true;
    }
  }

  /** All handles alive and all control blocks ever made. */
  class Pool {
    ghost var handles: set<SharedPtr>
    ghost var counters: set<RefCounter>

    constructor ()
      ensures Now() == Initial()
    {
      handles, counters := {}, {};
    }

    ghost function Now(): State<SharedPtr, RefCounter>
      reads this, handles, counters
    {
      State(map h | h in handles :: h.Value(), map c | c in counters :: c.Value())
    }

    /** The state after a handle and a block, if any, are written. */
    twostate lemma Writes(new h: SharedPtr, new c: RefCounter?)
      requires h in handles && handles == old(handles) && counters == old(counters)
      requires c != null ==> c in counters
      requires forall k :: k in handles && k != h ==> unchanged(k)
      requires forall k :: k in counters && k != c ==> unchanged(k)
      ensures Now().handles == old(Now()).handles[h := h.Value()]
      ensures Now().blocks == if c == null then old(Now()).blocks else old(Now()).blocks[c := c.Value()]
    {
    }

    ghost method Register(c: RefCounter)
      modifies this
      ensures Now() == old(Now()).(blocks := old(Now()).blocks[c := c.Value()])
      ensures handles == old(handles) && counters == old(counters) + {c}
    {
      counters := counters + {c};
    }

    ghost predicate Valid()
      reads this, handles, counters
    {
      Consistent(Now()) && Quiet(Now())
    }
  }

  /** A new control block for a raw pointer. */
  method NewBlock(p: Ptr, ghost pool: Pool) returns (c: RefCounter)
    modifies pool
    ensures fresh(c) && c !in old(pool.counters) && c.Value() == Block(p, 1, [], false)
    ensures pool.Now() == old(pool.Now()).(blocks := old(pool.Now()).blocks[c := Block(p, 1, [], false)])
    ensures pool.handles == old(pool.handles) && pool.counters == old(pool.counters) + {c}
  {
    c := new RefCounter(p);
    pool.Register(c);
  }

  function BlockOf(c: RefCounter?): Option<RefCounter> {
    if c == null then None else Some(c)
  }

  class SharedPtr {
    var ownedPtr: Ptr
    var ptr: Ptr
    var refCount: RefCounter?
    ghost var phase: Phase<SharedPtr>

    ghost function Value(): Handle<SharedPtr, RefCounter>
      reads this
    {
      Handle(ownedPtr, ptr, BlockOf(refCount), phase)
    }

    /** The decrement, and what its result decides. */
    method DropCount(ghost pool: Pool) returns (n: int)
      requires this in pool.handles && refCount != null && refCount in pool.counters && !refCount.freed
          && phase.Dropping?
      modifies this`phase, refCount
      ensures pool.Now() == Dropped(old(pool.Now()), this)
      ensures !refCount.freed && n == refCount.count == old(refCount.count) - 1
      ensures refCount.deletions == old(refCount.deletions) && refCount == old(refCount) && ownedPtr == old(ownedPtr)
      ensures if n <= 0 then phase.Deleting? else phase.Refilling?
    {
      ghost var next := phase.next;
      n := refCount.Dec();
      phase := if n <= 0 then Deleting(next) else Refilling(next);
      pool.Writes(this, refCount);
    }

    /** Lines 352-355. */
    method RunDeleter(ghost pool: Pool)
      requires this in pool.handles && refCount != null && refCount in pool.counters && !refCount.freed
          && phase.Deleting?
      modifies this, refCount
      ensures pool.Now() == Deleted(old(pool.Now()), this)
      ensures ownedPtr == old(ownedPtr) && refCount == null
      ensures old(refCount).Value()
          == old(refCount.Value()).(deletions := old(refCount.deletions + [ownedPtr]), freed := true)
    {
      ghost var block := refCount;
      refCount.CallDeleter(ownedPtr);
      refCount, ptr, phase := null, NULL, Refilling(phase.next);
      pool.Writes(this, block);
    }

    /** The block has lost a holder; the last one has had the deleter called with this handle's owned pointer. */
    twostate predicate LetsGo(c: RefCounter?)
      reads this, c
    {
      c != null ==>
        && c.count == old(c.count) - 1
        && (if old(c.count) <= 1 then c.deletions == old(c.deletions) + [old(ownedPtr)] && c.freed
            else c.deletions == old(c.deletions) && !c.freed)
    }

    /** `_remove`, lines 348-357. */
    method Remove(ghost pool: Pool, ghost next: Next<SharedPtr>)
      requires Consistent(pool.Now()) && Enabled(pool.Now(), Begin(this, next))
      modifies this, refCount
      ensures pool.Now() == Removed(old(pool.Now()), this, next)
      ensures ownedPtr == old(ownedPtr) && LetsGo(old(refCount))
    {
      if refCount != null {
        assert pool.Now().handles[this] == Value();
        SteadyBlockIsLive(pool.Now(), this);
      }
      hide Consistent, Enabled;
      phase := if refCount != null then Dropping(next) else Refilling(next);
      pool.Writes(this, null);
      if refCount != null {
        assert pool.Now().handles[this] == Value();
        hide Dropped, Deleted;
        DropHeld(pool);
      }
    }

    /** Lines 350-356, for a handle that holds a block. */
    method DropHeld(ghost pool: Pool)
      requires this in pool.handles && refCount != null && refCount in pool.counters && !refCount.freed
          && phase.Dropping?
      modifies this, refCount
      ensures this in pool.Now().handles && this in Dropped(old(pool.Now()), this).handles
      ensures pool.Now() == var u := Dropped(old(pool.Now()), this);
                            if u.handles[this].phase.Deleting? then Deleted(u, this) else u
      ensures ownedPtr == old(ownedPtr) && LetsGo(old(refCount))
    {
      hide Dropped, Deleted;
      var n := DropCount(pool);
      assert pool.Now().handles[this] == Value();
      if n <= 0 {
        RunDeleter(pool);
      }
    }

    ghost method Enter(pool: Pool)
      requires this !in pool.handles
      modifies pool
      ensures pool.Now() == SetHandle(old(pool.Now()), this, Value())
      ensures pool.handles == old(pool.handles) + {this} && pool.counters == old(pool.counters)
    {
      pool.handles := pool.handles + {this};
    }

    ghost method Leave(pool: Pool)
      requires this in pool.handles
      modifies pool
      ensures pool.Now() == old(pool.Now()).(handles := old(pool.Now()).handles - {this})
      ensures pool.handles == old(pool.handles) - {this} && pool.counters == old(pool.counters)
    {
      pool.handles := pool.handles - {this};
    }

    /** An empty handle, line 162. */
    constructor (ghost pool: Pool)
      requires pool.Valid()
      modifies pool
      ensures pool.Valid() && pool.Now() == SetHandle(old(pool.Now()), this, Empty())
      ensures ownedPtr == ptr == NULL && refCount == null
    {
      ownedPtr, ptr, refCount, phase := NULL, NULL, null, Steady;
      new;
      MadeRawMeans(pool.Now(), this, NULL, None);
      Enter(pool);
    }

    /** Lines 168-172 and 181-185. */
    constructor FromRaw(p: Ptr, ghost pool: Pool)
      requires pool.Valid()
      modifies pool
      ensures pool.Valid() && (refCount != null ==> fresh(refCount))
      ensures ownedPtr == ptr == p && (refCount == null <==> p == NULL)
      ensures refCount != null ==> refCount.Value() == Block(p, 1, [], false)
      ensures pool.Now() == Owning(old(pool.Now()), this, p, BlockOf(refCount))
    {
      ownedPtr, ptr, refCount, phase := p, p, null, Steady;
      new;
      ghost var s := pool.Now();
      hide Consistent, Quiet;
      if ownedPtr != NULL {
        refCount := NewBlock(p, pool);
      }
      Enter(pool);
      assert pool.Now() == Owning(s, this, p, BlockOf(refCount));
      hide Owning;
      MadeRawMeans(s, this, p, BlockOf(refCount));
    }

    /** The increment of lines 325, 331, 337, 344, 265 and 368. */
    method CountBlock(ghost pool: Pool)
      requires this in pool.handles && (if refCount != null then phase.Counting? else phase.Steady?)
      requires refCount != null ==> refCount in pool.counters && !refCount.freed
      modifies this`phase, refCount
      ensures pool.Now() == Counted(old(pool.Now()), this)
    {
      if refCount != null {
        refCount.Inc();
        phase := Steady;
        pool.Writes(this, refCount);
      }
    }

    /** The constructors of lines 323-345: a copy, a shifted copy, and an alias with another start. */
    constructor From(other: SharedPtr, owned: Ptr, shifted: Ptr, ghost pool: Pool)
      requires pool.Valid() && other in pool.handles
      modifies pool, other.refCount
      ensures pool.Valid()
      ensures pool.Now() == Counted(Reading(old(pool.Now()), this, other, owned, shifted), this)
      ensures ownedPtr == owned && ptr == shifted && refCount == other.refCount
      ensures refCount != null ==> refCount.count == old(other.refCount.count) + 1
      ensures other.Value() == old(other.Value())
    {
      ownedPtr, ptr, refCount := owned, shifted, other.refCount;
      phase := if other.refCount != null then Counting(other) else Steady;
      new;
      ghost var s := pool.Now();
      MadeFromMeans(s, this, other, owned, shifted);
      assert s.handles[other] == other.Value();
      if refCount != null {
        SteadyBlockIsLive(s, other);
      }
      hide Consistent, Quiet, Counted;
      Enter(pool);
      CountBlock(pool);
    }

    method Reset(ghost pool: Pool)
      requires pool.Valid() && this in pool.handles
      modifies this, refCount
      ensures pool.Valid() && pool.Now() == Completed(old(pool.Now()), this, Clear, None)
      ensures ownedPtr == ptr == NULL && refCount == null && LetsGo(old(refCount))
    {
      CompletedMeans(pool.Now(), this, Clear, None);
      CompletedEnds(pool.Now(), this, Clear, None);
      hide Consistent, Completed, Removed, Quiet;
      Remove(pool, Clear);
      label Removed:
      ownedPtr, refCount, ptr, phase := NULL, null, NULL, Steady;
      pool.Writes@Removed(this, null);
    }

    /** The destructor, line 215. */
    method Destroy(ghost pool: Pool)
      requires pool.Valid() && this in pool.handles
      modifies this, refCount, pool
      ensures pool.Valid() && pool.Now() == Completed(old(pool.Now()), this, Die, None)
      ensures this !in pool.handles && LetsGo(old(refCount))
    {
      CompletedMeans(pool.Now(), this, Die, None);
      CompletedEnds(pool.Now(), this, Die, None);
      hide Consistent, Completed, Removed, Quiet;
      Remove(pool, Die);
      Leave(pool);
    }

    /** Lines 262-264 and 365-367: the fields are read from the other handle. */
    method ReadFields(other: SharedPtr, ghost pool: Pool)
      requires this in pool.handles && other in pool.handles && other != this
      modifies this
      ensures refCount == other.refCount && (if refCount != null then phase.Counting? else phase.Steady?)
      ensures pool.Now() == Reading(old(pool.Now()), this, other, other.ownedPtr, other.ptr)
    {
      ownedPtr, refCount, ptr := other.ownedPtr, other.refCount, other.ptr;
      phase := if refCount != null then Counting(other) else Steady;
      pool.Writes(this, null);
    }

    /** What a copy can rely on before it starts. */
    lemma CopyPrepared(other: SharedPtr, pool: Pool)
      requires pool.Valid() && this in pool.handles && other in pool.handles && other != this
      ensures var s := pool.Now(); var t := Removed(s, this, CopyOf(other));
              && Enabled(s, Begin(this, CopyOf(other))) && other in t.handles && t.handles[other] == s.handles[other]
              && t.handles[other].owned == other.ownedPtr && t.handles[other].ptr == other.ptr
              && (BlockOf(other.refCount).Some? ==>
                    BlockOf(other.refCount).value in t.blocks && !t.blocks[BlockOf(other.refCount).value].freed)
              && Completed(s, this, CopyOf(other), None)
                  == Counted(Reading(t, this, other, other.ownedPtr, other.ptr), this)
              && Consistent(Completed(s, this, CopyOf(other), None)) && Quiet(Completed(s, this, CopyOf(other), None))
    {
      var s := pool.Now();
      assert !Pinned(s, this);
      assert s.handles[other] == other.Value();
      CompletedMeans(s, this, CopyOf(other), None);
      CompletedEnds(s, this, CopyOf(other), None);
      RemovedHandles(s, this, CopyOf(other));
      SameElsewhere(s, Removed(s, this, CopyOf(other)), this, other);
      hide Consistent, Completed, Removed, Quiet, Counted, Reading;
      if other.refCount != null {
        CopiedBlockIsLive(s, this, other);
      }
    }

    /** Lines 261-265 and 364-368. */
    method CopyFrom(other: SharedPtr, ghost pool: Pool)
      requires pool.Valid() && this in pool.handles && other in pool.handles && other != this
      modifies this, refCount, other.refCount
      ensures pool.Valid() && pool.Now() == Completed(old(pool.Now()), this, CopyOf(other), None)
    {
      CopyPrepared(other, pool);
      hide Consistent, Completed, Removed, Quiet, Counted, Reading, Enabled;
      Remove(pool, CopyOf(other));
      ReadFields(other, pool);
      CountBlock(pool);
    }

    /** What a copy does to the two handles. */
    lemma CopyMeans(other: SharedPtr, pool: Pool)
      requires pool.Valid() && this in pool.handles && other in pool.handles && other != this
      ensures Completed(pool.Now(), this, CopyOf(other), None).handles == pool.Now().handles[this := other.Value()]
    {
      assert !Pinned(pool.Now(), this);
      assert pool.Now().handles[other] == other.Value();
      CompletedMeans(pool.Now(), this, CopyOf(other), None);
    }

    /** The pool knows the handles' values. */
    lemma SameValues(other: SharedPtr, pool: Pool)
      ensures this in pool.Now().handles ==> pool.Now().handles[this] == Value()
      ensures other in pool.Now().handles ==> pool.Now().handles[other] == other.Value()
    {
    }

    /** Assignment from a handle of the same type, lines 360-371. */
    method Assign(other: SharedPtr, ghost pool: Pool)
      requires pool.Valid() && this in pool.handles && other in pool.handles
      modifies this, refCount, other.refCount
      ensures pool.Valid()
      ensures pool.Now() == if other == this then old(pool.Now())
          else Completed(old(pool.Now()), this, CopyOf(other), None)
      ensures Value() == old(other.Value()) && other.Value() == old(other.Value())
    {
      if other != this || other.ownedPtr != ownedPtr || other.ptr != ptr {
        CopyMeans(other, pool);
        hide Completed, Consistent, Quiet;
        CopyFrom(other, pool);
        SameValues(other, pool);
      }
    }

    /** Assignment from a handle of another type, lines 257-268. */
    method AssignFrom(other: SharedPtr, ghost pool: Pool)
      requires pool.Valid() && this in pool.handles && other in pool.handles
      modifies this, refCount, other.refCount
      ensures pool.Valid() && pool.Now() == AssignedFrom(old(pool.Now()), this, other)
      ensures old(other.ptr) == old(ownedPtr) ==> Value() == old(Value()) && pool.Now() == old(pool.Now())
      ensures old(other.ptr) != old(ownedPtr) ==> Value() == old(other.Value())
      ensures other.Value() == old(other.Value())
    {
      if other != this && other.ptr != ownedPtr {
        CopyMeans(other, pool);
        hide Completed, Consistent, Quiet;
        CopyFrom(other, pool);
        SameValues(other, pool);
      }
    }

    /** Lines 380-382: the fields of a new owner. */
    method TakeOver(p: Ptr, ghost pool: Pool)
      requires this in pool.handles
      modifies this, pool
      ensures refCount != null <==> p != NULL
      ensures refCount != null ==> fresh(refCount) && refCount !in old(pool.counters)
      ensures pool.Now() == Owning(old(pool.Now()), this, p, BlockOf(refCount))
      ensures ownedPtr == ptr == p && (refCount != null ==> refCount.Value() == Block(p, 1, [], false))
    {
      ownedPtr, ptr, refCount, phase := p, p, null, Steady;
      pool.Writes(this, null);
      if p != NULL {
        var block := NewBlock(p, pool);
        label Made:
        refCount := block;
        pool.Writes@Made(this, null);
      }
    }

    /** Taking over a raw pointer, lines 375-397. */
    method ResetRaw(p: Ptr, ghost pool: Pool)
      requires pool.Valid() && this in pool.handles
      modifies this, refCount, pool
      ensures pool.Valid() && pool.Now() == ResetTo(old(pool.Now()), this, p, BlockOf(refCount))
      ensures old(ownedPtr) == p ==> Value() == old(Value()) && pool.Now() == old(pool.Now())
      ensures old(ownedPtr) != p ==>
          && ownedPtr == ptr == p && (refCount == null <==> p == NULL) && LetsGo(old(refCount))
          && (refCount != null ==> fresh(refCount) && refCount.Value() == Block(p, 1, [], false))
    {
      if p != ownedPtr {
        ghost var s := pool.Now();
        hide Consistent, Completed, Removed, Quiet, Owning;
        Remove(pool, Own(p));
        TakeOver(p, pool);
        CompletedMeans(s, this, Own(p), BlockOf(refCount));
        CompletedEnds(s, this, Own(p), BlockOf(refCount));
      }
    }

    method UseCount(ghost pool: Pool) returns (n: int)
      requires pool.Valid() && this in pool.handles
      ensures n == if refCount == null then 0 else |Holders(pool.Now(), refCount)|
      ensures refCount != null ==> n == |set h | h in pool.handles && h.refCount == refCount|
    {
      if refCount == null {
        return 0;
      }
      SteadyBlockIsLive(pool.Now(), this);
      assert BlockFits(pool.Now(), refCount);
      assert Holders(pool.Now(), refCount) == set h | h in pool.handles && h.refCount == refCount;
      return refCount.count;
    }
  }
}
