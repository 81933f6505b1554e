/** The chained hash table whose first entry of every bucket lies in the table itself. */
module HashTable {
  import opened Multisets
  import opened Options

  // ---- buckets as lists of pairs ----

  /** The pairs of a bucket, the head cell first. */
  type Bucket<K, V> = seq<(K, V)>

  /** The first place of a key, or the length. */
  function Place<K(==), V>(b: Bucket<K, V>, key: K): (p: nat)
    ensures p <= |b| && (p < |b| ==> b[p].0 == key) && forall i :: 0 <= i < p ==> b[i].0 != key
  {
    if b == [] || b[0].0 == key then 0 else 1 + Place(b[1..], key)
  }

  function Lookup<K(==), V>(b: Bucket<K, V>, key: K): Option<V> {
    var p := Place(b, key);
    if p < |b| then Some(b[p].1) else None
  }

  /** What `insert` does to a bucket: it fills a free head; otherwise it searches the chain, but not the
      head, for the key. */
  function Inserted<K(==), V>(b: Bucket<K, V>, key: K, value: V): Bucket<K, V> {
    if b == [] then [(key, value)]
    else
      var p := Place(b[1..], key);
      if 1 + p < |b| then b[1 + p := (key, value)] else b + [(key, value)]
  }

  /** What `erase` does to a bucket. */
  function Erased<K(==), V>(b: Bucket<K, V>, key: K): Bucket<K, V> {
    var p := Place(b, key);
    if p < |b| then Without(b, p) else b
  }

  // ---- the table as a map ----

  ghost predicate DistinctKeys<K, V>(b: Bucket<K, V>) {
    forall i, j :: 0 <= i < j < |b| ==> b[i].0 != b[j].0
  }

  /** Keys are distinct in every bucket, and lie in the bucket they hash to. */
  ghost predicate Proper<K, V>(buckets: seq<Bucket<K, V>>, hash: K -> nat) {
    && |buckets| > 0
    && forall id :: 0 <= id < |buckets| ==>
        && DistinctKeys(buckets[id])
        && forall i :: 0 <= i < |buckets[id]| ==> hash(buckets[id][i].0) % |buckets| == id
  }

  function BucketOf<K, V>(buckets: seq<Bucket<K, V>>, hash: K -> nat, key: K): (id: nat)
    requires |buckets| > 0
    ensures id < |buckets|
  {
    hash(key) % |buckets|
  }

  /** The table holds exactly the map: looking a key up in its bucket gives what the map gives. */
  ghost predicate Represents<K(!new), V>(buckets: seq<Bucket<K, V>>, hash: K -> nat, m: map<K, V>) {
    && Proper(buckets, hash)
    && forall key {:trigger key in m} :: Lookup(buckets[BucketOf(buckets, hash, key)], key)
        == if key in m then Some(m[key]) else None
  }

  /** The key sits in the head cell of its bucket. */
  predicate AtHead<K(==), V>(buckets: seq<Bucket<K, V>>, hash: K -> nat, key: K)
    requires |buckets| > 0
  {
    var b := buckets[BucketOf(buckets, hash, key)];
    b != [] && b[0].0 == key
  }

  function AfterInsert<K(==), V>(buckets: seq<Bucket<K, V>>, hash: K -> nat, key: K, value: V): seq<Bucket<K, V>>
    requires |buckets| > 0
  {
    var id := BucketOf(buckets, hash, key);
    buckets[id := Inserted(buckets[id], key, value)]
  }

  function AfterErase<K(==), V>(buckets: seq<Bucket<K, V>>, hash: K -> nat, key: K): seq<Bucket<K, V>>
    requires |buckets| > 0
  {
    var id := BucketOf(buckets, hash, key);
    buckets[id := Erased(buckets[id], key)]
  }

  /** In a bucket with distinct keys, the place of a key is the only one. */
  lemma PlaceIsUnique<K, V>(b: Bucket<K, V>, key: K, i: nat)
    requires i < |b| && b[i].0 == key && DistinctKeys(b)
    ensures Place(b, key) == i
  {
  }

  lemma InsertedKeys<K, V>(b: Bucket<K, V>, key: K, value: V)
    requires DistinctKeys(b)
    ensures DistinctKeys(Inserted(b, key, value)) <==> !(b != [] && b[0].0 == key)
  {
    var c := Inserted(b, key, value);
    if b != [] {
      var p := Place(b[1..], key);
      if b[0].0 == key {
        assert forall t :: 0 <= t < |b| - 1 ==> b[1..][t] == b[1 + t];
        assert 1 + p == |b|;
        assert c[0].0 == c[|b|].0;
      } else {
        forall i, j | 0 <= i < j < |c|
          ensures c[i].0 != c[j].0
        {
          assert i > 0 ==> (i - 1 < |b[1..]| ==> b[1..][i - 1] == b[i]);
          if 1 + p < |b| {
            assert b[1..][p] == b[1 + p];
            assert c[i].0 == b[i].0 && c[j].0 == b[j].0;
          }
        }
      }
    }
  }

  lemma LookupBehindHead<K, V>(b: Bucket<K, V>, k: K)
    requires b != []
    ensures Lookup(b, k) == if b[0].0 == k then Some(b[0].1) else Lookup(b[1..], k)
  {
  }

  lemma LookupPrepended<K, V>(x: (K, V), b: Bucket<K, V>, k: K)
    ensures Lookup([x] + b, k) == if x.0 == k then Some(x.1) else Lookup(b, k)
  {
    LookupBehindHead([x] + b, k);
    assert ([x] + b)[1..] == b;
  }

  /** Insertion into any occupied bucket keeps the head and sets the key's value in the chain, and nothing else. */
  lemma InsertedChain<K, V>(b: Bucket<K, V>, key: K, value: V, k: K)
    requires b != []
    ensures var c := Inserted(b, key, value);
            && c != [] && c[0] == b[0]
            && Lookup(c[1..], k) == if k == key then Some(value) else Lookup(b[1..], k)
  {
    var c, p := Inserted(b, key, value), Place(b[1..], key);
    if 1 + p < |b| {
      assert c[1..] == b[1..][p := (key, value)];
      SameKeysSamePlace(b[1..], c[1..], k);
      SameKeysSamePlace(b[1..], c[1..], key);
    } else {
      assert c[1..] == b[1..] + [(key, value)];
      if k == key {
        PlaceIs(c[1..], key, |b| - 1);
      } else {
        PlaceInPrefix(b[1..], c[1..], k);
      }
    }
  }

  lemma InsertedLookup<K, V>(b: Bucket<K, V>, key: K, value: V, k: K)
    requires !(b != [] && b[0].0 == key)
    ensures Lookup(Inserted(b, key, value), k) == if k == key then Some(value) else Lookup(b, k)
  {
    if b != [] {
      InsertedChain(b, key, value, k);
      LookupBehindHead(b, k);
      LookupBehindHead(Inserted(b, key, value), k);
    } else {
      LookupBehindHead([(key, value)], k);
    }
  }

  /** Inserting the head's key shows nothing, until the head is erased. */
  lemma InsertedAtHead<K, V>(b: Bucket<K, V>, key: K, value: V, k: K)
    requires b != [] && b[0].0 == key
    ensures Lookup(Inserted(b, key, value), k) == Lookup(b, k)
    ensures Lookup(Erased(Inserted(b, key, value), key), k) == if k == key then Some(value) else Lookup(b, k)
  {
    var c := Inserted(b, key, value);
    InsertedChain(b, key, value, k);
    LookupBehindHead(b, k);
    LookupBehindHead(c, k);
    ErasedHead(c, key);
  }

  lemma SameKeysSamePlace<K, V>(b: Bucket<K, V>, c: Bucket<K, V>, k: K)
    requires |b| == |c| && forall i :: 0 <= i < |b| ==> b[i].0 == c[i].0
    ensures Place(b, k) == Place(c, k)
  {
  }

  /** Appending a different key does not move the place of `k`. */
  lemma PlaceInPrefix<K, V>(b: Bucket<K, V>, c: Bucket<K, V>, k: K)
    requires |c| == |b| + 1 && c[..|b|] == b && c[|b|].0 != k
    ensures Lookup(c, k) == Lookup(b, k)
  {
    assert forall i :: 0 <= i < |b| ==> c[i] == c[..|b|][i];
  }

  lemma ErasedHead<K, V>(b: Bucket<K, V>, key: K)
    requires b != [] && b[0].0 == key
    ensures Place(b, key) == 0 && Erased(b, key) == b[1..]
  {
    assert b[..0] + b[1..] == b[1..];
  }

  lemma ErasedBehindHead<K, V>(b: Bucket<K, V>, key: K)
    requires b != [] && b[0].0 != key
    ensures Place(b, key) == 1 + Place(b[1..], key) && Erased(b, key) == [b[0]] + Erased(b[1..], key)
  {
    var p := Place(b[1..], key);
    assert b == [b[0]] + b[1..];
    if p < |b[1..]| {
      BucketWithout(b[0], b[1..], p);
    }
    hide Without;
  }

  /** What follows the first entry with the key. */
  function Behind<K(==), V>(b: Bucket<K, V>, key: K): Bucket<K, V> {
    if b == [] then [] else if b[0].0 == key then b[1..] else Behind(b[1..], key)
  }

  /** Erasing from any bucket takes away the first entry with the key, and nothing else. */
  lemma {:induction false} ErasedFirst<K, V>(b: Bucket<K, V>, key: K, k: K)
    ensures Lookup(Erased(b, key), k) == if k == key then Lookup(Behind(b, key), key) else Lookup(b, k)
  {
    if b != [] {
      LookupBehindHead(b, k);
      if b[0].0 == key {
        ErasedHead(b, key);
      } else {
        ErasedFirst(b[1..], key, k);
        ErasedBehindHead(b, key);
        hide Erased, Lookup, Place;
        LookupPrepended(b[0], Erased(b[1..], key), k);
      }
    }
  }

  lemma ErasedLookup<K, V>(b: Bucket<K, V>, key: K, k: K)
    requires DistinctKeys(b)
    ensures DistinctKeys(Erased(b, key))
    ensures Lookup(Erased(b, key), k) == if k == key then None else Lookup(b, k)
  {
    var c, p := Erased(b, key), Place(b, key);
    if p < |b| {
      assert forall i :: 0 <= i < |c| ==> c[i] == b[if i < p then i else i + 1];
      var q := Place(c, k);
      if q < |c| {
        PlaceIsUnique(b, k, if q < p then q else q + 1);
      } else if k != key && Place(b, k) < |b| {
        NotErased(b, key, k);
      }
    }
  }

  lemma NotErased<K, V>(b: Bucket<K, V>, key: K, k: K)
    requires Place(b, k) < |b| && k != key
    ensures exists i :: 0 <= i < |Erased(b, key)| && Erased(b, key)[i].0 == k
  {
    var c, p, r := Erased(b, key), Place(b, key), Place(b, k);
    if p < |b| {
      assert c[if r < p then r else r - 1] == b[r];
    } else {
      assert c[r] == b[r];
    }
  }

  /** `insert` refines adding to the map exactly when the key is not in the head cell of its bucket. */
  lemma InsertRefines<K(!new), V>(buckets: seq<Bucket<K, V>>, hash: K -> nat, m: map<K, V>, key: K, value: V)
    requires Represents(buckets, hash, m)
    ensures Represents(AfterInsert(buckets, hash, key, value), hash, m[key := value]) <==> !AtHead(buckets, hash, key)
  {
    var id := BucketOf(buckets, hash, key);
    var after := AfterInsert(buckets, hash, key, value);
    InsertedKeys(buckets[id], key, value);
    if !AtHead(buckets, hash, key) {
      forall k
        ensures Lookup(after[BucketOf(after, hash, k)], k) == if k in m[key := value] then Some(m[key := value][k])
            else None
      {
        InsertedLookup(buckets[id], key, value, k);
        assert Lookup(buckets[BucketOf(buckets, hash, k)], k) == if k in m then Some(m[k]) else None;
      }
      InsertedPlaces(buckets[id], key, value);
    } else {
      assert !DistinctKeys(after[id]);
    }
  }

  /** Insertion adds no key but its own. */
  lemma InsertedPlaces<K, V>(b: Bucket<K, V>, key: K, value: V)
    ensures var c := Inserted(b, key, value);
            forall i :: 0 <= i < |c| ==> c[i].0 == key || (i < |b| && c[i].0 == b[i].0)
  {
  }

  /** `erase` refines removal. */
  lemma EraseRefines<K(!new), V>(buckets: seq<Bucket<K, V>>, hash: K -> nat, m: map<K, V>, key: K)
    requires Represents(buckets, hash, m)
    ensures Represents(AfterErase(buckets, hash, key), hash, m - {key})
  {
    var id := BucketOf(buckets, hash, key);
    var b := buckets[id];
    var after := AfterErase(buckets, hash, key);
    ErasedLookup(b, key, key);
    forall k
      ensures Lookup(after[BucketOf(after, hash, k)], k) == if k in m - {key} then Some((m - {key})[k]) else None
    {
      ErasedLookup(b, key, k);
      assert Lookup(buckets[BucketOf(buckets, hash, k)], k) == if k in m then Some(m[k]) else None;
    }
    forall i | 0 <= i < |Erased(b, key)|
      ensures hash(Erased(b, key)[i].0) % |buckets| == id
    {
      var p := Place(b, key);
      assert Erased(b, key)[i] == b[if i < p then i else i + 1];
    }
  }

  /** Inserting the key of a head cell changes no lookup; erasing the key then leaves the table as the insertion should
      have left it. */
  lemma ReinsertShowsAfterErase<K(!new), V>(buckets: seq<Bucket<K, V>>, hash: K -> nat, m: map<K, V>, key: K, value: V)
    requires Represents(buckets, hash, m) && AtHead(buckets, hash, key)
    ensures var after := AfterInsert(buckets, hash, key, value);
            && |after| == |buckets|
            && (forall k {:trigger k in m} ::
                  Lookup(after[BucketOf(after, hash, k)], k) == if k in m then Some(m[k]) else None)
            && Represents(AfterErase(after, hash, key), hash, m[key := value])
  {
    var id := BucketOf(buckets, hash, key);
    var after, c := AfterInsert(buckets, hash, key, value), buckets[id][1..] + [(key, value)];
    ReinsertedBucket(buckets[id], key, value);
    assert AfterErase(after, hash, key) == buckets[id := c];
    forall k
      ensures Lookup(after[BucketOf(after, hash, k)], k) == Lookup(buckets[BucketOf(buckets, hash, k)], k)
      ensures BucketOf(buckets, hash, k) == id ==>
          Lookup(c, k) == if k == key then Some(value) else Lookup(buckets[id], k)
    {
      InsertedAtHead(buckets[id], key, value, k);
    }
    hide Inserted, Erased, Lookup, Place;
    BucketReplaced(buckets, hash, m, key, value, c);
    forall k {:trigger k in m}
      ensures Lookup(buckets[BucketOf(buckets, hash, k)], k) == if k in m then Some(m[k]) else None
    {
    }
  }

  /** A bucket that differs in the value of one key. */
  lemma BucketReplaced<K(!new), V>(buckets: seq<Bucket<K, V>>, hash: K -> nat, m: map<K, V>, key: K, value: V,
      c: Bucket<K, V>)
    requires Represents(buckets, hash, m) && DistinctKeys(c)
    requires forall i :: 0 <= i < |c| ==> hash(c[i].0) % |buckets| == BucketOf(buckets, hash, key)
    requires forall k :: BucketOf(buckets, hash, k) == BucketOf(buckets, hash, key) ==>
        Lookup(c, k) == if k == key then Some(value) else Lookup(buckets[BucketOf(buckets, hash, key)], k)
    ensures Represents(buckets[BucketOf(buckets, hash, key) := c], hash, m[key := value])
  {
    hide Lookup, DistinctKeys;
    var id := BucketOf(buckets, hash, key);
    var after := buckets[id := c];
    forall k
      ensures Lookup(after[BucketOf(after, hash, k)], k)
           == if k in m[key := value] then Some(m[key := value][k]) else None
    {
      assert Lookup(buckets[BucketOf(buckets, hash, k)], k) == if k in m then Some(m[k]) else None;
    }
  }

  /** What such an insertion and erasure leave: the chain, and the new pair behind it. */
  lemma ReinsertedBucket<K, V>(b: Bucket<K, V>, key: K, value: V)
    requires DistinctKeys(b) && b != [] && b[0].0 == key
    ensures Inserted(b, key, value) == b + [(key, value)]
    ensures Erased(Inserted(b, key, value), key) == b[1..] + [(key, value)]
    ensures DistinctKeys(b[1..] + [(key, value)])
  {
    assert forall t :: 0 <= t < |b| - 1 ==> b[1..][t] == b[1 + t];
    PlaceIs(b[1..], key, |b| - 1);
    assert Inserted(b, key, value) == b + [(key, value)];
    hide Inserted, Erased, Place;
    ErasedHead(b + [(key, value)], key);
    assert (b + [(key, value)])[1..] == b[1..] + [(key, value)];
  }

  // ---- runs ----

  datatype Operation<K, V> = Insert(key: K, value: V) | Erase(key: K)

  function Step<K(==), V>(buckets: seq<Bucket<K, V>>, hash: K -> nat, op: Operation<K, V>): (after: seq<Bucket<K, V>>)
    requires |buckets| > 0
    ensures |after| == |buckets|
  {
    match op
    case Insert(key, value) => AfterInsert(buckets, hash, key, value)
    case Erase(key) => AfterErase(buckets, hash, key)
  }

  function MapStep<K, V>(m: map<K, V>, op: Operation<K, V>): map<K, V> {
    match op
    case Insert(key, value) => m[key := value]
    case Erase(key) => m - {key}
  }

  function RunTable<K(==), V>(buckets: seq<Bucket<K, V>>, hash: K -> nat, ops: seq<Operation<K, V>>)
    : (after: seq<Bucket<K, V>>)
    requires |buckets| > 0
    ensures |after| == |buckets|
    decreases |ops|
  {
    if ops == [] then buckets else RunTable(Step(buckets, hash, ops[0]), hash, ops[1..])
  }

  function RunMap<K, V>(m: map<K, V>, ops: seq<Operation<K, V>>): map<K, V>
    decreases |ops|
  {
    if ops == [] then m else RunMap(MapStep(m, ops[0]), ops[1..])
  }

  /** Every insertion is of a key not stored at that moment. */
  predicate InsertsNewKeys<K, V>(m: map<K, V>, ops: seq<Operation<K, V>>)
    decreases |ops|
  {
    ops == [] || ((ops[0].Insert? ==> ops[0].key !in m) && InsertsNewKeys(MapStep(m, ops[0]), ops[1..]))
  }

  /** A key not stored is not at a head. */
  lemma NewKeyNotAtHead<K(!new), V>(buckets: seq<Bucket<K, V>>, hash: K -> nat, m: map<K, V>, key: K)
    requires Represents(buckets, hash, m) && key !in m
    ensures !AtHead(buckets, hash, key)
  {
    assert Lookup(buckets[BucketOf(buckets, hash, key)], key) == None;
  }

  /** Every run that inserts only new keys refines the same run on the map. */
  lemma {:induction false} RunRefines<K(!new), V>(buckets: seq<Bucket<K, V>>, hash: K -> nat, m: map<K, V>,
      ops: seq<Operation<K, V>>)
    requires Represents(buckets, hash, m) && InsertsNewKeys(m, ops)
    ensures Represents(RunTable(buckets, hash, ops), hash, RunMap(m, ops))
    decreases |ops|
  {
    if ops != [] {
      match ops[0] {
        case Insert(key, value) =>
          NewKeyNotAtHead(buckets, hash, m, key);
          InsertRefines(buckets, hash, m, key, value);
        case Erase(key) =>
          EraseRefines(buckets, hash, m, key);
      }
      RunRefines(Step(buckets, hash, ops[0]), hash, MapStep(m, ops[0]), ops[1..]);
    }
  }

  lemma EmptyRepresents<K(!new), V>(n: nat, hash: K -> nat)
    requires n > 0
    ensures Represents<K, V>(seq(n, _ => []), hash, map[])
  {
  }

  /** Inserting the key of a head cell again leaves a stale value in front and a second entry behind:
      the old value is still found, and is gone only after two erasures. */
  lemma ReinsertAtHeadFails<V>(hash: int -> nat, v: V, w: V)
    ensures var twice := AfterInsert(AfterInsert([[]], hash, 7, v), hash, 7, w);
            && twice == [[(7, v), (7, w)]]
            && Lookup(twice[0], 7) == Some(v)
            && Lookup(AfterErase(twice, hash, 7)[0], 7) == Some(w)
            && Lookup(AfterErase(AfterErase(twice, hash, 7), hash, 7)[0], 7) == None
  {
    var once: Bucket<int, V> := [(7, v)];
    var twice: Bucket<int, V> := [(7, v), (7, w)];
    assert Inserted([], 7, v) == once;
    assert once[1..] == [];
    assert Inserted(once, 7, w) == twice;
    assert Erased(twice, 7) == [(7, w)] && Erased([(7, w)], 7) == [];
  }

  // ---- the heap structure ----

  class Entry<K, V> {
    const key: K
    var value: V
    var next: Entry?<K, V>

    constructor (key: K, value: V)
      ensures this.key == key && this.value == value && next == null
    {
      this.key, this.value, next := key, value, null;
    }
  }

  datatype FirstEntry<K, V> = FirstEntry(key: K, value: V, next: Entry?<K, V>, isFree: bool)

  /** The `next` fields along a chain. */
  ghost function Nexts<K, V>(chain: seq<Entry<K, V>>): (ns: seq<Entry?<K, V>>)
    reads chain
    ensures |ns| == |chain| && forall i :: 0 <= i < |chain| ==> ns[i] == chain[i].next
  {
    seq(|chain|, i requires 0 <= i < |chain| reads chain => chain[i].next)
  }

  /** `first` and the links `ns` run through the chain and end at null. */
  ghost predicate Links<K, V>(first: Entry?<K, V>, chain: seq<Entry<K, V>>, ns: seq<Entry?<K, V>>) {
    && |ns| == |chain|
    && first == (if chain == [] then null else chain[0])
    && forall i :: 0 <= i < |chain| ==> ns[i] == if i + 1 < |chain| then chain[i + 1] else null
  }

  ghost predicate Linked<K, V>(first: Entry?<K, V>, chain: seq<Entry<K, V>>)
    reads chain
  {
    Links(first, chain, Nexts(chain))
  }

  lemma NextsWithout<K, V>(chain: seq<Entry<K, V>>, p: nat)
    requires p < |chain|
    ensures Nexts(Without(chain, p)) == Without(Nexts(chain), p)
  {
  }

  /** Redirecting the last link to a new last node. */
  lemma LinksAppend<K, V>(first: Entry?<K, V>, chain: seq<Entry<K, V>>, ns: seq<Entry?<K, V>>, e: Entry<K, V>)
    requires Links(first, chain, ns)
    ensures if chain == [] then Links(e, [e], [null])
            else Links(first, chain + [e], ns[|chain| - 1 := e] + [null])
  {
  }

  /** Redirecting the link before place p past it. */
  lemma LinksWithout<K, V>(first: Entry?<K, V>, chain: seq<Entry<K, V>>, ns: seq<Entry?<K, V>>, p: nat)
    requires Links(first, chain, ns) && p < |chain|
    ensures if p == 0 then Links(ns[0], chain[1..], ns[1..])
            else Links(first, Without(chain, p), Without(ns[p - 1 := ns[p]], p))
  {
  }

  ghost function Pairs<K, V>(chain: seq<Entry<K, V>>): (b: Bucket<K, V>)
    reads chain
    ensures |b| == |chain|
  {
    seq(|chain|, i requires 0 <= i < |chain| reads chain => (chain[i].key, chain[i].value))
  }

  ghost function CellPairs<K, V>(cell: FirstEntry<K, V>, chain: seq<Entry<K, V>>): Bucket<K, V>
    reads chain
  {
    if cell.isFree then [] else [(cell.key, cell.value)] + Pairs(chain)
  }

  lemma PairsWithout<K, V>(chain: seq<Entry<K, V>>, p: nat)
    requires p < |chain|
    ensures Pairs(Without(chain, p)) == Without(Pairs(chain), p)
  {
  }

  lemma PairsAppend<K, V>(chain: seq<Entry<K, V>>, e: Entry<K, V>)
    ensures Pairs(chain + [e]) == Pairs(chain) + [(e.key, e.value)]
    ensures Nexts(chain + [e]) == Nexts(chain) + [e.next]
  {
  }

  lemma UpdateTwice<T>(s: seq<T>, i: nat, x: T, y: T)
    requires i < |s|
    ensures s[i := x][i := y] == s[i := y]
  {
  }

  lemma BucketWithout<T>(head: T, tail: seq<T>, p: nat)
    requires p < |tail|
    ensures Without([head] + tail, 1 + p) == [head] + Without(tail, p)
  {
  }

  lemma PlaceBehindHead<K, V>(head: (K, V), b: Bucket<K, V>, key: K)
    requires head.0 != key
    ensures Place([head] + b, key) == 1 + Place(b, key)
  {
    assert ([head] + b)[1..] == b;
  }

  lemma NextInChain<K, V>(first: Entry?<K, V>, chain: seq<Entry<K, V>>, p: nat)
    requires Linked(first, chain) && p < |chain|
    ensures chain[p].next == if p + 1 < |chain| then chain[p + 1] else null
  {
    assert Nexts(chain)[p] == chain[p].next;
  }

  /** No node is in two chains, or twice in one. */
  ghost predicate NoSharing<K, V>(chains: seq<seq<Entry<K, V>>>) {
    forall id, i, id', i' |
        0 <= id < |chains| && 0 <= i < |chains[id]| && 0 <= id' < |chains| && 0 <= i' < |chains[id']| ::
      chains[id][i] == chains[id'][i'] ==> id == id' && i == i'
  }

  ghost function NodesOf<K, V>(chains: seq<seq<Entry<K, V>>>): set<Entry<K, V>> {
    set id, i | 0 <= id < |chains| && 0 <= i < |chains[id]| :: chains[id][i]
  }

  lemma NodesWithout<K, V>(chains: seq<seq<Entry<K, V>>>, id: nat, p: nat)
    requires id < |chains| && p < |chains[id]|
    ensures NodesOf(chains[id := Without(chains[id], p)]) <= NodesOf(chains)
  {
    var chain := chains[id];
    var shorter := Without(chain, p);
    assert forall i :: 0 <= i < |shorter| ==> shorter[i] == chain[if i < p then i else i + 1];
  }

  lemma TailWithout<K, V>(chains: seq<seq<Entry<K, V>>>, id: nat)
    requires NoSharing(chains) && id < |chains| && chains[id] != []
    ensures NoSharing(chains[id := chains[id][1..]]) && NodesOf(chains[id := chains[id][1..]]) <= NodesOf(chains)
  {
    NoSharingWithout(chains, id, 0);
    NodesWithout(chains, id, 0);
    assert chains[id][..0] + chains[id][1..] == chains[id][1..];
    hide *;
  }

  lemma LinksTail<K, V>(first: Entry?<K, V>, chain: seq<Entry<K, V>>)
    requires Linked(first, chain) && chain != []
    ensures Links(chain[0].next, chain[1..], Nexts(chain[1..]))
  {
    assert Nexts(chain[1..]) == Nexts(chain)[1..];
    LinksWithout(first, chain, Nexts(chain), 0);
  }

  lemma NodesAppend<K, V>(chains: seq<seq<Entry<K, V>>>, id: nat, e: Entry<K, V>)
    requires id < |chains|
    ensures NodesOf(chains[id := chains[id] + [e]]) <= NodesOf(chains) + {e}
  {
  }

  lemma NodeElsewhere<K, V>(chains: seq<seq<Entry<K, V>>>, id: nat, p: nat)
    requires NoSharing(chains) && id < |chains| && p < |chains[id]|
    ensures forall k :: 0 <= k < |chains| && k != id ==> chains[id][p] !in chains[k]
    ensures forall i :: 0 <= i < |chains[id]| && i != p ==> chains[id][i] != chains[id][p]
  {
  }

  lemma NoSharingAppend<K, V>(chains: seq<seq<Entry<K, V>>>, id: nat, e: Entry<K, V>)
    requires NoSharing(chains) && id < |chains|
    requires forall k, i | 0 <= k < |chains| && 0 <= i < |chains[k]| :: chains[k][i] != e
    ensures NoSharing(chains[id := chains[id] + [e]])
  {
  }

  lemma NoSharingWithout<K, V>(chains: seq<seq<Entry<K, V>>>, id: nat, p: nat)
    requires NoSharing(chains) && id < |chains| && p < |chains[id]|
    ensures NoSharing(chains[id := Without(chains[id], p)])
  {
    var chain := chains[id];
    var shorter := Without(chain, p);
    assert forall i :: 0 <= i < |shorter| ==> shorter[i] == chain[if i < p then i else i + 1];
  }

  lemma PlaceIs<K, V>(b: Bucket<K, V>, key: K, p: nat)
    requires p <= |b| && (p < |b| ==> b[p].0 == key) && forall i :: 0 <= i < p ==> b[i].0 != key
    ensures Place(b, key) == p
  {
  }

  class HashTable<K(==, 0), V(0)> {
    const size: nat
    const table: array<FirstEntry<K, V>>
    const hashFunc: K -> nat
    /** The chain behind every head cell. */
    ghost var chains: seq<seq<Entry<K, V>>>

    ghost function Nodes(): set<Entry<K, V>>
      reads this
    {
      NodesOf(chains)
    }

    ghost predicate Shaped()
      reads this
    {
      size > 0 && table.Length == size == |chains|
    }

    /** The chains are linked lists without a node in common, and a free head has none. */
    ghost predicate Valid()
      reads this, table, Nodes()
    {
      Shaped() && NoSharing(chains) && forall id :: 0 <= id < size ==> LinkedAt(id)
    }

    ghost predicate LinkedAt(id: nat)
      requires Shaped() && id < size
      reads this, table, Nodes()
    {
      assert forall i :: 0 <= i < |chains[id]| ==> chains[id][i] in Nodes();
      Linked(table[id].next, chains[id]) && (table[id].isFree ==> chains[id] == [])
    }

    ghost predicate LinkedExcept(id: nat)
      reads this, table, Nodes()
    {
      Shaped() && forall k :: 0 <= k < size && k != id ==> LinkedAt(k)
    }

    /** The pairs stored, bucket by bucket. */
    ghost function Buckets(): (b: seq<Bucket<K, V>>)
      requires Shaped()
      reads this, table, Nodes()
      ensures |b| == size
    {
      seq(size, id requires 0 <= id < size && Shaped() reads this, table, Nodes() => BucketAt(id))
    }

    ghost function BucketAt(id: nat): Bucket<K, V>
      requires Shaped() && id < size
      reads this, table, Nodes()
    {
      assert forall i :: 0 <= i < |chains[id]| ==> chains[id][i] in Nodes();
      CellPairs(table[id], chains[id])
    }

    constructor (size: nat, hashFunc: K -> nat)
      requires size > 0
      ensures Valid() && fresh(table) && Nodes() == {} && this.size == size && this.hashFunc == hashFunc
      ensures Buckets() == seq(size, _ => [])
    {
      this.size, this.hashFunc := size, hashFunc;
      table := new FirstEntry<K, V>[size];
      chains := seq(size, _ => []);
      new;
      for i := 0 to size
        invariant chains == seq(size, _ => []) && table.Length == size && fresh(table)
        invariant this.size == size && this.hashFunc == hashFunc
        invariant forall id :: 0 <= id < i ==> table[id].next == null && table[id].isFree
      {
        table[i] := table[i].(next := null, isFree := true);
      }
    }

    /** The loop of lines 101-109, 127-131 and 175-179: the first chain entry with the key, and the one before. */
    method Search(id: nat, key: K) returns (prev: Entry?<K, V>, entry: Entry?<K, V>, ghost p: nat)
      requires Valid() && id < size
      ensures p == Place(Pairs(chains[id]), key)
      ensures entry == var q := Place(Pairs(chains[id]), key); if q < |chains[id]| then chains[id][q] else null
      ensures prev == var q := Place(Pairs(chains[id]), key); if q > 0 then chains[id][q - 1] else null
    {
      ghost var chain := chains[id];
      assert LinkedAt(id) && Linked(table[id].next, chain);
      assert table[id].next == if chain == [] then null else chain[0];
      hide NoSharing, LinkedAt, Nexts, Links, NodesOf;
      prev, entry, p := null, table[id].next, 0;
      while entry != null && entry.key != key
        invariant p <= |chain| && Linked(table[id].next, chain)
        invariant entry == if p < |chain| then chain[p] else null
        invariant prev == if p > 0 then chain[p - 1] else null
        invariant forall i :: 0 <= i < p ==> chain[i].key != key
        decreases |chain| - p
      {
        NextInChain(table[id].next, chain, p);
        prev := entry;
        entry := entry.next;
        p := p + 1;
      }
      PlaceIs(Pairs(chain), key, p);
    }

    method Find(key: K) returns (value: Option<V>)
      requires Valid()
      ensures value == Lookup(Buckets()[BucketOf(Buckets(), hashFunc, key)], key)
    {
      var id := hashFunc(key) % size;
      assert Buckets()[id] == BucketAt(id);
      if table[id].isFree {
        return None;
      } else if table[id].key == key {
        return Some(table[id].value);
      }
      var _, entry, p := Search(id, key);
      hide NoSharing, LinkedAt, Nexts;
      PlaceBehindHead((table[id].key, table[id].value), Pairs(chains[id]), key);
      value := if entry != null then Some(entry.value) else None;
    }

    method Insert(key: K, value: V)
      requires Valid()
      modifies this, table, Nodes()
      ensures Valid() && fresh(Nodes() - old(Nodes()))
      ensures Buckets() == AfterInsert(old(Buckets()), hashFunc, key, value)
    {
      hide NoSharing, LinkedAt;
      var id := hashFunc(key) % size;
      if table[id].isFree {
        FillHead(id, key, value);
      } else {
        InsertIntoChain(id, key, value);
      }
    }

    method FillHead(id: nat, key: K, value: V)
      requires Valid() && id < size && table[id].isFree
      modifies table
      ensures Valid() && Buckets() == old(Buckets())[id := [(key, value)]] && old(Buckets()[id]) == []
    {
      assert LinkedAt(id) && Buckets()[id] == [];
      table[id] := table[id].(isFree := false, key := key, value := value);
      KeepOthers(id);
      assert Buckets()[id] == [(key, value)] + Pairs(chains[id]) == [(key, value)];
    }

    /** What touches neither the cell nor the nodes of a bucket leaves the bucket alone. */
    twostate lemma KeepOthers(id: nat)
      requires old(Shaped()) && old(LinkedExcept(id)) && Shaped() && id < size
          && chains == old(chains)[id := chains[id]]
      requires forall k :: 0 <= k < size && k != id ==>
          table[k] == old(table[k]) && forall e :: e in chains[k] ==> e.next == old(e.next) && e.value == old(e.value)
      ensures LinkedExcept(id) && Buckets() == old(Buckets())[id := Buckets()[id]]
    {
      forall k | 0 <= k < size && k != id
        ensures LinkedAt(k) && BucketAt(k) == old(BucketAt(k))
      {
        assert old(LinkedAt(k));
        assert Nexts(chains[k]) == old(Nexts(chains[k])) && Pairs(chains[k]) == old(Pairs(chains[k]));
      }
    }

    /** Lines 125-149: the key is searched in the chain only. */
    method InsertIntoChain(id: nat, key: K, value: V)
      requires Valid() && id < size && !table[id].isFree
      modifies this, table, Nodes()
      ensures Valid() && fresh(Nodes() - old(Nodes()))
      ensures Buckets() == old(Buckets())[id := Inserted(old(Buckets()[id]), key, value)]
    {
      hide NoSharing, LinkedAt;
      var prev, entry, p := Search(id, key);
      assert Buckets()[id] == [(table[id].key, table[id].value)] + Pairs(chains[id]);
      assert Buckets()[id][1..] == Pairs(chains[id]);
      if entry != null {
        UpdateEntry(id, entry, p, value);
      } else {
        AppendEntry(id, prev, key, value);
      }
    }

    method UpdateEntry(id: nat, entry: Entry<K, V>, ghost p: nat, value: V)
      requires Valid() && id < size && !table[id].isFree && p < |chains[id]| && entry == chains[id][p]
      modifies entry
      ensures Valid() && chains == old(chains)
      ensures Buckets() == old(Buckets())[id := old(Buckets()[id])[1 + p := (entry.key, value)]]
    {
      assert LinkedAt(id);
      NodeElsewhere(chains, id, p);
      hide NoSharing;
      entry.value := value;
      KeepOthers(id);
      assert Nexts(chains[id]) == old(Nexts(chains[id]));
      assert Pairs(chains[id]) == old(Pairs(chains[id]))[p := (entry.key, value)];
      assert Buckets()[id] == old(Buckets()[id])[1 + p := (entry.key, value)];
    }

    /** Redirects the link behind place q of a chain, or the head cell's for q = -1. */
    method SetNext(id: nat, ghost q: int, prev: Entry?<K, V>, next: Entry?<K, V>)
      requires Valid() && id < size && -1 <= q < |chains[id]| && prev == if q >= 0 then chains[id][q] else null
      modifies table, Nodes()
      ensures table[id] == if q == -1 then old(table[id]).(next := next) else old(table[id])
      ensures Nexts(chains[id]) == if q == -1 then old(Nexts(chains[id])) else old(Nexts(chains[id]))[q := next]
      ensures Pairs(chains[id]) == old(Pairs(chains[id]))
      ensures LinkedExcept(id) && Buckets() == old(Buckets())[id := Buckets()[id]]
    {
      if prev != null {
        NodeElsewhere(chains, id, q);
        prev.next := next;
      } else {
        table[id] := table[id].(next := next);
      }
      hide NoSharing;
      KeepOthers(id);
    }

    method AppendEntry(id: nat, prev: Entry?<K, V>, key: K, value: V)
      requires Valid() && id < size && !table[id].isFree
      requires prev == if |chains[id]| > 0 then chains[id][|chains[id]| - 1] else null
      modifies this, table, Nodes()
      ensures Valid() && fresh(Nodes() - old(Nodes()))
      ensures Buckets() == old(Buckets())[id := old(Buckets()[id]) + [(key, value)]]
    {
      hide NoSharing;
      var entry := new Entry(key, value);
      KeepOthers(id);
      assert old(LinkedAt(id)) && Nexts(chains[id]) == old(Nexts(chains[id]))
          && Pairs(chains[id]) == old(Pairs(chains[id]));
      LinkEntry(id, prev, entry);
    }

    method LinkEntry(id: nat, prev: Entry?<K, V>, entry: Entry<K, V>)
      requires Valid() && id < size && !table[id].isFree && entry.next == null && entry !in Nodes()
      requires prev == if |chains[id]| > 0 then chains[id][|chains[id]| - 1] else null
      modifies this, table, Nodes()
      ensures Valid() && Nodes() <= old(Nodes()) + {entry}
      ensures Buckets() == old(Buckets())[id := old(Buckets()[id]) + [(entry.key, old(entry.value))]]
    {
      ghost var chain, before := chains[id], Buckets();
      ghost var after := before[id] + [(entry.key, entry.value)];
      LinkedChain(id, entry);
      hide NoSharing, Links, Linked, LinkedAt, NodesOf, BucketAt, Buckets, Pairs, Nexts;
      SetNext(id, |chain| - 1, prev, entry);
      UpdateTwice(before, id, Buckets()[id], after);
      PairsAppend(chain, entry);
      SetChain(id, chain + [entry]);
    }

    /** The chain with a new last node, before the links change. */
    lemma LinkedChain(id: nat, entry: Entry<K, V>)
      requires Valid() && id < size && !table[id].isFree && entry.next == null && entry !in Nodes()
      ensures var chain, ns := chains[id], Nexts(chains[id]);
              && (chain == [] ==> Links(entry, chain + [entry], ns + [null]))
              && (chain != [] ==> Links(table[id].next, chain + [entry], ns[|chain| - 1 := entry] + [null]))
              && NoSharing(chains[id := chain + [entry]])
              && NodesOf(chains[id := chain + [entry]]) <= NodesOf(chains) + {entry}
              && Buckets()[id] + [(entry.key, entry.value)]
                  == [(table[id].key, table[id].value)] + (Pairs(chain) + [(entry.key, entry.value)])
    {
      var chain, ns := chains[id], Nexts(chains[id]);
      assert LinkedAt(id);
      NoSharingAppend(chains, id, entry);
      hide NoSharing, Links, NodesOf;
      NodesAppend(chains, id, entry);
      LinksAppend(table[id].next, chain, ns, entry);
      assert chain == [] ==> chain + [entry] == [entry] && ns + [null] == [null];
    }

    /** The ghost chain of one bucket follows a change of the links. */
    ghost method SetChain(id: nat, chain: seq<Entry<K, V>>)
      requires LinkedExcept(id) && id < size && !table[id].isFree
      requires NoSharing(chains[id := chain]) && Links(table[id].next, chain, Nexts(chain))
      modifies this
      ensures Valid() && chains == old(chains)[id := chain]
      ensures Buckets() == old(Buckets())[id := [(table[id].key, table[id].value)] + Pairs(chain)]
    {
      hide NoSharing, Links;
      chains := chains[id := chain];
      KeepOthers(id);
      assert LinkedAt(id);
    }

    method Erase(key: K)
      requires Valid()
      modifies this, table, Nodes()
      ensures Valid() && Nodes() <= old(Nodes())
      ensures Buckets() == AfterErase(old(Buckets()), hashFunc, key)
    {
      hide NoSharing, LinkedAt;
      var id := hashFunc(key) % size;
      if table[id].isFree {
        assert Buckets() == Buckets()[id := []];
        return;
      }
      if table[id].key == key {
        ErasedHead(Buckets()[id], key);
        EraseHead(id);
      } else {
        EraseFromChain(id, key);
      }
    }

    /** Lines 158-171. */
    method EraseHead(id: nat)
      requires Valid() && id < size && !table[id].isFree
      modifies this, table
      ensures Valid() && Nodes() <= old(Nodes())
      ensures Buckets() == old(Buckets())[id := old(Buckets()[id])[1..]] && old(Buckets()[id]) != []
    {
      var entry := table[id].next;
      assert LinkedAt(id);
      if entry != null {
        PromoteFirst(id, entry);
      } else {
        table[id] := table[id].(isFree := true);
        KeepOthers(id);
        assert Buckets()[id] == [];
      }
    }

    /** Lines 162-165: the first chain entry moves into the head cell. */
    method PromoteFirst(id: nat, entry: Entry<K, V>)
      requires Valid() && id < size && !table[id].isFree && chains[id] != [] && entry == chains[id][0]
      modifies this, table
      ensures Valid() && Nodes() <= old(Nodes())
      ensures Buckets() == old(Buckets())[id := old(Buckets()[id])[1..]]
    {
      ghost var chain, before := chains[id], Buckets();
      ghost var after := before[id][1..];
      FirstUnlinked(id);
      FirstPromoted(id);
      hide NoSharing, Links, Linked, LinkedAt, NodesOf, BucketAt, Buckets, Pairs, Nexts;
      MoveToHead(id, entry);
      UpdateTwice(before, id, Buckets()[id], after);
      SetChain(id, chain[1..]);
    }

    method MoveToHead(id: nat, entry: Entry<K, V>)
      requires Valid() && id < size && !table[id].isFree
      modifies table
      ensures LinkedExcept(id) && table[id] == FirstEntry(entry.key, entry.value, entry.next, false)
      ensures Buckets() == old(Buckets())[id := Buckets()[id]]
    {
      hide NoSharing;
      table[id] := table[id].(key := entry.key, value := entry.value, next := entry.next);
      KeepOthers(id);
    }

    /** The chain behind its first node, before the links change. */
    lemma FirstUnlinked(id: nat)
      requires Valid() && id < size && !table[id].isFree && chains[id] != []
      ensures var entry, rest := chains[id][0], chains[id][1..];
              && Links(entry.next, rest, Nexts(rest)) && NoSharing(chains[id := rest])
              && NodesOf(chains[id := rest]) <= NodesOf(chains)
    {
      assert LinkedAt(id);
      LinksTail(table[id].next, chains[id]);
      TailWithout(chains, id);
      hide *;
    }

    lemma FirstPromoted(id: nat)
      requires Shaped() && id < size && !table[id].isFree && chains[id] != []
      ensures Buckets()[id][1..] == [(chains[id][0].key, chains[id][0].value)] + Pairs(chains[id][1..])
    {
      var chain, ps := chains[id], Pairs(chains[id]);
      assert Buckets()[id][1..] == ps;
      assert ps == [(chain[0].key, chain[0].value)] + Pairs(chain[1..]);
    }

    /** Lines 174-191. */
    method EraseFromChain(id: nat, key: K)
      requires Valid() && id < size && !table[id].isFree && table[id].key != key
      modifies this, table, Nodes()
      ensures Valid() && Nodes() <= old(Nodes())
      ensures Buckets() == old(Buckets())[id := Erased(old(Buckets()[id]), key)]
    {
      hide NoSharing, LinkedAt, Nexts;
      assert Buckets()[id] == [(table[id].key, table[id].value)] + Pairs(chains[id]);
      PlaceBehindHead((table[id].key, table[id].value), Pairs(chains[id]), key);
      hide CellPairs, Pairs, BucketAt, Linked;
      var prev, entry, p := Search(id, key);
      if entry != null {
        Unlink(id, prev, entry, p);
      }
    }

    method Unlink(id: nat, prev: Entry?<K, V>, entry: Entry<K, V>, ghost p: nat)
      requires Valid() && id < size && !table[id].isFree && p < |chains[id]| && entry == chains[id][p]
      requires prev == if p > 0 then chains[id][p - 1] else null
      modifies this, table, Nodes()
      ensures Valid() && Nodes() <= old(Nodes())
      ensures Buckets() == old(Buckets())[id := Without(old(Buckets()[id]), 1 + p)]
    {
      ghost var chain, before := chains[id], Buckets();
      ghost var ns, ps, after := Nexts(chain), Pairs(chain), Without(before[id], 1 + p);
      ghost var shorter := Without(chain, p);
      UnlinkedChain(id, p);
      assert entry.next == ns[p];
      hide NoSharing, Links, Linked, LinkedAt, NodesOf, BucketAt, Buckets, Pairs, Nexts, Without;
      SetNext(id, p - 1, prev, entry.next);
      UpdateTwice(before, id, Buckets()[id], after);
      ShorterChain(chain, ns, ps, p, entry.next);
      SetChain(id, shorter);
    }

    /** The links and pairs of a chain without its place p, once the link before it has been redirected. */
    static lemma ShorterChain(chain: seq<Entry<K, V>>, ns: seq<Entry?<K, V>>, ps: Bucket<K, V>, p: nat,
        next: Entry?<K, V>)
      requires p < |chain| == |ns| && Pairs(chain) == ps && Nexts(chain) == if p == 0 then ns else ns[p - 1 := next]
      ensures Pairs(Without(chain, p)) == Without(ps, p)
      ensures Nexts(Without(chain, p)) == Without(if p == 0 then ns else ns[p - 1 := next], p)
    {
      NextsWithout(chain, p);
      PairsWithout(chain, p);
    }

    /** The chain without its place p, before the links change. */
    lemma UnlinkedChain(id: nat, p: nat)
      requires Valid() && id < size && !table[id].isFree && p < |chains[id]|
      ensures var chain, ns, ps := chains[id], Nexts(chains[id]), Pairs(chains[id]);
              var shorter := Without(chain, p);
              && (p == 0 ==> Links(ns[0], shorter, Without(ns, 0)))
              && (p > 0 ==> Links(table[id].next, shorter, Without(ns[p - 1 := ns[p]], p)))
              && NoSharing(chains[id := shorter]) && NodesOf(chains[id := shorter]) <= NodesOf(chains)
              && Without(Buckets()[id], 1 + p)
                  == [(table[id].key, table[id].value)] + Without(ps, p)
    {
      hide NoSharing, Links, NodesOf;
      var chain, ns := chains[id], Nexts(chains[id]);
      assert LinkedAt(id);
      LinksWithout(table[id].next, chain, ns, p);
      NoSharingWithout(chains, id, p);
      NodesWithout(chains, id, p);
      BucketWithout((table[id].key, table[id].value), Pairs(chain), p);
      assert p == 0 ==> Without(chain, 0) == chain[1..] && Without(ns, 0) == ns[1..];
      assert p > 0 ==> ns[p - 1 := ns[p]][p + 1..] == ns[p + 1..];
    }
  }
}
