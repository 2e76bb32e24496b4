/**
 * The chained hash map of hash_map.c and the create_map factory of map.c.
 * The buckets are an array of chains; a chain is modelled as the sequence of
 * its entries from the head, so linking a node in front is `[e] + chain`.
 * Keys are compared with the map's comparator, modelled as key equality; a
 * NULL key is None.
 */
module HashMap {
  import opened Wrappers
  import opened ListSpec
  import HashFunctions

  /** INITIAL_CAPACITY: the least number of buckets a map is created with. */
  const InitialCapacity: int := 20

  datatype Entry<K, D> = Entry(key: Option<K>, data: D)

  /** The data a map holds for a key, or None when it holds none. */
  function Lookup<K(==), D>(m: map<Option<K>, D>, k: Option<K>): (r: Option<D>)
    ensures r.Some? <==> k in m
  {
    if k in m then Some(m[k]) else None
  }

  /** What the walk along a chain finds for k: the data of the first entry with that key. */
  function Find<K(==), D>(chain: seq<Entry<K, D>>, k: Option<K>): Option<D>
  {
    if chain == [] then None
    else if chain[0].key == k then Some(chain[0].data)
    else Find(chain[1..], k)
  }

  ghost predicate DistinctKeys<K, D>(chain: seq<Entry<K, D>>)
  {
    forall i, j :: 0 <= i < j < |chain| ==> chain[i].key != chain[j].key
  }

  /** Position i holds the first entry with key k, so the walk stops there. */
  lemma {:induction false} FindFirst<K, D>(chain: seq<Entry<K, D>>, i: int, k: Option<K>)
    requires 0 <= i < |chain| && chain[i].key == k
    requires forall j :: 0 <= j < i ==> chain[j].key != k
    ensures Find(chain, k) == Some(chain[i].data)
  {
    if i > 0 {
      FindFirst(chain[1..], i - 1, k);
    }
  }

  /** The walk finds nothing exactly when no entry has key k. */
  lemma {:induction false} FindNone<K, D>(chain: seq<Entry<K, D>>, k: Option<K>)
    ensures Find(chain, k) == None <==> forall j :: 0 <= j < |chain| ==> chain[j].key != k
  {
    if chain != [] {
      FindNone(chain[1..], k);
      assert forall j :: 1 <= j < |chain| ==> chain[j] == chain[1..][j - 1];
    }
  }

  /** In a chain of distinct keys, the entry holding k is the one found. */
  lemma FindDistinct<K, D>(chain: seq<Entry<K, D>>, i: int)
    requires DistinctKeys(chain) && 0 <= i < |chain|
    ensures Find(chain, chain[i].key) == Some(chain[i].data)
  {
    FindFirst(chain, i, chain[i].key);
  }

  /** Overwriting the data of entry i changes what is found for its key only. */
  lemma {:induction false} FindOverwrite<K, D>(chain: seq<Entry<K, D>>, i: int, d: D, k: Option<K>)
    requires 0 <= i < |chain|
    requires forall j :: 0 <= j < i ==> chain[j].key != chain[i].key
    ensures Find(chain[i := Entry(chain[i].key, d)], k)
         == if k == chain[i].key then Some(d) else Find(chain, k)
  {
    var e := Entry(chain[i].key, d);
    if i > 0 {
      assert chain[i := e][1..] == chain[1..][i - 1 := e];
      FindOverwrite(chain[1..], i - 1, d, k);
    }
  }

  /** Unlinking entry i of a chain of distinct keys makes its key absent and leaves the others. */
  lemma {:induction false} FindUnlink<K, D>(chain: seq<Entry<K, D>>, i: int, k: Option<K>)
    requires DistinctKeys(chain) && 0 <= i < |chain|
    ensures Find(RemoveAt(chain, i), k) == if k == chain[i].key then None else Find(chain, k)
  {
    if i > 0 {
      assert RemoveAt(chain, i)[1..] == RemoveAt(chain[1..], i - 1);
      FindUnlink(chain[1..], i - 1, k);
    } else {
      assert RemoveAt(chain, i) == chain[1..];
      if k == chain[0].key {
        FindNone(chain[1..], k);
      }
    }
  }

  /** A hash function sends every key to a bucket of any positive capacity. */
  ghost predicate HashInRange<K(!new)>(hash: (Option<K>, int) -> int)
  {
    forall k, c :: c > 0 ==> 0 <= hash(k, c) < c
  }

  /**
   * The chain table invariant: every entry sits in the bucket its key hashes
   * to, no chain holds a key twice, and the walk along bucket hash(k) finds
   * exactly what m holds for k.
   */
  ghost predicate Table<K(!new), D>(a: array<seq<Entry<K, D>>>, hash: (Option<K>, int) -> int, m: map<Option<K>, D>)
    reads a
  {
    a.Length > 0 && HashInRange(hash) &&
    (forall b, j :: 0 <= b < a.Length && 0 <= j < |a[b]| ==> hash(a[b][j].key, a.Length) == b) &&
    (forall b :: 0 <= b < a.Length ==> DistinctKeys(a[b])) &&
    (forall k :: Find(a[hash(k, a.Length)], k) == Lookup(m, k))
  }

  /** The walk along one chain, stopping at the first entry whose key compares equal. */
  method IndexOf<K(==), D>(chain: seq<Entry<K, D>>, k: Option<K>) returns (i: int)
    ensures -1 <= i < |chain|
    ensures i == -1 ==> forall j :: 0 <= j < |chain| ==> chain[j].key != k
    ensures 0 <= i ==> chain[i].key == k && forall j :: 0 <= j < i ==> chain[j].key != k
  {
    i := 0;
    while i < |chain|
      invariant 0 <= i <= |chain|
      invariant forall j :: 0 <= j < i ==> chain[j].key != k
    {
      if chain[i].key == k {
        return;
      }
      i := i + 1;
    }
    i := -1;
  }

  /** Links a new entry in front of its bucket's chain. */
  method Prepend<K(==,!new), D>(a: array<seq<Entry<K, D>>>, hash: (Option<K>, int) -> int, ghost m: map<Option<K>, D>, e: Entry<K, D>)
    requires Table(a, hash, m) && e.key !in m
    modifies a
    ensures Table(a, hash, m[e.key := e.data])
  {
    var b := hash(e.key, a.Length);
    var chain := a[b];
    assert Find(chain, e.key) == None;
    FindNone(chain, e.key);
    a[b] := [e] + chain;
    forall k
      ensures Find(a[hash(k, a.Length)], k) == Lookup(m[e.key := e.data], k)
    {
      if hash(k, a.Length) == b {
        assert ([e] + chain)[1..] == chain;
      }
    }
  }

  /** Overwrites the data of entry i in bucket b, whose key is k. */
  method Overwrite<K(==,!new), D>(a: array<seq<Entry<K, D>>>, hash: (Option<K>, int) -> int, ghost m: map<Option<K>, D>,
                               b: int, i: int, d: D)
    requires Table(a, hash, m) && 0 <= b < a.Length && 0 <= i < |a[b]|
    modifies a
    ensures Table(a, hash, m[old(a[b][i].key) := d])
  {
    var chain := a[b];
    var k0 := chain[i].key;
    a[b] := chain[i := Entry(k0, d)];
    forall k
      ensures Find(a[hash(k, a.Length)], k) == Lookup(m[k0 := d], k)
    {
      if hash(k, a.Length) == b {
        FindOverwrite(chain, i, d, k);
      }
    }
  }

  /** Unlinks entry i of bucket b. */
  method Unlink<K(==,!new), D>(a: array<seq<Entry<K, D>>>, hash: (Option<K>, int) -> int, ghost m: map<Option<K>, D>,
                            b: int, i: int)
    requires Table(a, hash, m) && 0 <= b < a.Length && 0 <= i < |a[b]|
    modifies a
    ensures Table(a, hash, m - {old(a[b][i].key)})
  {
    var chain := a[b];
    var k0 := chain[i].key;
    a[b] := RemoveAt(chain, i);
    forall k
      ensures Find(a[hash(k, a.Length)], k) == Lookup(m - {k0}, k)
    {
      if hash(k, a.Length) == b {
        FindUnlink(chain, i, k);
      }
    }
  }

  /** bernstein_hash on the bytes a key points to, the hash used when none is given. */
  function DefaultHash<K>(bytes: K -> seq<bv8>): (Option<K>, int) -> int
  {
    (k: Option<K>, c: int) =>
      if c > 0 then HashFunctions.BernsteinHash(if k.None? then None else Some(bytes(k.value)), c) else 0
  }

  /** Each entry of bucket i holds its key's data in m, and every key of m hashing to i has an entry there. */
  lemma TableBucket<K(!new), D>(a: array<seq<Entry<K, D>>>, hash: (Option<K>, int) -> int, m: map<Option<K>, D>, i: int)
    requires Table(a, hash, m) && 0 <= i < a.Length
    ensures forall t :: 0 <= t < |a[i]| ==>
      hash(a[i][t].key, a.Length) == i && a[i][t].key in m && m[a[i][t].key] == a[i][t].data
    ensures forall k :: k in m && hash(k, a.Length) == i ==> exists t :: 0 <= t < |a[i]| && a[i][t].key == k
  {
    forall t | 0 <= t < |a[i]|
      ensures a[i][t].key in m && m[a[i][t].key] == a[i][t].data
    {
      FindDistinct(a[i], t);
      assert Find(a[hash(a[i][t].key, a.Length)], a[i][t].key) == Lookup(m, a[i][t].key);
    }
    forall k | k in m && hash(k, a.Length) == i
      ensures exists t :: 0 <= t < |a[i]| && a[i][t].key == k
    {
      assert Find(a[hash(k, a.Length)], k) == Lookup(m, k);
      FindNone(a[i], k);
    }
  }

  /**
   * The inner loop of resize_and_rehash: links every entry of one old chain
   * (whose keys are distinct and not yet placed) in front of its bucket in
   * the new table.
   */
  method MoveChain<K(==,!new), D>(a: array<seq<Entry<K, D>>>, hash: (Option<K>, int) -> int,
                                 ghost placed: map<Option<K>, D>, chain: seq<Entry<K, D>>)
    returns (ghost placed': map<Option<K>, D>)
    requires Table(a, hash, placed) && DistinctKeys(chain)
    requires forall t :: 0 <= t < |chain| ==> chain[t].key !in placed
    modifies a
    ensures Table(a, hash, placed')
    ensures forall k :: k in placed' <==> k in placed || exists t :: 0 <= t < |chain| && chain[t].key == k
    ensures forall k :: k in placed ==> placed'[k] == placed[k]
    ensures forall t :: 0 <= t < |chain| ==> placed'[chain[t].key] == chain[t].data
  {
    placed' := placed;
    var j := 0;
    while j < |chain|
      invariant 0 <= j <= |chain|
      invariant Table(a, hash, placed')
      invariant forall k :: k in placed' <==> k in placed || exists t :: 0 <= t < j && chain[t].key == k
      invariant forall k :: k in placed ==> placed'[k] == placed[k]
      invariant forall t :: 0 <= t < j ==> placed'[chain[t].key] == chain[t].data
    {
      var e := chain[j];
      Prepend(a, hash, placed', e);
      placed' := placed'[e.key := e.data];
      j := j + 1;
    }
  }

  /** After moving old bucket i, exactly the keys of m hashing below i + 1 are placed, with their data. */
  lemma PlacedStep<K(!new), D>(m: map<Option<K>, D>, hash: (Option<K>, int) -> int, capacity: int, i: int,
                               chain: seq<Entry<K, D>>, before: map<Option<K>, D>, after: map<Option<K>, D>)
    requires forall t :: 0 <= t < |chain| ==>
      hash(chain[t].key, capacity) == i && chain[t].key in m && m[chain[t].key] == chain[t].data
    requires forall k :: k in m && hash(k, capacity) == i ==> exists t :: 0 <= t < |chain| && chain[t].key == k
    requires forall k :: k in before <==> k in m && hash(k, capacity) < i
    requires forall k :: k in before ==> before[k] == m[k]
    requires forall k :: k in after <==> k in before || exists t :: 0 <= t < |chain| && chain[t].key == k
    requires forall k :: k in before ==> after[k] == before[k]
    requires forall t :: 0 <= t < |chain| ==> after[chain[t].key] == chain[t].data
    ensures forall k :: k in after <==> k in m && hash(k, capacity) < i + 1
    ensures forall k :: k in after ==> after[k] == m[k]
  {
  }

  /**
   * The loops of resize_and_rehash: a new table of newCapacity empty buckets,
   * filled old chain by old chain.
   */
  method Redistribute<K(==,!new), D>(buckets: array<seq<Entry<K, D>>>, hash: (Option<K>, int) -> int,
                                    ghost m: map<Option<K>, D>, newCapacity: int)
    returns (newBuckets: array<seq<Entry<K, D>>>)
    requires Table(buckets, hash, m) && newCapacity > 0
    ensures fresh(newBuckets) && newBuckets.Length == newCapacity
    ensures Table(newBuckets, hash, m)
  {
    newBuckets := new seq<Entry<K, D>>[newCapacity](_ => []);
    ghost var placed: map<Option<K>, D> := map[];
    var i := 0;
    while i < buckets.Length
      invariant 0 <= i <= buckets.Length
      invariant Table(newBuckets, hash, placed)
      invariant forall k :: k in placed <==> k in m && hash(k, buckets.Length) < i
      invariant forall k :: k in placed ==> placed[k] == m[k]
    {
      TableBucket(buckets, hash, m, i);
      ghost var before := placed;
      placed := MoveChain(newBuckets, hash, placed, buckets[i]);
      PlacedStep(m, hash, buckets.Length, i, buckets[i], before, placed);
      i := i + 1;
    }
    assert placed == m;
  }

  /** The default hash sends every key into range, and NULL to bucket 0. */
  lemma DefaultHashInRange<K(!new)>(bytes: K -> seq<bv8>)
    ensures HashInRange(DefaultHash(bytes))
    ensures forall c :: c > 0 ==> DefaultHash(bytes)(None, c) == 0
  {
    var h := DefaultHash(bytes);
    forall k, c | c > 0
      ensures 0 <= h(k, c) < c
    {
      var key := if k.None? then None else Some(bytes(k.value));
      assert h(k, c) == HashFunctions.BernsteinHash(key, c);
    }
    forall c | c > 0
      ensures h(None, c) == 0
    {
      assert h(None, c) == HashFunctions.BernsteinHash(None, c);
    }
  }

  /**
   * The map. Contents is what the map holds for each key; Valid ties it to
   * the buckets through the chain table invariant and to size.
   */
  class HashMap<K(==,!new), D> {
    var buckets: array<seq<Entry<K, D>>>
    var capacity: int
    var size: int
    const hash: (Option<K>, int) -> int
    /** Whether the map was created with a lock (create_map's HASH_TABLE). */
    const threadSafe: bool
    ghost var Contents: map<Option<K>, D>
    ghost var Repr: set<object>

    ghost predicate Valid()
      reads this, Repr
    {
      Repr == {this, buckets} &&
      capacity == buckets.Length && capacity >= InitialCapacity &&
      Table(buckets, hash, Contents) &&
      size == |Contents|
    }

    /**
     * create_hash_map: a capacity below 20 is raised to 20, all buckets are
     * empty, and a missing hash function defaults to bernstein_hash.
     */
    constructor (requested: int, hashFunc: Option<(Option<K>, int) -> int>, bytes: K -> seq<bv8>, threadSafe: bool)
      requires hashFunc.Some? ==> HashInRange(hashFunc.value)
      ensures Valid() && fresh(Repr) && Contents == map[]
      ensures capacity == if requested < InitialCapacity then InitialCapacity else requested
      ensures hash == if hashFunc.Some? then hashFunc.value else DefaultHash(bytes)
      ensures this.threadSafe == threadSafe
    {
      var cap := if requested < InitialCapacity then InitialCapacity else requested;
      buckets := new seq<Entry<K, D>>[cap](_ => []);
      capacity := cap;
      size := 0;
      if hashFunc.Some? {
        hash := hashFunc.value;
      } else {
        hash := DefaultHash(bytes);
        DefaultHashInRange(bytes);
      }
      this.threadSafe := threadSafe;
      Contents := map[];
      Repr := {this, buckets};
    }

    /**
     * resize_and_rehash: doubles the capacity and relinks every entry, one
     * chain after another, in front of bucket hash(key, new capacity).
     */
    method Rehash()
      requires Valid()
      modifies Repr
      ensures Valid() && fresh(Repr - old(Repr))
      ensures Contents == old(Contents) && capacity == 2 * old(capacity)
    {
      var newBuckets := Redistribute(buckets, hash, Contents, capacity * 2);
      buckets := newBuckets;
      capacity := capacity * 2;
      Repr := {this, buckets};
    }

    /**
     * hash_insert: rehash first when size/capacity exceeds 0.75, then
     * overwrite the data of an entry with the same key, or link a new entry
     * in front of the chain and count it.
     */
    method Put(key: Option<K>, data: D)
      requires Valid()
      modifies Repr
      ensures Valid() && fresh(Repr - old(Repr))
      ensures Contents == old(Contents)[key := data]
      ensures capacity == if 4 * old(size) > 3 * old(capacity) then 2 * old(capacity) else old(capacity)
    {
      if 4 * size > 3 * capacity {
        Rehash();
      }
      var index := hash(key, capacity);
      var i := IndexOf(buckets[index], key);
      if i >= 0 {
        FindFirst(buckets[index], i, key);
        Overwrite(buckets, hash, Contents, index, i, data);
      } else {
        FindNone(buckets[index], key);
        Prepend(buckets, hash, Contents, Entry(key, data));
        size := size + 1;
      }
      Contents := Contents[key := data];
    }

    /**
     * hash_get: walks bucket 0 for a NULL key and bucket hash(key) otherwise,
     * so a NULL key is found only when the hash function sends NULL to 0.
     */
    method Get(key: Option<K>) returns (r: Option<D>)
      requires Valid()
      ensures r == if key.None? && hash(None, capacity) != 0 then None else Lookup(Contents, key)
    {
      var index := if key.None? then 0 else hash(key, capacity);
      var chain := buckets[index];
      var i := IndexOf(chain, key);
      if i < 0 {
        FindNone(chain, key);
        r := None;
      } else {
        FindFirst(chain, i, key);
        r := Some(chain[i].data);
      }
    }

    /** hash_remove: unlinks the entry with the key and returns its data, or NULL when there is none. */
    method Remove(key: Option<K>) returns (r: Option<D>)
      requires Valid()
      modifies Repr
      ensures Valid() && Repr == old(Repr)
      ensures r == Lookup(old(Contents), key)
      ensures Contents == old(Contents) - {key}
    {
      var index := hash(key, capacity);
      var i := IndexOf(buckets[index], key);
      if i < 0 {
        FindNone(buckets[index], key);
        assert Contents - {key} == Contents;
        return None;
      }
      FindFirst(buckets[index], i, key);
      r := Some(buckets[index][i].data);
      Unlink(buckets, hash, Contents, index, i);
      Contents := Contents - {key};
      size := size - 1;
    }

    /** The size field: the number of keys held. */
    method Size() returns (n: int)
      requires Valid()
      ensures n == |Contents|
    {
      n := size;
    }
  }

  /** map_type: HASH_TABLE is 0, HASH_MAP is 1. */
  const HashTableType: int := 0
  const HashMapType: int := 1

  /** create_map: a locked map for HASH_TABLE, an unlocked one for HASH_MAP, NULL for any other type. */
  method CreateMap<K(==,!new), D>(mapType: int, capacity: int, hashFunc: Option<(Option<K>, int) -> int>, bytes: K -> seq<bv8>)
    returns (m: HashMap?<K, D>)
    requires hashFunc.Some? ==> HashInRange(hashFunc.value)
    ensures m != null <==> mapType == HashTableType || mapType == HashMapType
    ensures m != null ==> m.Valid() && m.Contents == map[] && m.threadSafe == (mapType == HashTableType)
  {
    if mapType == HashMapType {
      m := new HashMap(capacity, hashFunc, bytes, false);
    } else if mapType == HashTableType {
      m := new HashMap(capacity, hashFunc, bytes, true);
    } else {
      m := null;
    }
  }
}

/** Scenarios from the map's tests, stated for every key representation. */
module HashMapExamples {
  import opened Wrappers
  import opened HashMap

  /** A NULL key stored under the default hash is found again (test_null_key_insertion). */
  method NullKeyRoundTrip(bytes: int -> seq<bv8>) returns (r: Option<int>)
    ensures r == Some(7)
  {
    var m := new HashMap<int, int>(10, None, bytes, false);
    DefaultHashInRange(bytes);
    m.Put(None, 7);
    r := m.Get(None);
  }

  /** A second put under the same key replaces the data and keeps one entry (test_handling_of_duplicate_keys). */
  method DuplicateKeyKeepsLast(bytes: int -> seq<bv8>) returns (r: Option<int>, n: int)
    ensures r == Some(2) && n == 1
  {
    var m := new HashMap<int, int>(10, None, bytes, false);
    m.Put(Some(5), 1);
    m.Put(Some(5), 2);
    r := m.Get(Some(5));
    n := m.Size();
  }

  /** A removed key is no longer found (test_remove_item). */
  method RemovedKeyIsGone(bytes: int -> seq<bv8>) returns (removed: Option<int>, r: Option<int>)
    ensures removed == Some(3) && r == None
  {
    var m := new HashMap<int, int>(10, None, bytes, false);
    m.Put(Some(1), 3);
    removed := m.Remove(Some(1));
    r := m.Get(Some(1));
  }

  /** Putting and removing the same key any number of times leaves the map empty (test_with_high_volume). */
  method PutRemoveCycles(bytes: int -> seq<bv8>, rounds: nat) returns (n: int)
    ensures n == 0
  {
    var m := new HashMap<int, int>(10, None, bytes, false);
    var i := 0;
    while i < rounds
      invariant m.Valid() && fresh(m.Repr) && m.Contents == map[]
    {
      m.Put(Some(0), 1);
      var _ := m.Remove(Some(0));
      i := i + 1;
    }
    n := m.Size();
  }

  /** Fifteen distinct keys give size fifteen, each found right after its put (test_insert_retrieve_large_number_of_items). */
  method FifteenKeys(bytes: int -> seq<bv8>) returns (n: int)
    ensures n == 15
  {
    var m := new HashMap<int, int>(20, None, bytes, false);
    var i := 0;
    while i < 15
      invariant 0 <= i <= 15
      invariant m.Valid() && fresh(m.Repr)
      invariant forall k :: k in m.Contents ==> k.Some? && 0 <= k.value < i
      invariant |m.Contents| == i
    {
      m.Put(Some(i), 100 + i);
      var r := m.Get(Some(i));
      assert r == Some(100 + i);
      i := i + 1;
    }
    n := m.Size();
  }
}
