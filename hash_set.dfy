/**
 * hash_set.c: a set kept as the keys of a chained hash map (HASH_MAP kind,
 * no lock). Every element is stored with the same non-NULL data pointer, the
 * address of hash_set_marker, so a lookup that finds data means the element
 * is present. Elements are pointers, modelled as integers; NULL is None.
 */
module HashSets {
  import opened Wrappers
  import opened ListSpec
  import HashMap

  /** The address of hash_set_marker, the data stored for every element. */
  datatype Marker = Marker

  /** The map keys that stand for a set of elements. */
  ghost function Keys<X>(s: set<X>): set<Option<X>>
  {
    set e | e in s :: Some(e)
  }

  /** Each element gives its own key, so the map holds as many keys as the set has elements. */
  lemma {:induction false} KeysCount<X>(s: set<X>)
    ensures |Keys(s)| == |s|
    decreases s
  {
    if s != {} {
      var x :| x in s;
      var rest := s - {x};
      KeysCount(rest);
      assert Keys(s) == Keys(rest) + {Some(x)};
    }
  }

  /** Membership in Keys, and how adding or removing one element changes them. */
  lemma KeysFacts<X>(s: set<X>, x: X)
    ensures None !in Keys(s) && (forall y :: Some(y) in Keys(s) <==> y in s)
    ensures Keys(s + {x}) == Keys(s) + {Some(x)}
    ensures Keys(s - {x}) == Keys(s) - {Some(x)}
  {
  }

  /**
   * The inner loop of hash_set_to_list: the keys along one chain, appended
   * in chain order. The chain's keys are distinct, non-NULL and new to r.
   */
  method AppendChain(r: seq<int>, chain: seq<HashMap.Entry<int, Marker>>) returns (r': seq<int>)
    requires Distinct(r) && HashMap.DistinctKeys(chain)
    requires forall t :: 0 <= t < |chain| ==> chain[t].key.Some? && chain[t].key.value !in r
    ensures Distinct(r')
    ensures forall x :: x in r' <==> x in r || exists t :: 0 <= t < |chain| && chain[t].key == Some(x)
  {
    r' := r;
    var j := 0;
    while j < |chain|
      invariant 0 <= j <= |chain|
      invariant Distinct(r')
      invariant forall x :: x in r' <==> x in r || exists t :: 0 <= t < j && chain[t].key == Some(x)
    {
      var x := chain[j].key.value;
      assert x !in r' by {
        forall t | 0 <= t < j ensures chain[t].key != Some(x) {
          assert chain[t].key != chain[j].key;
        }
      }
      DistinctAppend(r', x);
      r' := r' + [x];
      j := j + 1;
    }
  }

  /**
   * The outer loop of hash_set_to_list: the chains of buckets 0, 1, ... in
   * turn. Since every key sits in the bucket it hashes to, once bucket i is
   * walked r holds exactly the keys hashing below i + 1.
   */
  method CollectKeys(a: array<seq<HashMap.Entry<int, Marker>>>, h: (Option<int>, int) -> int,
                     ghost c: map<Option<int>, Marker>) returns (r: seq<int>)
    requires HashMap.Table(a, h, c) && None !in c
    ensures Distinct(r)
    ensures forall x :: x in r <==> Some(x) in c
  {
    r := [];
    var i := 0;
    while i < a.Length
      invariant 0 <= i <= a.Length
      invariant Distinct(r)
      invariant forall x :: x in r <==> Some(x) in c && h(Some(x), a.Length) < i
    {
      HashMap.TableBucket(a, h, c, i);
      forall t | 0 <= t < |a[i]|
        ensures a[i][t].key.Some? && a[i][t].key.value !in r
      {
        var k := a[i][t].key;
        assert k in c && h(k, a.Length) == i;
        var v := k.value;
        assert k == Some(v);
        assert h(Some(v), a.Length) == i;
        assert v !in r;
      }
      r := AppendChain(r, a[i]);
      forall x | Some(x) in c && h(Some(x), a.Length) == i
        ensures x in r
      {
        var t :| 0 <= t < |a[i]| && a[i][t].key == Some(x);
      }
      i := i + 1;
    }
  }

  class HashSet {
    const m: HashMap.HashMap<int, Marker>
    ghost var Elements: set<int>
    ghost var Repr: set<object>

    /** The map's keys are exactly the elements, and NULL is never a key. */
    ghost predicate Valid()
      reads this, Repr
    {
      this in Repr && m in Repr && Repr == {this} + m.Repr && this !in m.Repr &&
      m.Valid() && m.Contents.Keys == Keys(Elements)
    }

    /**
     * hash_set_create_impl: an empty set over a new unlocked map of the
     * requested capacity hashing with hash.
     */
    constructor (capacity: int, hash: (Option<int>, int) -> int)
      requires HashMap.HashInRange(hash)
      ensures Valid() && fresh(Repr) && Elements == {}
      ensures m.hash == hash && !m.threadSafe
      ensures m.capacity == if capacity < HashMap.InitialCapacity then HashMap.InitialCapacity else capacity
    {
      m := new HashMap.HashMap(capacity, Some(hash), _ => [], false);
      Elements := {};
      new;
      Repr := {this} + m.Repr;
    }

    /**
     * hash_set_add: false for NULL and for an element already present;
     * otherwise the element is put with the marker and the answer is whether
     * the map grew, which it always does.
     */
    method Add(e: Option<int>) returns (r: bool)
      requires Valid()
      modifies Repr
      ensures Valid() && fresh(Repr - old(Repr))
      ensures r <==> e.Some? && e.value !in old(Elements)
      ensures Elements == if e.Some? then old(Elements) + {e.value} else old(Elements)
    {
      if e.None? {
        return false;
      }
      KeysFacts(Elements, e.value);
      var found := m.Get(e);
      if found.Some? {
        return false;
      }
      var before := m.Size();
      m.Put(e, Marker);
      var after := m.Size();
      r := after > before;
      Elements := Elements + {e.value};
      Repr := {this} + m.Repr;
    }

    /** hash_set_contains: whether a non-NULL element is present. */
    method Contains(e: Option<int>) returns (r: bool)
      requires Valid()
      ensures r <==> e.Some? && e.value in Elements
    {
      if e.None? {
        return false;
      }
      KeysFacts(Elements, e.value);
      var found := m.Get(e);
      r := found.Some?;
    }

    /** hash_set_remove: the map's removal, true when it found the element. */
    method Remove(e: Option<int>) returns (r: bool)
      requires Valid()
      modifies Repr
      ensures Valid() && Repr == old(Repr)
      ensures r <==> e.Some? && e.value in old(Elements)
      ensures Elements == if e.Some? then old(Elements) - {e.value} else old(Elements)
    {
      if e.None? {
        return false;
      }
      KeysFacts(Elements, e.value);
      var found := m.Remove(e);
      r := found.Some?;
      Elements := Elements - {e.value};
    }

    /** hash_set_size: the map's size, which is the number of elements. */
    method Size() returns (n: int)
      requires Valid()
      ensures n == |Elements|
    {
      n := m.Size();
      KeysCount(Elements);
    }

    /**
     * hash_set_to_list: the keys of every chain, bucket after bucket; every
     * element once and nothing else.
     */
    method ToList() returns (r: seq<int>)
      requires Valid()
      ensures Distinct(r) && |r| == |Elements|
      ensures forall x :: x in r <==> x in Elements
    {
      KeysFacts(Elements, 0);
      assert forall k :: k in m.Contents <==> k in Keys(Elements);
      r := CollectKeys(m.buckets, m.hash, m.Contents);
      DistinctCount(r);
      forall x ensures x in r <==> x in Elements {
        assert Some(x) in m.Contents <==> Some(x) in Keys(Elements);
      }
      assert (set x | x in r) == Elements;
    }
  }
}
