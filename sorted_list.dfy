/**
 * The sorted list: an array buffer kept in nondecreasing comparator order.
 * Items are ordered by an integer key; the comparator cmp(a, b) is the sign of
 * key(a) - key(b).
 */
module SortedList {
  import opened Wrappers
  import opened ListSpec
  import Memmove

  /** clamp_initial_capacity: a non-positive request becomes 4. */
  function ClampInitialCapacity(requested: int): (c: int)
    ensures c > 0
    ensures requested > 0 ==> c == requested
    ensures requested <= 0 ==> c == 4
  {
    if requested > 0 then requested else 4
  }

  /** The number of items whose key is below k: in a sorted sequence, the first position with key >= k. */
  function LowerBound<T>(s: seq<T>, key: T -> int, k: int): (p: nat)
    ensures p <= |s|
  {
    if s == [] then 0
    else (if key(s[0]) < k then 1 else 0) + LowerBound(s[1..], key, k)
  }

  /** In a sorted sequence the lower bound splits the keys below k from the rest. */
  lemma {:induction false} LowerBoundSplits<T>(s: seq<T>, key: T -> int, k: int)
    requires SortedBy(s, key)
    ensures forall i :: 0 <= i < LowerBound(s, key, k) ==> key(s[i]) < k
    ensures forall i :: LowerBound(s, key, k) <= i < |s| ==> key(s[i]) >= k
  {
    if s != [] {
      assert SortedBy(s[1..], key);
      LowerBoundSplits(s[1..], key, k);
      assert LowerBound(s[1..], key, k) > 0 ==> key(s[1..][0]) < k;
    }
  }

  /** The split point is unique: any position that separates smaller keys from the rest is the lower bound. */
  lemma LowerBoundUnique<T>(s: seq<T>, key: T -> int, k: int, p: int)
    requires SortedBy(s, key) && 0 <= p <= |s|
    requires forall i :: 0 <= i < p ==> key(s[i]) < k
    requires forall i :: p <= i < |s| ==> key(s[i]) >= k
    ensures p == LowerBound(s, key, k)
  {
    LowerBoundSplits(s, key, k);
    var q := LowerBound(s, key, k);
    var m := if p < q then p else q;
    if m < |s| {
      assert (m < p) == (key(s[m]) < k) == (m < q);
    }
  }

  /** Inserting at the lower bound keeps the sequence sorted. */
  lemma InsertAtLowerBoundSorted<T>(s: seq<T>, key: T -> int, x: T)
    requires SortedBy(s, key)
    ensures SortedBy(InsertAt(s, x, LowerBound(s, key, key(x))), key)
  {
    LowerBoundSplits(s, key, key(x));
  }

  /** Removing any item keeps a sorted sequence sorted. */
  lemma RemoveAtSorted<T>(s: seq<T>, key: T -> int, i: int)
    requires SortedBy(s, key) && 0 <= i < |s|
    ensures SortedBy(RemoveAt(s, i), key)
  {
    var r := RemoveAt(s, i);
    forall a, b | 0 <= a < b < |r| ensures key(r[a]) <= key(r[b]) {
      var a' := if a < i then a else a + 1;
      var b' := if b < i then b else b + 1;
      assert r[a] == s[a'] && r[b] == s[b'];
    }
  }

  class SortedList<T(0)> {
    var items: array<T>
    var size: int
    var capacity: int
    const key: T -> int
    ghost var Repr: set<object>

    ghost predicate Valid()
      reads this, Repr
    {
      Repr == {this, items} &&
      capacity == items.Length && 0 < capacity && 0 <= size <= capacity &&
      SortedBy(items[..size], key)
    }

    ghost function Contents(): seq<T>
      reads this, Repr
      requires Valid()
    {
      items[..size]
    }

    /** create_sorted_list with a non-NULL comparator. */
    constructor (initialCapacity: int, key: T -> int)
      ensures Valid() && fresh(Repr) && Contents() == []
      ensures capacity == ClampInitialCapacity(initialCapacity) && this.key == key
    {
      this.key := key;
      capacity := ClampInitialCapacity(initialCapacity);
      items := new T[ClampInitialCapacity(initialCapacity)];
      size := 0;
      Repr := {this, items};
    }

    /** ensure_capacity: a full buffer doubles, keeping its items. */
    method EnsureCapacity()
      requires Valid()
      modifies Repr
      ensures Valid() && fresh(Repr - old(Repr)) && Contents() == old(Contents())
      ensures capacity == if old(size) < old(capacity) then old(capacity) else 2 * old(capacity)
      ensures size < capacity
    {
      if size < capacity {
        return;
      }
      var newCapacity := capacity * 2;
      var newItems := new T[newCapacity];
      var i := 0;
      while i < size
        invariant 0 <= i <= size
        invariant newItems[..i] == items[..i]
        modifies newItems
      {
        newItems[i] := items[i];
        i := i + 1;
      }
      assert newItems[..size] == items[..size];
      items := newItems;
      capacity := newCapacity;
      Repr := {this, items};
    }

    /**
     * find_insert_position: a binary search that moves right only while the
     * item compares greater, so it returns the first position whose item is
     * not smaller (before any equal items).
     */
    method FindInsertPosition(item: T) returns (left: int)
      requires Valid()
      ensures 0 <= left <= |Contents()|
      ensures forall i :: 0 <= i < left ==> key(Contents()[i]) < key(item)
      ensures forall i :: left <= i < |Contents()| ==> key(item) <= key(Contents()[i])
      ensures left == LowerBound(Contents(), key, key(item))
    {
      left := 0;
      var right := size;
      while left < right
        invariant 0 <= left <= right <= size
        invariant forall i :: 0 <= i < left ==> key(items[i]) < key(item)
        invariant forall i :: right <= i < size ==> key(item) <= key(items[i])
      {
        var mid := left + (right - left) / 2;
        if key(item) > key(items[mid]) {
          left := mid + 1;
        } else {
          right := mid;
        }
      }
      LowerBoundUnique(Contents(), key, key(item), left);
    }

    /** sorted_list_insert: the index argument is ignored; the item goes to its lower-bound position. */
    method Insert(item: T, index: int)
      requires Valid()
      modifies Repr
      ensures Valid() && fresh(Repr - old(Repr))
      ensures Contents() == InsertAt(old(Contents()), item, LowerBound(old(Contents()), key, key(item)))
      ensures multiset(Contents()) == multiset(old(Contents())) + multiset{item}
    {
      EnsureCapacity();
      var pos := FindInsertPosition(item);
      ghost var before := items[..size];
      Place(item, pos);
      size := size + 1;
      InsertAtLowerBoundSorted(before, key, item);
      InsertAtMultiset(before, item, pos);
    }

    /** The memmove and store of sorted_list_insert: the items from pos on move up one slot for item. */
    method Place(item: T, pos: int)
      requires 0 <= pos <= size < items.Length
      modifies items
      ensures items[..size + 1] == InsertAt(old(items[..size]), item, pos)
    {
      ghost var before := items[..size];
      Memmove.OpenGap(items, pos, size);
      items[pos] := item;
      assert items[..size + 1] == InsertAt(before, item, pos);
    }

    /** sorted_list_get: the item at index, or NULL outside [0, size). */
    method Get(index: int) returns (r: Option<T>)
      requires Valid()
      ensures r == if 0 <= index < |Contents()| then Some(Contents()[index]) else None
    {
      if index < 0 || index >= size {
        return None;
      }
      return Some(items[index]);
    }

    /** sorted_list_remove: drops the item at index, keeping the rest sorted; out of range changes nothing. */
    method Remove(index: int)
      requires Valid()
      modifies Repr
      ensures Valid() && Repr == old(Repr)
      ensures Contents() == if 0 <= index < |old(Contents())| then RemoveAt(old(Contents()), index)
                            else old(Contents())
    {
      if index < 0 || index >= size {
        return;
      }
      ghost var before := items[..size];
      Memmove.CloseGap(items, index, size);
      size := size - 1;
      assert items[..size] == RemoveAt(before, index);
      RemoveAtSorted(before, key, index);
    }

    /** sorted_list_size. */
    method Size() returns (n: int)
      requires Valid()
      ensures n == |Contents()|
    {
      return size;
    }
  }

  /** create_sorted_list: NULL for a missing comparator. */
  method CreateSortedList<T(0)>(initialCapacity: int, cmp: Option<T -> int>) returns (r: SortedList?<T>)
    ensures cmp.None? <==> r == null
    ensures r != null ==> r.Valid() && fresh(r.Repr) && r.Contents() == [] && r.key == cmp.value
    ensures r != null ==> r.capacity == ClampInitialCapacity(initialCapacity)
  {
    if cmp.None? {
      return null;
    }
    r := new SortedList(initialCapacity, cmp.value);
  }
}
