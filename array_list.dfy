/**
 * The array-backed list: a growable buffer of item slots, a size and a
 * capacity, plus the file-wide count of live item buffers.
 */
module ArrayList {
  import opened Wrappers
  import opened ListSpec
  import Memmove
  import Growth

  /** The file-wide count of allocated item buffers (active_item_buffers). */
  class BufferCounter {
    var active: nat

    constructor ()
      ensures active == 0
    {
      active := 0;
    }
  }

  class ArrayList<T(0)> {
    var items: array<T>
    var size: int
    var capacity: int
    /** True once the list has been freed; no operation may follow. */
    var freed: bool
    /** The items in list order. */
    ghost var Contents: seq<T>
    ghost var Repr: set<object>

    ghost predicate Valid()
      reads this, Repr
    {
      Repr == {this, items} &&
      capacity == items.Length && 0 <= size <= capacity &&
      Contents == items[..size]
    }

    /** create_array_list: an empty list whose buffer holds initialCapacity items. */
    constructor (initialCapacity: int, counter: BufferCounter)
      requires initialCapacity >= 0
      modifies counter
      ensures Valid() && fresh(Repr) && !freed
      ensures Contents == [] && capacity == initialCapacity
      ensures counter.active == old(counter.active) + 1
    {
      items := new T[initialCapacity];
      capacity := initialCapacity;
      size := 0;
      freed := false;
      Contents := [];
      Repr := {this, items};
      new;
      counter.active := counter.active + 1;
    }

    /**
     * ensure_capacity: a full buffer is replaced by one of twice the capacity
     * holding the same items (at least one slot when the capacity was zero).
     */
    method EnsureCapacity()
      requires Valid() && !freed
      modifies Repr
      ensures Valid() && fresh(Repr - old(Repr)) && !freed
      ensures Contents == old(Contents)
      ensures capacity == if old(size) >= old(capacity) then Growth.Doubled(old(capacity)) else old(capacity)
      ensures size < capacity
    {
      if size >= capacity {
        var newCapacity := Growth.Doubled(capacity);
        var newItems := new T[newCapacity];
        var i := 0;
        while i < size
          invariant 0 <= i <= size
          invariant newItems[..i] == items[..i]
          modifies newItems
        {
          newItems[i] := items[i];
          i := i + 1;
        }
        assert newItems[..size] == items[..size];
        items := newItems;
        capacity := newCapacity;
        Repr := {this, items};
      }
    }

    /**
     * array_list_insert: grows a full buffer first, then, for 0 <= index <= size,
     * places item at index and shifts the later items right; any other index
     * changes no item.
     */
    method Insert(item: T, index: int)
      requires Valid() && !freed
      modifies Repr
      ensures Valid() && fresh(Repr - old(Repr)) && !freed
      ensures Contents == if 0 <= index <= |old(Contents)| then InsertAt(old(Contents), item, index)
                            else old(Contents)
    {
      EnsureCapacity();
      if index < 0 || index > size {
        return;
      }
      ghost var before := items[..size];
      Memmove.OpenGap(items, index, size);
      items[index] := item;
      size := size + 1;
      Contents := InsertAt(before, item, index);
      assert items[..size] == Contents;
    }

    /** array_list_get: the item at index, or NULL for an index outside [0, size). */
    method Get(index: int) returns (r: Option<T>)
      requires Valid() && !freed
      ensures r == if 0 <= index < |Contents| then Some(Contents[index]) else None
    {
      if index < 0 || index >= size {
        return None;
      }
      return Some(items[index]);
    }

    /**
     * array_list_remove: for 0 <= index < size drops that item and shifts the
     * later ones left; any other index changes nothing.
     */
    method Remove(index: int)
      requires Valid() && !freed
      modifies Repr
      ensures Valid() && Repr == old(Repr) && !freed
      ensures Contents == if 0 <= index < |old(Contents)| then RemoveAt(old(Contents), index)
                            else old(Contents)
    {
      if index < 0 || index >= size {
        return;
      }
      ghost var before := items[..size];
      Memmove.CloseGap(items, index, size);
      size := size - 1;
      Contents := RemoveAt(before, index);
      assert items[..size] == Contents;
    }

    /** array_list_size: the number of items. */
    method Size() returns (n: int)
      requires Valid() && !freed
      ensures n == |Contents|
    {
      return size;
    }

    /** array_list_free: releases the buffer and takes it off the live-buffer count. */
    method Free(counter: BufferCounter)
      requires Valid() && !freed
      modifies this, counter
      ensures Valid() && freed && Repr == old(Repr)
      ensures counter.active == if old(counter.active) > 0 then old(counter.active) - 1 else 0
    {
      freed := true;
      if counter.active > 0 {
        counter.active := counter.active - 1;
      }
    }
  }

  /** A create followed by a free leaves the live-buffer count where it was. */
  method CreateThenFree<T(0)>(counter: BufferCounter, capacity: int)
    requires capacity >= 0
    modifies counter
    ensures counter.active == old(counter.active)
  {
    var l := new ArrayList<T>(capacity, counter);
    l.Free(counter);
  }
}
