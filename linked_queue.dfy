/**
 * The linked FIFO queue: singly linked entries from front to rear with a
 * length counter. The ghost sequence `entries` lists the entries from front
 * to rear and `Contents` their data, the oldest item first.
 */
module LinkedQueue {
  import opened Wrappers

  class Entry<T> {
    var data: T
    var next: Entry?<T>

    constructor (d: T)
      ensures data == d && next == null
    {
      data := d;
      next := null;
    }
  }

  class LinkedQueue<T> {
    var front: Entry?<T>
    var rear: Entry?<T>
    var length: int
    ghost var entries: seq<Entry<T>>
    ghost var Contents: seq<T>
    ghost var Repr: set<object>

    ghost predicate Valid()
      reads this, Repr
    {
      this in Repr &&
      (forall i :: 0 <= i < |entries| ==> entries[i] in Repr) &&
      length == |entries| == |Contents| &&
      (forall i, j :: 0 <= i < j < |entries| ==> entries[i] != entries[j]) &&
      front == (if entries == [] then null else entries[0]) &&
      rear == (if entries == [] then null else entries[|entries| - 1]) &&
      (forall i :: 0 <= i < |entries| ==> entries[i].data == Contents[i]) &&
      (forall i :: 0 <= i < |entries| - 1 ==> entries[i].next == entries[i + 1]) &&
      (rear != null ==> rear.next == null)
    }

    /** create_linked_queue: no heap, then linked_initialize. */
    constructor ()
      ensures Valid() && fresh(Repr) && Contents == []
    {
      front, rear, length := null, null, 0;
      entries, Contents := [], [];
      Repr := {this};
    }

    /** linked_initialize: front and rear become NULL and length 0, whatever the queue held. */
    method Initialize()
      requires Valid()
      modifies this
      ensures Valid() && Repr == old(Repr) && Contents == []
      ensures front == null && rear == null && length == 0
    {
      front, rear, length := null, null, 0;
      entries, Contents := [], [];
    }

    /** linked_enqueue: a new entry becomes the rear (and the front of an empty queue); returns 1. */
    method Enqueue(item: T) returns (ok: int)
      requires Valid()
      modifies Repr
      ensures Valid() && fresh(Repr - old(Repr))
      ensures Contents == old(Contents) + [item] && ok == 1
    {
      var e := new Entry(item);
      if rear != null {
        rear.next := e;
      }
      rear := e;
      if front == null {
        front := e;
      }
      length := length + 1;
      entries := entries + [e];
      Contents := Contents + [item];
      Repr := Repr + {e};
      return 1;
    }

    /** linked_dequeue: NULL on an empty queue; otherwise unlinks and returns the front item. */
    method Dequeue() returns (r: Option<T>)
      requires Valid()
      modifies this
      ensures Valid() && Repr == old(Repr)
      ensures old(Contents) == [] ==> r == None && Contents == []
      ensures old(Contents) != [] ==> r == Some(old(Contents)[0]) && Contents == old(Contents)[1..]
    {
      if front == null {
        return None;
      }
      var data := front.data;
      front := front.next;
      if front == null {
        rear := null;
      }
      length := length - 1;
      entries := entries[1..];
      Contents := Contents[1..];
      return Some(data);
    }

    /** linked_is_empty: front is NULL. */
    method IsEmpty() returns (b: bool)
      requires Valid()
      ensures b <==> Contents == []
      ensures b <==> rear == null
    {
      return front == null;
    }

    /** linked_size: the length counter. */
    method Size() returns (n: int)
      requires Valid()
      ensures n == |Contents|
    {
      return length;
    }

    /** linked_free: dequeues until empty. */
    method Free()
      requires Valid()
      modifies this
      ensures Valid() && Contents == [] && Repr == old(Repr)
    {
      var empty := IsEmpty();
      while !empty
        invariant Valid() && Repr == old(Repr)
        invariant empty <==> Contents == []
        decreases |Contents|
      {
        var _ := Dequeue();
        empty := IsEmpty();
      }
    }
  }

  /**
   * FIFO order: enqueueing xs into a queue and then dequeueing |xs| times
   * returns xs in the order it went in.
   */
  method EnqueueThenDequeue<T>(q: LinkedQueue<T>, xs: seq<T>) returns (out: seq<T>)
    requires q.Valid() && q.Contents == []
    modifies q.Repr
    ensures q.Valid() && q.Contents == [] && out == xs
  {
    var i := 0;
    while i < |xs|
      invariant 0 <= i <= |xs|
      invariant q.Valid() && fresh(q.Repr - old(q.Repr))
      invariant q.Contents == xs[..i]
    {
      var _ := q.Enqueue(xs[i]);
      assert xs[..i + 1] == xs[..i] + [xs[i]];
      i := i + 1;
    }
    out := [];
    var k := 0;
    while k < |xs|
      invariant 0 <= k <= |xs|
      invariant q.Valid() && fresh(q.Repr - old(q.Repr))
      invariant q.Contents == xs[k..] && out == xs[..k]
    {
      var r := q.Dequeue();
      out := out + [r.value];
      assert xs[..k + 1] == xs[..k] + [xs[k]];
      k := k + 1;
    }
  }
}
