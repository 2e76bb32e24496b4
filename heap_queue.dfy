/**
 * The priority queue: a queue record whose heap is a binary heap created
 * with the caller's capacity and comparator. Its front, rear and length
 * fields belong to the linked variant and are only reset here.
 */
module HeapQueue {
  import opened Wrappers
  import BinaryHeap
  import LinkedQueue

  class HeapQueue<T(0)> {
    var front: LinkedQueue.Entry?<T>
    var rear: LinkedQueue.Entry?<T>
    var length: int
    var heap: BinaryHeap.BinaryHeap?<T>
    ghost var Repr: set<object>

    ghost predicate Valid()
      reads this, Repr
    {
      this in Repr &&
      (heap != null ==> heap in Repr && heap.Repr <= Repr && this !in heap.Repr && heap.Valid())
    }

    /** The queued items; a queue without a heap holds none. */
    ghost function Elements(): multiset<T>
      reads this, Repr
      requires Valid()
    {
      if heap == null then multiset{} else heap.Elements()
    }

    /**
     * create_heap_queue: a binary heap of the requested capacity; a negative
     * capacity makes its allocation fail, which leaves the queue without a
     * heap. Then priority_initialize.
     */
    constructor (capacity: int, key: T -> int)
      ensures Valid() && fresh(Repr) && Elements() == multiset{}
      ensures (heap != null) == (capacity >= 0)
      ensures heap != null ==> heap.key == key && heap.capacity == capacity
      ensures front == null && rear == null && length == 0
    {
      if capacity >= 0 {
        var h := new BinaryHeap.BinaryHeap(capacity, key);
        heap := h;
        Repr := {this} + h.Repr;
      } else {
        heap := null;
        Repr := {this};
      }
      front, rear, length := null, null, 0;
    }

    /** priority_initialize: resets front, rear and length; the heap is left as it is. */
    method Initialize()
      requires Valid()
      modifies this
      ensures Valid() && Repr == old(Repr) && heap == old(heap) && Elements() == old(Elements())
      ensures front == null && rear == null && length == 0
    {
      front, rear, length := null, null, 0;
    }

    /** priority_enqueue: 0 without a heap; otherwise the item goes into the heap and the result is 1. */
    method Enqueue(item: T) returns (ok: int)
      requires Valid()
      modifies Repr
      ensures Valid() && fresh(Repr - old(Repr)) && heap == old(heap)
      ensures ok == (if heap == null then 0 else 1)
      ensures Elements() == if heap == null then old(Elements()) else old(Elements()) + multiset{item}
    {
      if heap == null {
        return 0;
      }
      heap.Put(item);
      Repr := Repr + heap.Repr;
      return 1;
    }

    /** priority_dequeue: NULL when there is no heap or it is empty; otherwise the heap's top item. */
    method Dequeue() returns (r: Option<T>)
      requires Valid()
      modifies Repr
      ensures Valid() && Repr == old(Repr) && heap == old(heap)
      ensures r.None? <==> old(Elements()) == multiset{}
      ensures r.None? ==> Elements() == old(Elements())
      ensures r.Some? ==> r.value in old(Elements()) && Elements() == old(Elements()) - multiset{r.value}
      ensures r.Some? ==> forall y :: y in old(Elements()) ==> heap.key(r.value) >= heap.key(y)
    {
      if heap == null {
        return None;
      }
      var empty := IsEmpty();
      if empty {
        return None;
      }
      r := heap.Pop();
    }

    /** priority_is_empty: a queue without a heap counts as empty, otherwise the heap size is 0. */
    method IsEmpty() returns (b: bool)
      requires Valid()
      ensures b <==> Elements() == multiset{}
    {
      if heap == null {
        return true;
      }
      var n := heap.Size();
      return n == 0;
    }

    /** priority_size: the heap size, 0 without a heap. */
    method Size() returns (n: int)
      requires Valid()
      ensures n == |Elements()|
    {
      if heap == null {
        return 0;
      }
      n := heap.Size();
    }
  }
}
