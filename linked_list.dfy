/**
 * The doubly linked list: nodes with next/prev links, head and tail pointers
 * and a size field. The ghost sequence `nodes` lists the nodes from head to
 * tail; Valid() ties every link to it.
 */
module LinkedList {
  import opened Wrappers
  import opened ListSpec

  class Node<T> {
    var data: T
    var next: Node?<T>
    var prev: Node?<T>

    constructor (d: T)
      ensures data == d && next == null && prev == null
    {
      data := d;
      next := null;
      prev := null;
    }
  }

  class LinkedList<T> {
    var head: Node?<T>
    var tail: Node?<T>
    var size: int
    ghost var nodes: seq<Node<T>>
    ghost var Contents: seq<T>
    ghost var Repr: set<object>

    /**
     * head.prev and tail.next are null, next and prev are mutually
     * consistent, no node occurs twice, and size is the node count.
     */
    ghost predicate Valid()
      reads this, Repr
    {
      this in Repr &&
      (forall i :: 0 <= i < |nodes| ==> nodes[i] in Repr) &&
      size == |nodes| == |Contents| &&
      (forall i, j :: 0 <= i < j < |nodes| ==> nodes[i] != nodes[j]) &&
      head == (if nodes == [] then null else nodes[0]) &&
      tail == (if nodes == [] then null else nodes[|nodes| - 1]) &&
      (forall i :: 0 <= i < |nodes| ==> nodes[i].data == Contents[i]) &&
      (forall i :: 0 <= i < |nodes| - 1 ==> nodes[i].next == nodes[i + 1]) &&
      (forall i :: 0 < i < |nodes| ==> nodes[i].prev == nodes[i - 1]) &&
      (head != null ==> head.prev == null) &&
      (tail != null ==> tail.next == null)
    }

    /** create_linked_list: no nodes, size 0. */
    constructor ()
      ensures Valid() && fresh(Repr) && Contents == []
    {
      head := null;
      tail := null;
      size := 0;
      nodes := [];
      Contents := [];
      Repr := {this};
    }

    /**
     * linked_list_insert for 0 <= index <= size: index 0 makes the item the
     * head, index size appends it as the tail, and any other index links it
     * before the node at that index, found by walking from the nearer end.
     */
    method Insert(item: T, index: int)
      requires Valid()
      requires 0 <= index <= |Contents|
      modifies Repr
      ensures Valid() && fresh(Repr - old(Repr))
      ensures Contents == InsertAt(old(Contents), item, index)
    {
      var n := new Node(item);
      if index == 0 {
        LinkFirst(n);
      } else if index == size {
        LinkLast(n);
      } else {
        var current := Seek(index);
        LinkBefore(n, current, index);
      }
    }

    method LinkFirst(n: Node<T>)
      requires Valid() && n !in Repr && n.next == null && n.prev == null
      modifies Repr, n
      ensures Valid() && Repr == old(Repr) + {n}
      ensures nodes == [n] + old(nodes) && Contents == [old(n.data)] + old(Contents)
    {
      if head == null {
        head, tail := n, n;
      } else {
        n.next := head;
        head.prev := n;
        head := n;
      }
      size := size + 1;
      nodes := [n] + nodes;
      Contents := [n.data] + Contents;
      Repr := Repr + {n};
    }

    method LinkLast(n: Node<T>)
      requires Valid() && n !in Repr && n.next == null && n.prev == null
      requires nodes != []
      modifies Repr, n
      ensures Valid() && Repr == old(Repr) + {n}
      ensures nodes == old(nodes) + [n] && Contents == old(Contents) + [old(n.data)]
    {
      n.prev := tail;
      if tail != null {
        tail.next := n;
      }
      tail := n;
      size := size + 1;
      nodes := nodes + [n];
      Contents := Contents + [n.data];
      Repr := Repr + {n};
    }

    /** The walk from the nearer end to the node at 0 < index < size. */
    method Seek(index: int) returns (current: Node<T>)
      requires Valid() && 0 < index < |nodes|
      ensures current == nodes[index]
    {
      var fromHead := index < size / 2;
      var cur := if fromHead then head else tail;
      var currentIndex := if fromHead then 0 else size - 1;
      while currentIndex != index
        invariant 0 <= currentIndex < size
        invariant cur == nodes[currentIndex]
        invariant if fromHead then currentIndex <= index else index <= currentIndex
        decreases if fromHead then index - currentIndex else currentIndex - index
      {
        cur := if fromHead then cur.next else cur.prev;
        currentIndex := if fromHead then currentIndex + 1 else currentIndex - 1;
      }
      current := cur;
    }

    method LinkBefore(n: Node<T>, current: Node<T>, index: int)
      requires Valid() && n !in Repr && n.next == null && n.prev == null
      requires 0 < index < |nodes| && current == nodes[index]
      modifies Repr, n
      ensures Valid() && Repr == old(Repr) + {n}
      ensures nodes == InsertAt(old(nodes), n, index)
      ensures Contents == InsertAt(old(Contents), old(n.data), index)
    {
      var before := current.prev;
      assert before == nodes[index - 1];
      n.next := current;
      n.prev := before;
      before.next := n;
      current.prev := n;
      size := size + 1;
      nodes := InsertAt(nodes, n, index);
      Contents := InsertAt(Contents, n.data, index);
      Repr := Repr + {n};
    }

    /** The position get and remove walk to: a negative index stops at the head. */
    static function WalkIndex(index: int): nat
    {
      if index < 0 then 0 else index
    }

    /** The walk from the head that get and remove share: the node at WalkIndex(index), or null past the end. */
    method Walk(index: int) returns (current: Node?<T>)
      requires Valid()
      ensures current == if WalkIndex(index) < |nodes| then nodes[WalkIndex(index)] else null
    {
      current := head;
      var i := 0;
      while i < index && current != null
        invariant 0 <= i <= |nodes|
        invariant i <= WalkIndex(index)
        invariant current == if i < |nodes| then nodes[i] else null
      {
        current := current.next;
        i := i + 1;
      }
    }

    /** linked_list_get: the item index steps from the head (a negative index gives the head), or NULL past the end. */
    method Get(index: int) returns (r: Option<T>)
      requires Valid()
      ensures r == if WalkIndex(index) < |Contents| then Some(Contents[WalkIndex(index)]) else None
    {
      var current := Walk(index);
      if current == null {
        return None;
      }
      return Some(current.data);
    }

    /**
     * linked_list_remove: unlinks the node index steps from the head (the head
     * itself for a negative index), fixing head and tail; past the end it
     * changes nothing.
     */
    method Remove(index: int)
      requires Valid()
      modifies Repr
      ensures Valid() && Repr == old(Repr)
      ensures Contents == if WalkIndex(index) < |old(Contents)| then RemoveAt(old(Contents), WalkIndex(index))
                          else old(Contents)
    {
      var current := Walk(index);
      if current != null {
        Unlink(current, WalkIndex(index));
      }
    }

    method Unlink(current: Node<T>, i: int)
      requires Valid() && 0 <= i < |nodes| && current == nodes[i]
      modifies Repr
      ensures Valid() && Repr == old(Repr)
      ensures nodes == RemoveAt(old(nodes), i) && Contents == RemoveAt(old(Contents), i)
    {
      var before, after := current.prev, current.next;
      assert before == if i > 0 then nodes[i - 1] else null;
      assert after == if i + 1 < |nodes| then nodes[i + 1] else null;
      if before != null {
        before.next := after;
      } else {
        head := after;
      }
      if after != null {
        after.prev := before;
      } else {
        tail := before;
      }
      size := size - 1;
      nodes := RemoveAt(nodes, i);
      Contents := RemoveAt(Contents, i);
    }

    /** linked_list_size: the size field. */
    method Size() returns (n: int)
      requires Valid()
      ensures n == |Contents|
    {
      return size;
    }
  }
}
