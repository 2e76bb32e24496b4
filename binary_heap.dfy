/**
 * The array-backed binary max-heap: data[0..size) with the item of greatest
 * comparator rank at the root. Items are ranked by an integer key; the
 * comparator cmp(a, b) is the sign of key(a) - key(b).
 */
module BinaryHeap {
  import opened Wrappers
  import opened ListSpec
  import Growth

  function Parent(i: int): int
  {
    (i - 1) / 2
  }

  /** Every item ranks no higher than its parent. */
  ghost predicate HeapOrdered<T>(s: seq<T>, key: T -> int)
  {
    forall i :: 0 < i < |s| ==> key(s[Parent(i)]) >= key(s[i])
  }

  /** In a heap-ordered sequence every item ranks no higher than an ancestor of it. */
  lemma {:induction false} AncestorDominates<T>(s: seq<T>, key: T -> int, i: int)
    requires HeapOrdered(s, key) && 0 <= i < |s|
    ensures key(s[0]) >= key(s[i])
    decreases i
  {
    if i > 0 {
      AncestorDominates(s, key, Parent(i));
    }
  }

  /** The root of a non-empty heap-ordered sequence is a maximum of its items. */
  lemma RootIsMaximum<T>(s: seq<T>, key: T -> int)
    requires HeapOrdered(s, key) && |s| > 0
    ensures forall y :: y in multiset(s) ==> key(s[0]) >= key(y)
  {
    forall y | y in multiset(s) ensures key(s[0]) >= key(y) {
      var i :| 0 <= i < |s| && s[i] == y;
      AncestorDominates(s, key, i);
    }
  }

  /**
   * The state sift_up keeps while a hole at index travels up: every edge not
   * ending at the hole is ordered, the hole's parent dominates the hole's
   * children, and the hole's children rank no higher than the rising item.
   */
  ghost predicate RisingHole<T>(s: seq<T>, key: T -> int, index: int, item: T)
  {
    0 <= index < |s| &&
    (forall i :: 0 < i < |s| && i != index ==> key(s[Parent(i)]) >= key(s[i])) &&
    (forall i :: 0 < i < |s| && Parent(i) == index && index > 0 ==> key(s[Parent(index)]) >= key(s[i])) &&
    (forall i :: 0 < i < |s| && Parent(i) == index ==> key(s[i]) <= key(item))
  }

  lemma RisingHoleStarts<T>(s: seq<T>, key: T -> int, item: T)
    requires |s| > 0 && HeapOrdered(s[..|s| - 1], key)
    ensures RisingHole(s, key, |s| - 1, item)
  {
    forall i | 0 < i < |s| && i != |s| - 1
      ensures key(s[Parent(i)]) >= key(s[i])
    {
      assert s[..|s| - 1][i] == s[i] && s[..|s| - 1][Parent(i)] == s[Parent(i)];
    }
  }

  /** One step of sift_up: the parent moves down into the hole. */
  lemma {:induction false} RisingHoleStep<T>(s: seq<T>, key: T -> int, index: int, item: T)
    requires RisingHole(s, key, index, item) && index > 0
    requires key(s[Parent(index)]) < key(item)
    ensures RisingHole(s[index := s[Parent(index)]], key, Parent(index), item)
  {
    var p := Parent(index);
    var t := s[index := s[p]];
    forall i | 0 < i < |t| && i != p
      ensures key(t[Parent(i)]) >= key(t[i])
    {
      if i == index {
      } else if Parent(i) == index {
        assert key(s[p]) >= key(s[i]);
      } else {
        assert key(s[Parent(i)]) >= key(s[i]);
      }
    }
    forall i | 0 < i < |t| && Parent(i) == p && p > 0
      ensures key(t[Parent(p)]) >= key(t[i])
    {
      assert key(s[Parent(p)]) >= key(s[p]);
      if i != index {
        assert key(s[p]) >= key(s[i]);
      }
    }
    forall i | 0 < i < |t| && Parent(i) == p
      ensures key(t[i]) <= key(item)
    {
      if i != index {
        assert key(s[p]) >= key(s[i]);
      }
    }
  }

  /** Moving the hole from index to p (the item at p fills index) keeps the items once the hole is filled. */
  lemma HoleMovesMultiset<T>(s: seq<T>, index: int, p: int, item: T)
    requires 0 <= p < |s| && 0 <= index < |s|
    ensures multiset(s[index := s[p]][p := item]) == multiset(s[index := item])
  {
    if p != index {
      var v := s[index := item];
      assert s[index := s[p]][p := item] == v[index := v[p]][p := v[index]];
      SwapMultiset(v, index, p);
    }
  }

  /** sift_up stops: the item dropped into the hole leaves the sequence heap-ordered. */
  lemma RisingHoleFills<T>(s: seq<T>, key: T -> int, index: int, item: T)
    requires RisingHole(s, key, index, item)
    requires index == 0 || key(s[Parent(index)]) >= key(item)
    ensures HeapOrdered(s[index := item], key)
  {
  }

  /**
   * The state sift_down keeps while an item at index travels down: every
   * edge not leaving index is ordered and index's parent dominates index's
   * children.
   */
  ghost predicate SinkingItem<T>(s: seq<T>, key: T -> int, index: int)
  {
    0 <= index &&
    (forall i :: 0 < i < |s| && Parent(i) != index ==> key(s[Parent(i)]) >= key(s[i])) &&
    (forall i :: 0 < i < |s| && Parent(i) == index && index > 0 ==> key(s[Parent(index)]) >= key(s[i]))
  }

  /** One step of sift_down: the item swaps with its larger child, which outranks it. */
  lemma {:induction false} SinkingItemStep<T>(s: seq<T>, key: T -> int, index: int, child: int)
    requires SinkingItem(s, key, index)
    requires child == 2 * index + 1 || child == 2 * index + 2
    requires child < |s| && key(s[child]) > key(s[index])
    requires 2 * index + 1 < |s| ==> key(s[child]) >= key(s[2 * index + 1])
    requires 2 * index + 2 < |s| ==> key(s[child]) >= key(s[2 * index + 2])
    ensures SinkingItem(s[index := s[child]][child := s[index]], key, child)
  {
    var t := s[index := s[child]][child := s[index]];
    assert Parent(child) == index;
    forall i | 0 < i < |t| && Parent(i) != child
      ensures key(t[Parent(i)]) >= key(t[i])
    {
      if i == child {
      } else if Parent(i) == index {
        assert i == 2 * index + 1 || i == 2 * index + 2;
      } else if i == index {
        assert key(s[Parent(index)]) >= key(s[child]);
      } else if Parent(i) == index {
      } else {
        assert key(s[Parent(i)]) >= key(s[i]);
      }
    }
    forall i | 0 < i < |t| && Parent(i) == child
      ensures key(t[Parent(child)]) >= key(t[i])
    {
      assert key(s[child]) >= key(s[i]);
    }
  }

  /**
   * binary_heap_pop's rearrangement: the last item moves into the root slot
   * and the sequence shrinks by one, which drops exactly the old root and
   * leaves only the root's edges to repair.
   */
  lemma LastToRoot<T>(s: seq<T>, key: T -> int)
    requires HeapOrdered(s, key) && |s| > 0
    ensures SinkingItem(s[0 := s[|s| - 1]][..|s| - 1], key, 0)
    ensures multiset(s[0 := s[|s| - 1]][..|s| - 1]) == multiset(s) - multiset{s[0]}
  {
    var n := |s| - 1;
    var t := s[0 := s[n]][..n];
    if n > 0 {
      SwapMultiset(s, 0, n);
      assert s[0 := s[n]][n := s[0]] == t + [s[0]];
    } else {
      assert s == [s[0]];
    }
  }

  /** sift_down stops: no child outranks the item, so the sequence is heap-ordered. */
  lemma SinkingItemRests<T>(s: seq<T>, key: T -> int, index: int)
    requires SinkingItem(s, key, index)
    requires 2 * index + 1 < |s| ==> key(s[index]) >= key(s[2 * index + 1])
    requires 2 * index + 2 < |s| ==> key(s[index]) >= key(s[2 * index + 2])
    ensures HeapOrdered(s, key)
  {
    forall i | 0 < i < |s|
      ensures key(s[Parent(i)]) >= key(s[i])
    {
      if Parent(i) == index {
        assert i == 2 * index + 1 || i == 2 * index + 2;
      }
    }
  }

  class BinaryHeap<T(0)> {
    var data: array<T>
    var size: int
    var capacity: int
    const key: T -> int
    ghost var Repr: set<object>

    ghost predicate Valid()
      reads this, Repr
    {
      Repr == {this, data} &&
      capacity == data.Length && 0 <= size <= capacity &&
      HeapOrdered(data[..size], key)
    }

    /** The stored items. */
    ghost function Elements(): multiset<T>
      reads this, Repr
      requires Valid()
    {
      multiset(data[..size])
    }

    /** binary_heap_init: an empty heap with room for initialCapacity items. */
    constructor (initialCapacity: int, key: T -> int)
      requires initialCapacity >= 0
      ensures Valid() && fresh(Repr) && Elements() == multiset{}
      ensures capacity == initialCapacity && this.key == key
    {
      data := new T[initialCapacity];
      capacity := initialCapacity;
      size := 0;
      this.key := key;
      Repr := {this, data};
    }

    /**
     * binary_heap_put: a full buffer doubles (to at least one slot), the item
     * goes into the first free slot and sifts up.
     */
    method Put(item: T)
      requires Valid()
      modifies Repr
      ensures Valid() && fresh(Repr - old(Repr))
      ensures Elements() == old(Elements()) + multiset{item}
      ensures capacity == if old(size) == old(capacity) then Growth.Doubled(old(capacity)) else old(capacity)
    {
      if size == capacity {
        Grow();
      }
      Append(item);
    }

    /** The rest of binary_heap_put once there is room: store at data[size], sift up, count it. */
    method Append(item: T)
      requires Valid() && size < capacity
      modifies this, data
      ensures Valid() && Repr == old(Repr) && capacity == old(capacity)
      ensures Elements() == old(Elements()) + multiset{item}
    {
      data[size] := item;
      assert data[..size + 1] == old(data[..size]) + [item];
      SiftUp(size);
      size := size + 1;
    }

    /** The realloc in binary_heap_put: a buffer of Doubled(capacity) slots holding the same items. */
    method Grow()
      requires Valid()
      modifies this
      ensures Valid() && fresh(Repr - old(Repr))
      ensures capacity == Growth.Doubled(old(capacity)) && size == old(size)
      ensures data[..size] == old(data[..size])
    {
      var newCapacity := Growth.Doubled(capacity);
      var newData := new T[newCapacity];
      var i := 0;
      while i < size
        invariant 0 <= i <= size
        invariant newData[..i] == data[..i]
        modifies newData
      {
        newData[i] := data[i];
        i := i + 1;
      }
      assert newData[..size] == data[..size];
      data := newData;
      capacity := newCapacity;
      Repr := {this, data};
    }

    /**
     * sift_up: the item at start rises past every parent that ranks strictly
     * below it; the slots above start are untouched.
     */
    method SiftUp(start: int)
      requires Repr == {this, data} && 0 <= start < data.Length
      requires HeapOrdered(data[..start], key)
      modifies data
      ensures HeapOrdered(data[..start + 1], key)
      ensures multiset(data[..start + 1]) == old(multiset(data[..start + 1]))
      ensures data[start + 1..] == old(data[start + 1..])
    {
      var index := start;
      var item := data[index];
      ghost var n := start + 1;
      assert data[..n][..start] == data[..start];
      RisingHoleStarts(data[..n], key, item);
      assert data[..n][index := item] == data[..n];
      while index > 0
        invariant 0 <= index <= start
        invariant RisingHole(data[..n], key, index, item)
        invariant multiset(data[..n][index := item]) == old(multiset(data[..n]))
        invariant data[n..] == old(data[n..])
      {
        var parentIdx := (index - 1) / 2;
        if key(data[parentIdx]) >= key(item) {
          break;
        }
        ghost var s := data[..n];
        data[index] := data[parentIdx];
        assert data[..n] == s[index := s[parentIdx]];
        RisingHoleStep(s, key, index, item);
        HoleMovesMultiset(s, index, parentIdx, item);
        index := parentIdx;
      }
      ghost var s := data[..n];
      RisingHoleFills(s, key, index, item);
      data[index] := item;
      assert data[..n] == s[index := item];
      assert data[n..] == old(data[n..]);
    }

    /** binary_heap_pop: NULL when empty; otherwise removes and returns a top-ranked item. */
    method Pop() returns (r: Option<T>)
      requires Valid()
      modifies Repr
      ensures Valid() && Repr == old(Repr)
      ensures old(size) == 0 <==> r.None?
      ensures r.None? ==> Elements() == old(Elements())
      ensures r.Some? ==> r.value in old(Elements()) && Elements() == old(Elements()) - multiset{r.value}
      ensures r.Some? ==> forall y :: y in old(Elements()) ==> key(r.value) >= key(y)
    {
      if size == 0 {
        return None;
      }
      RootIsMaximum(data[..size], key);
      r := Some(data[0]);
      MoveLastToRoot();
      SiftDown(0);
    }

    /** The first half of binary_heap_pop: the last item overwrites the root and size drops by one. */
    method MoveLastToRoot()
      requires 0 < size <= data.Length && HeapOrdered(data[..size], key)
      modifies this, data
      ensures data == old(data) && capacity == old(capacity) && size == old(size) - 1 && Repr == old(Repr)
      ensures SinkingItem(data[..size], key, 0)
      ensures multiset(data[..size]) == old(multiset(data[..size])) - multiset{old(data[0])}
    {
      ghost var before := data[..size];
      data[0] := data[size - 1];
      size := size - 1;
      assert data[..size] == before[0 := before[size]][..size];
      LastToRoot(before, key);
    }

    /**
     * sift_down: while the slot has children, it swaps with its strictly
     * greater larger child; the rest of data[0..size) is already heap-ordered.
     */
    method SiftDown(start: int)
      requires Repr == {this, data} && capacity == data.Length && 0 <= size <= capacity
      requires SinkingItem(data[..size], key, start)
      modifies data
      ensures HeapOrdered(data[..size], key)
      ensures multiset(data[..size]) == old(multiset(data[..size]))
      ensures data[size..] == old(data[size..])
    {
      var index := start;
      ghost var s := data[..size];
      ghost var items := multiset(s);
      while index < size / 2
        invariant s == data[..size]
        invariant SinkingItem(s, key, index)
        invariant multiset(s) == items
        invariant data[size..] == old(data[size..])
        decreases size - index
      {
        var left := 2 * index + 1;
        var right := 2 * index + 2;
        var largest := index;
        if left < size && key(data[left]) > key(data[largest]) {
          largest := left;
        }
        if right < size && key(data[right]) > key(data[largest]) {
          largest := right;
        }
        if largest == index {
          SinkingItemRests(s, key, index);
          return;
        }
        SinkingItemStep(s, key, index, largest);
        SwapMultiset(s, index, largest);
        Swap(index, largest);
        s := s[index := s[largest]][largest := s[index]];
        index := largest;
      }
      assert 2 * (size / 2) + 1 >= size;
      SinkingItemRests(s, key, index);
    }

    /** The exchange in sift_down: two slots below size trade items; nothing else changes. */
    method Swap(i: int, j: int)
      requires 0 <= i < size && 0 <= j < size && size <= data.Length
      modifies data
      ensures data[..size] == old(data[..size])[i := old(data[j])][j := old(data[i])]
      ensures data[size..] == old(data[size..])
    {
      data[i], data[j] := data[j], data[i];
    }

    /** binary_heap_peek: a top-ranked item, or NULL when empty; nothing changes. */
    method Peek() returns (r: Option<T>)
      requires Valid()
      ensures |Elements()| == 0 <==> r.None?
      ensures r.Some? ==> r.value in Elements() && forall y :: y in Elements() ==> key(r.value) >= key(y)
    {
      if size == 0 {
        return None;
      }
      RootIsMaximum(data[..size], key);
      return Some(data[0]);
    }

    /** binary_heap_size. */
    method Size() returns (n: int)
      requires Valid()
      ensures n == |Elements()|
    {
      return size;
    }
  }
}
