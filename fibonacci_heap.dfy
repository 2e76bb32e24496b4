/**
 * The Fibonacci heap of fibonacci_heap.c. The circular root list is kept as
 * the sequence of its trees read rightwards from `min`, and each node's
 * circular child list as the sequence read rightwards from its `child`
 * pointer. Parent pointers are implied by the nesting. The comparator is the
 * sign of key(a) - key(b), so the smallest key is popped first.
 */
module FibonacciHeap {
  import opened Wrappers
  import opened ListSpec

  /** A fib_node and everything below it. */
  datatype Tree<T> = Node(data: T, degree: nat, mark: bool, children: seq<Tree<T>>)

  /** The items stored in a tree. */
  function Items<T>(t: Tree<T>): multiset<T>
    decreases t, 1
  {
    multiset{t.data} + ItemsOf(t.children)
  }

  /** The items stored in a ring of trees. */
  function ItemsOf<T>(ts: seq<Tree<T>>): multiset<T>
    decreases ts, 0
  {
    if ts == [] then multiset{} else Items(ts[0]) + ItemsOf(ts[1..])
  }

  lemma {:induction false} ItemsOfAppend<T>(a: seq<Tree<T>>, b: seq<Tree<T>>)
    ensures ItemsOf(a + b) == ItemsOf(a) + ItemsOf(b)
    decreases |a|
  {
    if a == [] {
      assert a + b == b;
    } else {
      assert (a + b)[0] == a[0] && (a + b)[1..] == a[1..] + b;
      ItemsOfAppend(a[1..], b);
      calc {
        ItemsOf(a + b);
        Items(a[0]) + ItemsOf(a[1..] + b);
        Items(a[0]) + (ItemsOf(a[1..]) + ItemsOf(b));
        (Items(a[0]) + ItemsOf(a[1..])) + ItemsOf(b);
      }
    }
  }

  /**
   * The root ring after fibonacci_heap_pop has moved the children of `min`
   * next to it. The loop walks the child ring from `min->child` and inserts
   * each visited child just right of `min`; once the first child has been
   * moved, the last child's `right` points at itself, so the walk crosses
   * into the root ring and moves the children again until it meets the
   * first child. The children end up in ring order from the second one,
   * with the first child last.
   */
  function Spliced<T>(cs: seq<Tree<T>>): (r: seq<Tree<T>>)
    ensures |r| == |cs|
    ensures forall i :: 0 <= i < |r| ==> r[i] == cs[(i + 1) % |cs|]
  {
    if cs == [] then [] else cs[1..] + [cs[0]]
  }

  lemma ItemsOfSpliced<T>(cs: seq<Tree<T>>)
    ensures ItemsOf(Spliced(cs)) == ItemsOf(cs)
  {
    if cs != [] {
      ItemsOfAppend(cs[1..], [cs[0]]);
      assert ItemsOf([cs[0]]) == Items(cs[0]);
    }
  }

  /** The ring left by pop: the children of the first root, then the other roots. */
  lemma PopRing<T>(roots: seq<Tree<T>>, key: T -> int)
    requires roots != [] && AllGood(roots, key)
    ensures AllGood(Spliced(roots[0].children) + roots[1..], key)
    ensures ItemsOf(Spliced(roots[0].children) + roots[1..]) + multiset{roots[0].data} == ItemsOf(roots)
  {
    var cs := roots[0].children;
    var ring := Spliced(cs) + roots[1..];
    assert Good(roots[0], key);
    forall i | 0 <= i < |ring| ensures Good(ring[i], key) {
      if i < |cs| {
        assert ring[i] == cs[(i + 1) % |cs|];
      } else {
        assert ring[i] == roots[i - |cs| + 1];
      }
    }
    ItemsOfSpliced(cs);
    ItemsOfAppend(Spliced(cs), roots[1..]);
  }

  /** Every child's key is at least its parent's, and degree counts the children. */
  ghost predicate Good<T>(t: Tree<T>, key: T -> int)
    decreases t
  {
    t.degree == |t.children| &&
    forall i :: 0 <= i < |t.children| ==> key(t.data) <= key(t.children[i].data) && Good(t.children[i], key)
  }

  ghost predicate AllGood<T>(ts: seq<Tree<T>>, key: T -> int)
  {
    forall i :: 0 <= i < |ts| ==> Good(ts[i], key)
  }

  /** The first root of the ring (where `min` points) has the least key among the roots. */
  ghost predicate MinFirst<T>(ts: seq<Tree<T>>, key: T -> int)
  {
    forall k :: 0 <= k < |ts| ==> key(ts[0].data) <= key(ts[k].data)
  }

  /** No two roots have the same degree. */
  ghost predicate DistinctDegrees<T>(ts: seq<Tree<T>>)
  {
    forall a, b :: 0 <= a < b < |ts| ==> ts[a].degree != ts[b].degree
  }

  /** In a heap-ordered tree every item's key is at least the root's. */
  lemma {:induction false} BoundedBelow<T>(t: Tree<T>, key: T -> int, m: int)
    requires Good(t, key) && m <= key(t.data)
    ensures forall y :: y in Items(t) ==> m <= key(y)
    decreases t, 1
  {
    ForestBoundedBelow(t.children, key, m);
  }

  lemma {:induction false} ForestBoundedBelow<T>(ts: seq<Tree<T>>, key: T -> int, m: int)
    requires forall i :: 0 <= i < |ts| ==> Good(ts[i], key) && m <= key(ts[i].data)
    ensures forall y :: y in ItemsOf(ts) ==> m <= key(y)
    decreases ts, 0
  {
    if ts != [] {
      BoundedBelow(ts[0], key, m);
      ForestBoundedBelow(ts[1..], key, m);
    }
  }

  /** The item at `min` has the least key of all the items in the heap. */
  lemma MinRootIsMinimum<T>(ts: seq<Tree<T>>, key: T -> int)
    requires ts != [] && AllGood(ts, key) && MinFirst(ts, key)
    ensures ts[0].data in ItemsOf(ts)
    ensures forall y :: y in ItemsOf(ts) ==> key(ts[0].data) <= key(y)
  {
    ForestBoundedBelow(ts, key, key(ts[0].data));
  }

  /** fib_node_create: a single node of degree 0, unmarked, with no children. */
  function Leaf<T>(data: T): (t: Tree<T>)
    ensures Items(t) == multiset{data} && t.degree == 0 && !t.mark
  {
    Node(data, 0, false, [])
  }

  /**
   * fib_node_link(child, parent): the child is unmarked and joins the
   * parent's child ring to the left of `parent->child`, the parent's degree
   * goes up by one. With the parent's key no greater than the child's, heap
   * order is kept.
   */
  function Link<T>(child: Tree<T>, parent: Tree<T>, key: T -> int): (r: Tree<T>)
    requires Good(child, key) && Good(parent, key) && key(parent.data) <= key(child.data)
    ensures Good(r, key) && r.degree == parent.degree + 1
    ensures r.data == parent.data
    ensures Items(r) == Items(parent) + Items(child)
  {
    var cs := parent.children + [child.(mark := false)];
    assert child.(mark := false).children == child.children;
    ItemsOfAppend(parent.children, [child.(mark := false)]);
    Node(parent.data, parent.degree + 1, parent.mark, cs)
  }

  /**
   * The splice used by put and by the end of consolidate: the tree joins the
   * root ring just right of `min`, and becomes `min` when its key is smaller.
   */
  function SpliceRoot<T>(ring: seq<Tree<T>>, t: Tree<T>, key: T -> int): (r: seq<Tree<T>>)
    ensures |r| == |ring| + 1 && r[0] in [t] + ring
    ensures key(r[0].data) <= key(t.data)
    ensures ring != [] ==> key(r[0].data) <= key(ring[0].data)
  {
    if ring == [] then
      [t]
    else if key(t.data) < key(ring[0].data) then
      [t] + ring[1..] + [ring[0]]
    else
      [ring[0], t] + ring[1..]
  }

  /** The splice adds exactly the spliced tree's items. */
  lemma SpliceRootItems<T>(ring: seq<Tree<T>>, t: Tree<T>, key: T -> int)
    ensures ItemsOf(SpliceRoot(ring, t, key)) == ItemsOf(ring) + Items(t)
  {
    if ring != [] {
      assert ring == [ring[0]] + ring[1..];
      if key(t.data) < key(ring[0].data) {
        ItemsOfNewFirst(ring[0], ring[1..], t);
      } else {
        ItemsOfNewSecond(ring[0], ring[1..], t);
      }
    }
  }

  lemma ItemsOfNewFirst<T>(head: Tree<T>, rest: seq<Tree<T>>, t: Tree<T>)
    ensures ItemsOf([t] + rest + [head]) == ItemsOf([head] + rest) + Items(t)
  {
    ItemsOfOne(head);
    ItemsOfOne(t);
    ItemsOfAppend([head], rest);
    ItemsOfAppend([t], rest);
    ItemsOfAppend([t] + rest, [head]);
    SumsCommute(Items(head), ItemsOf(rest), Items(t));
  }

  lemma ItemsOfNewSecond<T>(head: Tree<T>, rest: seq<Tree<T>>, t: Tree<T>)
    ensures ItemsOf([head, t] + rest) == ItemsOf([head] + rest) + Items(t)
  {
    ItemsOfOne(head);
    ItemsOfOne(t);
    assert [head, t] + rest == [head] + ([t] + rest);
    ItemsOfAppend([head], rest);
    ItemsOfAppend([t], rest);
    ItemsOfAppend([head], [t] + rest);
    SumsCommute(Items(head), ItemsOf(rest), Items(t));
  }

  lemma ItemsOfOne<T>(x: Tree<T>)
    ensures ItemsOf([x]) == Items(x)
  {
    assert [x][1..] == [];
  }

  lemma SumsCommute<T>(a: multiset<T>, b: multiset<T>, c: multiset<T>)
    ensures c + b + a == a + b + c && a + (c + b) == a + b + c
  {
    forall z ensures (c + b + a)[z] == (a + b + c)[z] && (a + (c + b))[z] == (a + b + c)[z] {
    }
  }

  /** Every root after the splice is t or a root from before, position by position. */
  lemma SpliceRootFrom<T>(ring: seq<Tree<T>>, t: Tree<T>, key: T -> int)
    ensures forall k :: 0 <= k < |SpliceRoot(ring, t, key)| ==> SpliceRoot(ring, t, key)[k] == t || SpliceRoot(ring, t, key)[k] in ring
  {
  }

  /** After the splice `min` still points at a least root. */
  lemma SpliceRootMinFirst<T>(ring: seq<Tree<T>>, t: Tree<T>, key: T -> int)
    requires MinFirst(ring, key)
    ensures MinFirst(SpliceRoot(ring, t, key), key)
  {
    var r := SpliceRoot(ring, t, key);
    forall k | 0 <= k < |r| ensures key(r[0].data) <= key(r[k].data) {
      SpliceRootFrom(ring, t, key);
    }
  }

  /** Splicing a heap-ordered tree into a ring of heap-ordered trees leaves every root heap ordered. */
  lemma SpliceRootGood<T>(ring: seq<Tree<T>>, t: Tree<T>, key: T -> int)
    requires AllGood(ring, key) && Good(t, key)
    ensures AllGood(SpliceRoot(ring, t, key), key)
  {
    var r := SpliceRoot(ring, t, key);
    SpliceRootFrom(ring, t, key);
    forall k | 0 <= k < |r| ensures Good(r[k], key) {
      if r[k] != t {
        var j :| 0 <= j < |ring| && ring[j] == r[k];
      }
    }
  }

  /** Splicing in a tree whose degree no root has keeps the root degrees distinct. */
  lemma SpliceRootDistinct<T>(ring: seq<Tree<T>>, t: Tree<T>, key: T -> int)
    requires DistinctDegrees(ring)
    requires forall k :: 0 <= k < |ring| ==> ring[k].degree != t.degree
    ensures DistinctDegrees(SpliceRoot(ring, t, key))
  {
    var r := SpliceRoot(ring, t, key);
    if ring != [] {
      if key(t.data) < key(ring[0].data) {
        assert forall k :: 1 <= k < |ring| ==> r[k] == ring[k];
        assert r[0] == t && r[|ring|] == ring[0];
      } else {
        assert forall k :: 2 <= k < |r| ==> r[k] == ring[k - 1];
        assert r[0] == ring[0] && r[1] == t;
      }
    }
  }

  lemma ShiftSums<T>(a: multiset<T>, b: multiset<T>, c: multiset<T>, b2: multiset<T>, c2: multiset<T>)
    requires b + c == b2 + c2
    ensures a + b + c == a + b2 + c2
  {
    forall z ensures (a + b + c)[z] == (a + b2 + c2)[z] {
      assert (b + c)[z] == (b2 + c2)[z];
    }
  }

  /** The degree table's entry under one degree. */
  function Held<T>(entry: Option<Tree<T>>): multiset<T>
  {
    if entry.Some? then Items(entry.value) else multiset{}
  }

  /** The items held in the degree table A. */
  function TableItems<T>(table: seq<Option<Tree<T>>>): multiset<T>
  {
    if table == [] then multiset{}
    else Held(table[0]) + TableItems(table[1..])
  }

  /** A[d], when set, holds a heap-ordered tree of degree d. */
  ghost predicate TableOk<T>(table: seq<Option<Tree<T>>>, key: T -> int)
  {
    forall d :: 0 <= d < |table| && table[d].Some? ==> table[d].value.degree == d && Good(table[d].value, key)
  }

  lemma TableItemsUpdate<T>(table: seq<Option<Tree<T>>>, d: nat, v: Option<Tree<T>>)
    requires d < |table|
    ensures TableItems(table[d := v]) + Held(table[d]) == TableItems(table) + Held(v)
  {
    var u := table[d := v];
    TableItemsAt(table, d);
    TableItemsAt(u, d);
    assert u[..d] == table[..d] && u[d + 1..] == table[d + 1..];
    SwapSums(TableItems(table[..d]), TableItems(table[d + 1..]), Held(v), Held(table[d]));
  }

  /** The table's items are those before d, those under d and those after d. */
  lemma TableItemsAt<T>(table: seq<Option<Tree<T>>>, d: nat)
    requires d < |table|
    ensures TableItems(table) == TableItems(table[..d]) + Held(table[d]) + TableItems(table[d + 1..])
  {
    assert table == table[..d] + table[d..];
    TableItemsAppend(table[..d], table[d..]);
    assert table[d..][0] == table[d] && table[d..][1..] == table[d + 1..];
  }

  lemma SwapSums<T>(p: multiset<T>, q: multiset<T>, x: multiset<T>, y: multiset<T>)
    ensures p + x + q + y == p + y + q + x
  {
    forall z ensures (p + x + q + y)[z] == (p + y + q + x)[z] {
    }
  }

  lemma {:induction false} TableItemsAppend<T>(a: seq<Option<Tree<T>>>, b: seq<Option<Tree<T>>>)
    ensures TableItems(a + b) == TableItems(a) + TableItems(b)
    decreases |a|
  {
    if a == [] {
      assert a + b == b;
    } else {
      assert (a + b)[0] == a[0] && (a + b)[1..] == a[1..] + b;
      TableItemsAppend(a[1..], b);
    }
  }

  lemma {:induction false} EmptySlotsHoldNothing<T>(k: nat)
    ensures TableItems(seq<Option<Tree<T>>>(k, _ => None)) == multiset{}
    decreases k
  {
    if k > 0 {
      assert seq<Option<Tree<T>>>(k, _ => None)[1..] == seq<Option<Tree<T>>>(k - 1, _ => None);
      EmptySlotsHoldNothing<T>(k - 1);
    }
  }

  /**
   * One step of consolidate's inner loop: of x and the table's tree y of the
   * same degree, the one whose key compares greater is linked below the other.
   */
  function Merge<T>(x: Tree<T>, y: Tree<T>, key: T -> int): (r: Tree<T>)
    requires Good(x, key) && Good(y, key) && x.degree == y.degree
    ensures Good(r, key) && r.degree == x.degree + 1
    ensures Items(r) == Items(x) + Items(y)
    ensures r.data in {x.data, y.data} && key(r.data) <= key(x.data) && key(r.data) <= key(y.data)
  {
    if key(x.data) > key(y.data) then Link(x, y, key) else Link(y, x, key)
  }

  lemma Rebalance<T>(rest: multiset<T>, y: multiset<T>, total: multiset<T>, x: multiset<T>)
    requires rest + y == total + multiset{}
    ensures rest + (x + y) == total + x
  {
    forall z ensures (rest + (x + y))[z] == (total + x)[z] {
      assert (rest + y)[z] == (total + multiset{})[z];
    }
  }

  /** Taking A[d] out of the table and merging it into x keeps the items of table and x together. */
  lemma MergeFromTable<T>(table: seq<Option<Tree<T>>>, d: nat, x: Tree<T>, key: T -> int)
    requires d < |table| && table[d].Some? && Good(x, key) && Good(table[d].value, key)
    requires x.degree == table[d].value.degree
    ensures TableItems(table[d := None]) + Items(Merge(x, table[d].value, key)) == TableItems(table) + Items(x)
  {
    TableItemsUpdate(table, d, None);
    Rebalance(TableItems(table[d := None]), Items(table[d].value), TableItems(table), Items(x));
  }

  /** `A[d] = x`, with the table grown by empty slots when d is past its end. */
  function Park<T>(table: seq<Option<Tree<T>>>, d: nat, x: Tree<T>, key: T -> int): (r: seq<Option<Tree<T>>>)
    requires d >= |table| || table[d].None?
    requires TableOk(table, key) && Good(x, key) && x.degree == d
    ensures TableOk(r, key) && |r| == if d < |table| then |table| else d + 1
  {
    if d < |table| then
      table[d := Some(x)]
    else
      var r := table + seq(d - |table|, _ => None) + [Some(x)];
      assert forall k :: 0 <= k < |table| ==> r[k] == table[k];
      assert forall k :: |table| <= k < d ==> r[k].None?;
      r
  }

  /** Parking x adds exactly x's items to the table. */
  lemma ParkItems<T>(table: seq<Option<Tree<T>>>, d: nat, x: Tree<T>, key: T -> int)
    requires d >= |table| || table[d].None?
    requires TableOk(table, key) && Good(x, key) && x.degree == d
    ensures TableItems(Park(table, d, x, key)) == TableItems(table) + Items(x)
  {
    if d < |table| {
      TableItemsUpdate(table, d, Some(x));
      AddNothing(TableItems(table[d := Some(x)]));
    } else {
      var gap := seq<Option<Tree<T>>>(d - |table|, _ => None);
      EmptySlotsHoldNothing<T>(d - |table|);
      TableItemsAppend(table, gap);
      TableItemsAppend(table + gap, [Some(x)]);
      assert [Some(x)][1..] == [];
      AddNothing(TableItems(table));
      AddNothing(Items(x));
    }
  }

  lemma AddNothing<T>(m: multiset<T>)
    ensures m + multiset{} == m
  {
  }

  /** Reading A[i] into the ring moves its items from the table to the ring. */
  lemma ReadBackItems<T>(out: seq<Tree<T>>, table: seq<Option<Tree<T>>>, i: nat, key: T -> int)
    requires i < |table|
    ensures ItemsOf(if table[i].Some? then SpliceRoot(out, table[i].value, key) else out) + TableItems(table[i + 1..])
         == ItemsOf(out) + TableItems(table[i..])
  {
    assert table[i..][0] == table[i] && table[i..][1..] == table[i + 1..];
    if table[i].Some? {
      SpliceRootItems(out, table[i].value, key);
    } else {
      AddNothing(TableItems(table[i + 1..]));
    }
  }

  /**
   * The heap record: `roots` is the root ring read from `min` (empty when
   * `min` is NULL), `n` the node count, `key` the comparator.
   */
  class FibonacciHeap<T> {
    var roots: seq<Tree<T>>
    var n: int
    const key: T -> int

    ghost predicate Valid()
      reads this
    {
      n == |ItemsOf(roots)| && AllGood(roots, key) && MinFirst(roots, key)
    }

    ghost function Elements(): multiset<T>
      reads this
    {
      ItemsOf(roots)
    }

    /** create_fibonacci_heap: min NULL, n 0. */
    constructor (key: T -> int)
      ensures Valid() && Elements() == multiset{} && this.key == key
    {
      roots := [];
      n := 0;
      this.key := key;
    }

    /** fibonacci_heap_put: a new node joins the root ring next to `min`, and n grows by one. */
    method Put(data: T)
      requires Valid()
      modifies this
      ensures Valid() && Elements() == old(Elements()) + multiset{data}
    {
      var node := Leaf(data);
      SpliceRootItems(roots, node, key);
      SpliceRootMinFirst(roots, node, key);
      SpliceRootGood(roots, node, key);
      roots := SpliceRoot(roots, node, key);
      n := n + 1;
    }

    /** fibonacci_heap_peek: the item at `min`, or NULL on an empty heap. */
    method Peek() returns (r: Option<T>)
      requires Valid()
      ensures r.None? <==> Elements() == multiset{}
      ensures r.Some? ==> r.value in Elements() && forall y :: y in Elements() ==> key(r.value) <= key(y)
    {
      if roots == [] {
        return None;
      }
      MinRootIsMinimum(roots, key);
      return Some(roots[0].data);
    }

    /** fibonacci_heap_size: the node count n. */
    method Size() returns (s: int)
      requires Valid()
      ensures s == |Elements()|
    {
      return n;
    }

    /**
     * fibonacci_heap_pop: NULL on an empty heap. Otherwise the children of
     * `min` are moved into the root ring just right of `min`, in the order
     * Spliced gives, `min` is unlinked, and the ring that starts at its
     * right neighbour is consolidated. The item returned has the least key,
     * and afterwards no two roots share a degree.
     */
    method Pop() returns (r: Option<T>)
      requires Valid()
      modifies this
      ensures Valid()
      ensures r.None? <==> old(Elements()) == multiset{}
      ensures r.Some? ==> r.value in old(Elements()) && Elements() == old(Elements()) - multiset{r.value}
      ensures r.Some? ==> forall y :: y in old(Elements()) ==> key(r.value) <= key(y)
      ensures DistinctDegrees(roots)
    {
      if roots == [] {
        return None;
      }
      MinRootIsMinimum(roots, key);
      var z := roots[0];
      var ring := Spliced(z.children) + roots[1..];
      PopRing(roots, key);
      if ring == [] {
        roots := [];
      } else {
        roots := Consolidate(ring);
      }
      n := n - 1;
      return Some(z.data);
    }

    /**
     * consolidate: each root in ring order is linked with the tree already
     * in the degree table under its degree (the one with the larger key goes
     * below), repeatedly, then parked in the table; the table is read back in
     * degree order into a new root ring with `min` on a least root.
     */
    method Consolidate(ring: seq<Tree<T>>) returns (out: seq<Tree<T>>)
      requires ring != [] && AllGood(ring, key)
      ensures ItemsOf(out) == ItemsOf(ring)
      ensures AllGood(out, key) && MinFirst(out, key) && DistinctDegrees(out)
    {
      var table: seq<Option<Tree<T>>> := [];
      var idx := 0;
      while idx < |ring|
        invariant 0 <= idx <= |ring| && TableOk(table, key)
        invariant TableItems(table) + ItemsOf(ring[idx..]) == ItemsOf(ring)
      {
        var x := ring[idx];
        assert ring[idx..][1..] == ring[idx + 1..];
        idx := idx + 1;
        table := Absorb(table, x);
      }
      out := ReadBack(table);
    }

    /** The inner loop of consolidate for one root x, ending with x parked in the table. */
    method Absorb(table0: seq<Option<Tree<T>>>, x0: Tree<T>) returns (table: seq<Option<Tree<T>>>)
      requires TableOk(table0, key) && Good(x0, key)
      ensures TableOk(table, key)
      ensures TableItems(table) == TableItems(table0) + Items(x0)
    {
      table := table0;
      var x := x0;
      var d := x.degree;
      while d < |table| && table[d].Some?
        invariant TableOk(table, key) && Good(x, key) && x.degree == d
        invariant TableItems(table) + Items(x) == TableItems(table0) + Items(x0)
        decreases |table| - d
      {
        MergeFromTable(table, d, x, key);
        x := Merge(x, table[d].value, key);
        table := table[d := None];
        d := d + 1;
      }
      ParkItems(table, d, x, key);
      table := Park(table, d, x, key);
    }

    /** The final loop of consolidate: every table entry, in degree order, is spliced into a fresh root ring. */
    method ReadBack(table: seq<Option<Tree<T>>>) returns (out: seq<Tree<T>>)
      requires TableOk(table, key)
      ensures ItemsOf(out) == TableItems(table)
      ensures AllGood(out, key) && MinFirst(out, key) && DistinctDegrees(out)
    {
      out := [];
      for i := 0 to |table|
        invariant ItemsOf(out) + TableItems(table[i..]) == TableItems(table)
        invariant AllGood(out, key) && MinFirst(out, key) && DistinctDegrees(out)
        invariant forall k :: 0 <= k < |out| ==> out[k].degree < i
      {
        ReadBackItems(out, table, i, key);
        if table[i].Some? {
          SpliceRootMinFirst(out, table[i].value, key);
          SpliceRootGood(out, table[i].value, key);
          SpliceRootDistinct(out, table[i].value, key);
          SpliceRootFrom(out, table[i].value, key);
          out := SpliceRoot(out, table[i].value, key);
        }
      }
      assert table[|table|..] == [];
    }
  }

  /** The only item of 5, 3, 10, 1, 4 whose negation is least is 10. */
  lemma LeastNegationIsTen(items: multiset<int>, r: int)
    requires items == multiset{} + multiset{5} + multiset{3} + multiset{10} + multiset{1} + multiset{4}
    requires r in items && forall y :: y in items ==> -r <= -y
    ensures r == 10
  {
    assert items[10] == 1;
    assert items[r] == (if r in {5, 3, 10, 1, 4} then 1 else 0);
  }

  /**
   * With a comparator that reverses the order of ints, the pop after
   * putting 5, 3, 10, 1 and 4 returns 10, the largest.
   */
  method PopWithReversedOrder() returns (r: Option<int>)
    ensures r == Some(10)
  {
    var h := new FibonacciHeap<int>((v: int) => -v);
    ghost var items := h.Elements();
    h.Put(5);
    h.Put(3);
    h.Put(10);
    h.Put(1);
    h.Put(4);
    items := items + multiset{5} + multiset{3} + multiset{10} + multiset{1} + multiset{4};
    assert items == h.Elements();
    r := h.Pop();
    LeastNegationIsTen(items, r.value);
  }
}
