/**
 * tree_set.c: a set kept in a red-black tree whose key and value are both
 * the element. Elements are pointers, modelled as integers ordered by the
 * set's comparator (the integer order); NULL is None.
 */
module TreeSets {
  import opened Wrappers
  import opened ListSpec
  import opened SearchTree
  import Trees

  /** Strictly ascending keys are distinct, so there are as many keys as pairs. */
  lemma {:induction false} KeysCount<V>(ps: seq<(int, V)>)
    requires Sorted(ps)
    ensures |KeysOf(ps)| == |ps|
    decreases |ps|
  {
    if ps != [] {
      assert Sorted(ps[1..]);
      assert AllAbove(ps[1..], ps[0].0);
      AboveKeys(ps[1..], ps[0].0);
      KeysCount(ps[1..]);
    }
  }

  /**
   * tree_set_collect_cb applied along tree_in_order_traverse: the key of
   * every visited pair, appended in visiting order.
   */
  method CollectKeys<V>(visits: seq<(int, V)>) returns (r: seq<int>)
    ensures |r| == |visits| && forall i :: 0 <= i < |r| ==> r[i] == visits[i].0
  {
    r := [];
    var i := 0;
    while i < |visits|
      invariant 0 <= i <= |visits|
      invariant |r| == i && forall p :: 0 <= p < i ==> r[p] == visits[p].0
    {
      r := r + [visits[i].0];
      i := i + 1;
    }
  }

  class TreeSet {
    const t: Trees.BalancedTree<int>
    ghost var Elements: set<int>
    ghost var Repr: set<object>

    /** A valid red-black tree whose keys are exactly the elements. */
    ghost predicate Valid()
      reads this, Repr
    {
      Repr == {this, t} &&
      t.Valid() && t.kind == Trees.TreeRedBlack && Elements == KeysOf(t.Contents())
    }

    /** tree_set_create_impl: an empty set over a new red-black tree. */
    constructor ()
      ensures Valid() && fresh(Repr) && Elements == {}
    {
      t := new Trees.BalancedTree(Trees.TreeRedBlack);
      Elements := {};
      new;
      Repr := {this, t};
    }

    /**
     * tree_set_add: false for NULL and for an element the tree already
     * holds; otherwise the element is inserted as key and value and the
     * answer is whether the tree grew, which it always does.
     */
    method Add(e: Option<int>) returns (r: bool)
      requires Valid()
      modifies Repr
      ensures Valid() && Repr == old(Repr)
      ensures r <==> e.Some? && e.value !in old(Elements)
      ensures Elements == if e.Some? then old(Elements) + {e.value} else old(Elements)
    {
      if e.None? {
        return false;
      }
      var found := t.Search(e);
      if found.Some? {
        return false;
      }
      var before := t.Size();
      UpsertFacts(t.Contents(), e.value, e.value);
      t.Insert(e, e.value);
      var after := t.Size();
      r := after > before;
      Elements := Elements + {e.value};
    }

    /** tree_set_contains: whether a non-NULL element is in the tree. */
    method Contains(e: Option<int>) returns (r: bool)
      requires Valid()
      ensures r <==> e.Some? && e.value in Elements
    {
      if e.None? {
        return false;
      }
      var found := t.Search(e);
      r := found.Some?;
    }

    /** tree_set_remove: the tree's deletion, true when the tree shrank. */
    method Remove(e: Option<int>) returns (r: bool)
      requires Valid()
      modifies Repr
      ensures Valid() && Repr == old(Repr)
      ensures r <==> e.Some? && e.value in old(Elements)
      ensures Elements == if e.Some? then old(Elements) - {e.value} else old(Elements)
    {
      if e.None? {
        return false;
      }
      var before := t.Size();
      EraseFacts(t.Contents(), e.value);
      t.Delete(e);
      var after := t.Size();
      r := after < before;
      Elements := Elements - {e.value};
    }

    /** tree_set_size: the tree's node count, which is the number of elements. */
    method Size() returns (n: int)
      requires Valid()
      ensures n == |Elements|
    {
      n := t.Size();
      KeysCount(t.Contents());
    }

    /** tree_set_to_list: the elements in ascending order, each once. */
    method ToList() returns (r: seq<int>)
      requires Valid()
      ensures forall i, j :: 0 <= i < j < |r| ==> r[i] < r[j]
      ensures forall x :: x in r <==> x in Elements
      ensures |r| == |Elements|
    {
      var visits := t.InOrder();
      r := CollectKeys(visits);
      KeysCount(visits);
      forall x
        ensures x in r <==> x in Elements
      {
        KeysOfIndex(visits, x);
      }
    }
  }
}
