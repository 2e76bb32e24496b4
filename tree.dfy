/**
 * tree.c: the public tree object. It holds its variant (AVL or red-black),
 * its root and its node count, and dispatches insertion and deletion to the
 * variant; the read operations walk the shared node shape. The comparator is
 * the integer order on keys; a NULL key pointer is None.
 */
module Trees {
  import opened Wrappers
  import opened SearchTree
  import AvlTree
  import RedBlackTree

  /** The tree_type enumeration. */
  const TreeAvl: int := 0
  const TreeRedBlack: int := 1

  class BalancedTree<V> {
    const kind: int
    var root: Tree<V>
    var size: nat

    /** The (key, value) pairs of the tree in key order. */
    ghost function Contents(): seq<(int, V)>
      reads this
    {
      Pairs(root)
    }

    /**
     * The tree is a search tree of its variant's shape, and size counts its
     * nodes.
     */
    ghost predicate Valid()
      reads this
    {
      ((kind == TreeAvl && Ordered(root) && AvlTree.Avl(root)) ||
       (kind == TreeRedBlack && RedBlackTree.IsRedBlack(root))) &&
      size == |Pairs(root)|
    }

    /** create_tree for a known variant with a comparator: an empty tree. */
    constructor (kind: int)
      requires kind == TreeAvl || kind == TreeRedBlack
      ensures Valid() && Contents() == [] && this.kind == kind
    {
      this.kind := kind;
      root := Nil;
      size := 0;
    }

    /**
     * tree_insert: nothing for a NULL key; otherwise the variant's insertion
     * stores value under key, replacing an earlier value, and counts a new
     * node.
     */
    method Insert(key: Option<int>, value: V)
      requires Valid()
      modifies this
      ensures Valid()
      ensures key.None? ==> Contents() == old(Contents())
      ensures key.Some? ==> Contents() == Upsert(old(Contents()), key.value, value)
    {
      if key.None? {
        return;
      }
      var k := key.value;
      UpsertFacts(Pairs(root), k, value);
      if kind == TreeAvl {
        AvlTree.InsertNodePairs(root, k, value);
        AvlTree.InsertNodeBalanced(root, k, value);
        var (r, created) := AvlTree.InsertNode(root, k, value);
        root := r;
        if created {
          size := size + 1;
        }
      } else {
        var r, created := RedBlackTree.Insert(root, k, value);
        root := r;
        if created {
          size := size + 1;
        }
      }
    }

    /**
     * tree_delete: nothing for a NULL key; otherwise the variant's deletion
     * removes the pair with that key, if any, and uncounts its node.
     */
    method Delete(key: Option<int>)
      requires Valid()
      modifies this
      ensures Valid()
      ensures key.None? ==> Contents() == old(Contents())
      ensures key.Some? ==> Contents() == Erase(old(Contents()), key.value)
    {
      if key.None? {
        return;
      }
      var k := key.value;
      EraseFacts(Pairs(root), k);
      if kind == TreeAvl {
        AvlTree.DeleteNodePairs(root, k);
        AvlTree.DeleteNodeBalanced(root, k);
        var (r, deleted) := AvlTree.DeleteNode(root, k);
        root := r;
        if deleted {
          size := size - 1;
        }
      } else {
        var r, removed := RedBlackTree.Delete(root, k);
        root := r;
        if removed && size > 0 {
          size := size - 1;
        }
      }
    }

    /** tree_search: the value stored under key; None for a NULL or absent key. */
    method Search(key: Option<int>) returns (r: Option<V>)
      requires Valid()
      ensures key.None? ==> r.None?
      ensures key.Some? ==> r == Lookup(Contents(), key.value)
    {
      if key.None? {
        return None;
      }
      r := SearchNode(root, key.value);
    }

    /** tree_min: the value of the smallest key, None when the tree is empty. */
    method Min() returns (r: Option<V>)
      requires Valid()
      ensures r == FirstValue(Contents())
      ensures r.None? <==> Contents() == []
    {
      r := MinNode(root);
    }

    /** tree_max: the value of the largest key, None when the tree is empty. */
    method Max() returns (r: Option<V>)
      requires Valid()
      ensures r == LastValue(Contents())
      ensures r.None? <==> Contents() == []
    {
      r := MaxNode(root);
    }

    /**
     * tree_predecessor: the value of the largest key strictly below key
     * (which need not be present); None for a NULL key or when no key is
     * below it.
     */
    method Predecessor(key: Option<int>) returns (r: Option<V>)
      requires Valid()
      ensures key.None? ==> r.None?
      ensures key.Some? ==> r == LastValue(Keep(Contents(), Below(key.value)))
    {
      if key.None? {
        return None;
      }
      r := PredecessorWalk(root, key.value);
    }

    /** tree_successor: the value of the smallest key strictly above key. */
    method Successor(key: Option<int>) returns (r: Option<V>)
      requires Valid()
      ensures key.None? ==> r.None?
      ensures key.Some? ==> r == FirstValue(Keep(Contents(), Above(key.value)))
    {
      if key.None? {
        return None;
      }
      r := SuccessorWalk(root, key.value);
    }

    /**
     * tree_range_query: no list for a NULL bound or for low above high;
     * otherwise the values of the keys within [low, high], in key order.
     */
    method RangeQuery(low: Option<int>, high: Option<int>) returns (r: Option<seq<V>>)
      requires Valid()
      ensures r.None? <==> low.None? || high.None? || low.value > high.value
      ensures r.Some? ==> r.value == Values(Keep(Contents(), Within(low.value, high.value)))
    {
      if low.None? || high.None? || low.value > high.value {
        return None;
      }
      r := Some(SearchTree.RangeQuery(root, low.value, high.value));
    }

    /** tree_in_order_traverse: the callback sees every pair once, keys ascending. */
    method InOrder() returns (visits: seq<(int, V)>)
      requires Valid()
      ensures visits == Contents()
      ensures forall i, j :: 0 <= i < j < |visits| ==> visits[i].0 < visits[j].0
    {
      visits := Pairs(root);
    }

    /** tree_size: the number of pairs. */
    method Size() returns (n: int)
      requires Valid()
      ensures n == |Contents()|
    {
      n := size;
    }
  }

  /**
   * create_tree: NULL without a comparator or for an unknown variant,
   * otherwise an empty tree of that variant.
   */
  method CreateTree<V>(kind: int, hasComparator: bool) returns (t: Option<BalancedTree<V>>)
    ensures t.None? <==> !hasComparator || (kind != TreeAvl && kind != TreeRedBlack)
    ensures t.Some? ==> fresh(t.value) && t.value.Valid() && t.value.Contents() == [] && t.value.kind == kind
  {
    if !hasComparator || (kind != TreeAvl && kind != TreeRedBlack) {
      return None;
    }
    var b := new BalancedTree(kind);
    t := Some(b);
  }
}
