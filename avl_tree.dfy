/**
 * The AVL variant of avl_tree.c. avl_insert_node and avl_delete_node are
 * recursive and return the new root of the subtree they were given; here they
 * are recursive functions on tree values that also report whether a node was
 * created or freed (the C code bumps t->size at that point).
 */
module AvlTree {
  import opened Wrappers
  import opened SearchTree

  /** avl_height: 0 for NULL. */
  function Height<V>(n: Tree<V>): int
  {
    if n.Nil? then 0 else n.height
  }

  function MaxInt(a: int, b: int): int
  {
    if a > b then a else b
  }

  /** avl_update_height: one more than the taller child. */
  function UpdateHeight<V>(n: Tree<V>): Tree<V>
  {
    if n.Nil? then n else n.(height := 1 + MaxInt(Height(n.left), Height(n.right)))
  }

  /** avl_balance: left height minus right height, 0 for NULL. */
  function BalanceOf<V>(n: Tree<V>): int
  {
    if n.Nil? then 0 else Height(n.left) - Height(n.right)
  }

  /** avl_new_node: a leaf of height 1 (its colour field is set to black and unused). */
  function NewNode<V>(k: int, v: V): Tree<V>
  {
    Node(Nil, k, v, Nil, 1, Black)
  }

  /** Every node's height is one more than its taller child's, and its balance is in [-1, 1]. */
  ghost predicate Avl<V>(t: Tree<V>)
  {
    t.Nil? ||
    (Avl(t.left) && Avl(t.right) &&
     t.height == 1 + MaxInt(Height(t.left), Height(t.right)) &&
     -1 <= BalanceOf(t) <= 1)
  }

  lemma HeightNonNegative<V>(t: Tree<V>)
    requires Avl(t)
    ensures Height(t) >= 0 && (t.Node? ==> Height(t) >= 1)
  {
  }

  /** avl_rotate_right: the left child becomes the root; in-order pairs are unchanged. */
  function RotateRight<V>(y: Tree<V>): (r: Tree<V>)
    ensures Pairs(r) == Pairs(y)
  {
    if y.Nil? || y.left.Nil? then y
    else
      var x := y.left;
      UpdateHeight(x.(right := UpdateHeight(y.(left := x.right))))
  }

  /** avl_rotate_left: the right child becomes the root; in-order pairs are unchanged. */
  function RotateLeft<V>(x: Tree<V>): (r: Tree<V>)
    ensures Pairs(r) == Pairs(x)
  {
    if x.Nil? || x.right.Nil? then x
    else
      var y := x.right;
      UpdateHeight(y.(left := UpdateHeight(x.(right := y.left))))
  }

  /**
   * avl_insert_node: descend by key, replace the value of an equal key or add
   * a leaf, then update the height and undo an imbalance of 2 with the
   * rotation the inserted key's position calls for. The flag says whether a
   * node was created.
   */
  function InsertNode<V>(t: Tree<V>, k: int, v: V): (Tree<V>, bool)
  {
    if t.Nil? then (NewNode(k, v), true)
    else if k == t.key then (t.(value := v), false)
    else
      var (sub, created) := if k < t.key then InsertNode(t.left, k, v) else InsertNode(t.right, k, v);
      var n := UpdateHeight(if k < t.key then t.(left := sub) else t.(right := sub));
      (RebalanceAfterInsert(n, k), created)
  }

  /** The rebalancing at the end of avl_insert_node, chosen by where key k went. */
  function RebalanceAfterInsert<V>(n: Tree<V>, k: int): (r: Tree<V>)
    ensures Pairs(r) == Pairs(n)
  {
    var b := BalanceOf(n);
    if b > 1 && n.left.Node? && k < n.left.key then RotateRight(n)
    else if b < -1 && n.right.Node? && k > n.right.key then RotateLeft(n)
    else if b > 1 && n.left.Node? && k > n.left.key then RotateRight(n.(left := RotateLeft(n.left)))
    else if b < -1 && n.right.Node? && k < n.right.key then RotateLeft(n.(right := RotateRight(n.right)))
    else n
  }

  /** avl_min_node: the leftmost pair, which is the first in-order pair. */
  function MinPair<V>(t: Tree<V>): (p: (int, V))
    requires t.Node?
    ensures p == Pairs(t)[0]
  {
    if t.left.Nil? then (t.key, t.value) else MinPair(t.left)
  }

  /** The rebalancing at the end of avl_delete_node, chosen by the children's balances. */
  function RebalanceAfterDelete<V>(n: Tree<V>): (r: Tree<V>)
    ensures Pairs(r) == Pairs(n)
  {
    if n.Nil? then n
    else if BalanceOf(n) > 1 then
      if BalanceOf(n.left) >= 0 then RotateRight(n) else RotateRight(n.(left := RotateLeft(n.left)))
    else if BalanceOf(n) < -1 then
      if BalanceOf(n.right) <= 0 then RotateLeft(n) else RotateLeft(n.(right := RotateRight(n.right)))
    else n
  }

  /**
   * avl_delete_node: descend by key; a node with at most one child is replaced
   * by that child (returned at once), a node with two children takes over its
   * in-order successor's pair and the successor is deleted from the right
   * subtree. The flag says whether a node was freed.
   */
  function DeleteNode<V>(t: Tree<V>, k: int): (Tree<V>, bool)
  {
    if t.Nil? then (Nil, false)
    else if k == t.key && (t.left.Nil? || t.right.Nil?) then
      (if t.left.Node? then t.left else t.right, true)
    else
      var (n, removed) :=
        if k < t.key then
          var (l, d) := DeleteNode(t.left, k); (t.(left := l), d)
        else if k > t.key then
          var (r, d) := DeleteNode(t.right, k); (t.(right := r), d)
        else
          var s := MinPair(t.right);
          var (r, _) := DeleteNode(t.right, s.0);
          (t.(key := s.0, value := s.1, right := r), true);
      (RebalanceAfterDelete(UpdateHeight(n)), removed)
  }

  // ---- contents ----

  /** One step of avl_insert_node below a node whose key differs from k, in terms of in-order pairs. */
  lemma InsertNodeUnfold<V>(t: Tree<V>, k: int, v: V)
    requires t.Node? && k != t.key
    ensures var sub := if k < t.key then InsertNode(t.left, k, v) else InsertNode(t.right, k, v);
      InsertNode(t, k, v).1 == sub.1 &&
      Pairs(InsertNode(t, k, v).0) ==
        if k < t.key then Pairs(sub.0) + ([(t.key, t.value)] + Pairs(t.right))
        else (Pairs(t.left) + [(t.key, t.value)]) + Pairs(sub.0)
  {
    if k < t.key {
      var (l, c) := InsertNode(t.left, k, v);
      var n := t.(left := l);
      assert InsertNode(t, k, v) == (RebalanceAfterInsert(UpdateHeight(n), k), c);
      assert Pairs(UpdateHeight(n)) == Pairs(n);
    } else {
      var (r, c) := InsertNode(t.right, k, v);
      var n := t.(right := r);
      assert InsertNode(t, k, v) == (RebalanceAfterInsert(UpdateHeight(n), k), c);
      assert Pairs(UpdateHeight(n)) == Pairs(n);
    }
  }

  /** One step of avl_delete_node below a node whose key differs from k, in terms of in-order pairs. */
  lemma DeleteNodeUnfold<V>(t: Tree<V>, k: int)
    requires t.Node? && k != t.key
    ensures var sub := if k < t.key then DeleteNode(t.left, k) else DeleteNode(t.right, k);
      DeleteNode(t, k).1 == sub.1 &&
      Pairs(DeleteNode(t, k).0) ==
        if k < t.key then Pairs(sub.0) + ([(t.key, t.value)] + Pairs(t.right))
        else (Pairs(t.left) + [(t.key, t.value)]) + Pairs(sub.0)
  {
    if k < t.key {
      var (l, d) := DeleteNode(t.left, k);
      assert DeleteNode(t, k) == (RebalanceAfterDelete(UpdateHeight(t.(left := l))), d);
    } else {
      var (r, d) := DeleteNode(t.right, k);
      assert DeleteNode(t, k) == (RebalanceAfterDelete(UpdateHeight(t.(right := r))), d);
    }
  }

  /** The two-child step of avl_delete_node, in terms of in-order pairs. */
  lemma DeleteTwoChildrenUnfold<V>(t: Tree<V>)
    requires t.Node? && t.left.Node? && t.right.Node?
    ensures Pairs(DeleteNode(t, t.key).0) ==
      Pairs(t.left) + ([MinPair(t.right)] + Pairs(DeleteNode(t.right, MinPair(t.right).0).0))
  {
    var s := MinPair(t.right);
    var n := t.(key := s.0, value := s.1, right := DeleteNode(t.right, s.0).0);
    DeleteTwoChildrenShape(t);
    RebuiltPairs(n);
  }

  /** The node avl_delete_node builds for two children, before its height update and rebalancing. */
  lemma DeleteTwoChildrenShape<V>(t: Tree<V>)
    requires t.Node? && t.left.Node? && t.right.Node?
    ensures var s := MinPair(t.right);
      DeleteNode(t, t.key).0 ==
        RebalanceAfterDelete(UpdateHeight(t.(key := s.0, value := s.1, right := DeleteNode(t.right, s.0).0)))
  {
  }

  /** Updating the height and rebalancing a node keeps its in-order pairs. */
  lemma RebuiltPairs<V>(n: Tree<V>)
    requires n.Node?
    ensures Pairs(RebalanceAfterDelete(UpdateHeight(n))) == Pairs(n.left) + ([(n.key, n.value)] + Pairs(n.right))
  {
    assert Pairs(UpdateHeight(n)) == Pairs(n);
  }

  /** Insertion stores v under k, adds a node exactly when k was absent, and keeps the order. */
  lemma {:induction false} InsertNodePairs<V>(t: Tree<V>, k: int, v: V)
    requires Ordered(t)
    ensures Pairs(InsertNode(t, k, v).0) == Upsert(Pairs(t), k, v)
    ensures InsertNode(t, k, v).1 <==> k !in KeysOf(Pairs(t))
    decreases t
  {
    if t.Node? {
      UpsertNode(t, k, v);
      OrderedChildren(t);
      if k < t.key {
        InsertNodeUnfold(t, k, v);
        InsertNodePairs(t.left, k, v);
      } else if k > t.key {
        InsertNodeUnfold(t, k, v);
        InsertNodePairs(t.right, k, v);
      }
    }
  }

  /** Deletion removes the pair with key k, frees a node exactly when k was present, and keeps the order. */
  lemma {:induction false} DeleteNodePairs<V>(t: Tree<V>, k: int)
    requires Ordered(t)
    ensures Pairs(DeleteNode(t, k).0) == Erase(Pairs(t), k)
    ensures DeleteNode(t, k).1 <==> k in KeysOf(Pairs(t))
    decreases t, 1
  {
    if t.Node? {
      EraseNode(t, k);
      OrderedChildren(t);
      if k == t.key {
        if t.left.Node? && t.right.Node? {
          DeleteTwoChildrenPairs(t);
        } else if t.left.Node? {
          assert Pairs(t.left) + Pairs(t.right) == Pairs(t.left);
        } else {
          assert Pairs(t.left) + Pairs(t.right) == Pairs(t.right);
        }
      } else if k < t.key {
        DeleteNodeUnfold(t, k);
        DeleteNodePairs(t.left, k);
      } else {
        DeleteNodeUnfold(t, k);
        DeleteNodePairs(t.right, k);
      }
    }
  }

  /** With two children, taking over the successor's pair and deleting it on the right drops just the node's own pair. */
  lemma DeleteTwoChildrenPairs<V>(t: Tree<V>)
    requires t.Node? && Ordered(t) && t.left.Node? && t.right.Node?
    ensures Pairs(DeleteNode(t, t.key).0) == Pairs(t.left) + Pairs(t.right)
    decreases t, 0
  {
    var b := Pairs(t.right);
    OrderedChildren(t);
    DeleteNodePairs(t.right, MinPair(t.right).0);
    assert b == [b[0]] + b[1..];
    DeleteTwoChildrenUnfold(t);
  }

  // ---- balance ----

  /** A single right rotation repairs a node whose left side is two taller and not right-heavy. */
  lemma RotateRightBalanced<V>(n: Tree<V>)
    requires n.Node? && n.left.Node? && Avl(n.left) && Avl(n.right)
    requires Height(n.left) == Height(n.right) + 2 && BalanceOf(n.left) >= 0
    ensures Avl(RotateRight(n))
    ensures Height(RotateRight(n)) == Height(n.right) + (if BalanceOf(n.left) == 0 then 3 else 2)
  {
    var x := n.left;
    HeightNonNegative(n.right);
    HeightNonNegative(x.right);
    var y := UpdateHeight(n.(left := x.right));
    assert Avl(y);
    assert RotateRight(n) == UpdateHeight(x.(right := y));
  }

  lemma RotateLeftBalanced<V>(n: Tree<V>)
    requires n.Node? && n.right.Node? && Avl(n.left) && Avl(n.right)
    requires Height(n.right) == Height(n.left) + 2 && BalanceOf(n.right) <= 0
    ensures Avl(RotateLeft(n))
    ensures Height(RotateLeft(n)) == Height(n.left) + (if BalanceOf(n.right) == 0 then 3 else 2)
  {
    var y := n.right;
    HeightNonNegative(n.left);
    HeightNonNegative(y.left);
    var x := UpdateHeight(n.(right := y.left));
    assert Avl(x);
    assert RotateLeft(n) == UpdateHeight(y.(left := x));
  }

  /** A left-right double rotation repairs a node whose left side is two taller and right-heavy. */
  lemma RotateLeftRightBalanced<V>(n: Tree<V>)
    requires n.Node? && n.left.Node? && Avl(n.left) && Avl(n.right)
    requires Height(n.left) == Height(n.right) + 2 && BalanceOf(n.left) == -1
    ensures Avl(RotateRight(n.(left := RotateLeft(n.left))))
    ensures Height(RotateRight(n.(left := RotateLeft(n.left)))) == Height(n.right) + 2
  {
    var x := n.left;
    var z := x.right;
    HeightNonNegative(n.right);
    HeightNonNegative(x.left);
    HeightNonNegative(z.left);
    HeightNonNegative(z.right);
    var x' := UpdateHeight(x.(right := z.left));
    var y' := UpdateHeight(n.(left := z.right));
    assert Avl(x') && Avl(y');
    assert RotateLeft(x) == UpdateHeight(z.(left := x'));
    assert RotateRight(n.(left := RotateLeft(x))) == UpdateHeight(z.(left := x', right := y'));
  }

  lemma RotateRightLeftBalanced<V>(n: Tree<V>)
    requires n.Node? && n.right.Node? && Avl(n.left) && Avl(n.right)
    requires Height(n.right) == Height(n.left) + 2 && BalanceOf(n.right) == 1
    ensures Avl(RotateLeft(n.(right := RotateRight(n.right))))
    ensures Height(RotateLeft(n.(right := RotateRight(n.right)))) == Height(n.left) + 2
  {
    var y := n.right;
    var z := y.left;
    HeightNonNegative(n.left);
    HeightNonNegative(y.right);
    HeightNonNegative(z.left);
    HeightNonNegative(z.right);
    var y' := UpdateHeight(y.(left := z.right));
    var x' := UpdateHeight(n.(right := z.left));
    assert Avl(x') && Avl(y');
    assert RotateRight(y) == UpdateHeight(z.(right := y'));
    assert RotateLeft(n.(right := RotateRight(y))) == UpdateHeight(z.(left := x', right := y'));
  }

  /**
   * Insertion keeps the AVL shape and grows the height by at most one; when
   * it grows a node that was there before, the root keeps its key and leans
   * towards the side the new key went to.
   */
  lemma {:induction false} InsertNodeBalanced<V>(t: Tree<V>, k: int, v: V)
    requires Avl(t)
    ensures Avl(InsertNode(t, k, v).0)
    ensures Height(t) <= Height(InsertNode(t, k, v).0) <= Height(t) + 1
    ensures Height(InsertNode(t, k, v).0) == Height(t) + 1 && t.Node? ==>
      var r := InsertNode(t, k, v).0;
      r.Node? && r.key == t.key && k != t.key &&
      (k < t.key ==> BalanceOf(r) == 1) && (k > t.key ==> BalanceOf(r) == -1)
    decreases t
  {
    if t.Node? && k != t.key {
      HeightNonNegative(t.left);
      HeightNonNegative(t.right);
      InsertNodeStep(t, k, v);
      if k < t.key {
        InsertNodeBalanced(t.left, k, v);
        RebalanceInsertBalanced(UpdateHeight(t.(left := InsertNode(t.left, k, v).0)), k);
      } else {
        InsertNodeBalanced(t.right, k, v);
        RebalanceInsertBalanced(UpdateHeight(t.(right := InsertNode(t.right, k, v).0)), k);
      }
    }
  }

  /** One step of avl_insert_node below a node whose key differs from k. */
  lemma InsertNodeStep<V>(t: Tree<V>, k: int, v: V)
    requires t.Node? && k != t.key
    ensures InsertNode(t, k, v).0 ==
      if k < t.key then RebalanceAfterInsert(UpdateHeight(t.(left := InsertNode(t.left, k, v).0)), k)
      else RebalanceAfterInsert(UpdateHeight(t.(right := InsertNode(t.right, k, v).0)), k)
  {
  }

  /**
   * The insert rebalancing: a node two taller on one side, whose taller child
   * leans towards where k went, becomes an AVL node as tall as the shorter
   * side plus two; a node already in balance is left alone.
   */
  lemma RebalanceInsertBalanced<V>(n: Tree<V>, k: int)
    requires n.Node? && Avl(n.left) && Avl(n.right)
    requires n.height == 1 + MaxInt(Height(n.left), Height(n.right))
    requires -2 <= BalanceOf(n) <= 2
    requires BalanceOf(n) == 2 ==>
      (n.left.Node? && ((k < n.left.key && BalanceOf(n.left) == 1) || (k > n.left.key && BalanceOf(n.left) == -1)))
    requires BalanceOf(n) == -2 ==>
      (n.right.Node? && ((k > n.right.key && BalanceOf(n.right) == -1) || (k < n.right.key && BalanceOf(n.right) == 1)))
    ensures Avl(RebalanceAfterInsert(n, k))
    ensures -1 <= BalanceOf(n) <= 1 ==> RebalanceAfterInsert(n, k) == n
    ensures BalanceOf(n) == 2 ==> Height(RebalanceAfterInsert(n, k)) == Height(n.right) + 2
    ensures BalanceOf(n) == -2 ==> Height(RebalanceAfterInsert(n, k)) == Height(n.left) + 2
  {
    if BalanceOf(n) == 2 {
      if k < n.left.key {
        RotateRightBalanced(n);
      } else {
        RotateLeftRightBalanced(n);
      }
    } else if BalanceOf(n) == -2 {
      if k > n.right.key {
        RotateLeftBalanced(n);
      } else {
        RotateRightLeftBalanced(n);
      }
    }
  }

  /** The delete rebalancing turns children of height difference at most 2 into an AVL node. */
  lemma RebalanceBalanced<V>(n: Tree<V>)
    requires n.Node? && Avl(n.left) && Avl(n.right)
    requires n.height == 1 + MaxInt(Height(n.left), Height(n.right))
    requires -2 <= BalanceOf(n) <= 2
    ensures Avl(RebalanceAfterDelete(n))
    ensures n.height - 1 <= Height(RebalanceAfterDelete(n)) <= n.height
  {
    HeightNonNegative(n.left);
    HeightNonNegative(n.right);
    if BalanceOf(n) > 1 {
      if BalanceOf(n.left) >= 0 {
        RotateRightBalanced(n);
      } else {
        RotateLeftRightBalanced(n);
      }
    } else if BalanceOf(n) < -1 {
      if BalanceOf(n.right) <= 0 {
        RotateLeftBalanced(n);
      } else {
        RotateRightLeftBalanced(n);
      }
    }
  }

  /** Deletion keeps the AVL shape and lowers the height by at most one. */
  lemma {:induction false} DeleteNodeBalanced<V>(t: Tree<V>, k: int)
    requires Avl(t)
    ensures Avl(DeleteNode(t, k).0)
    ensures Height(t) - 1 <= Height(DeleteNode(t, k).0) <= Height(t)
    decreases t
  {
    if t.Node? {
      HeightNonNegative(t.left);
      HeightNonNegative(t.right);
      if k == t.key && (t.left.Nil? || t.right.Nil?) {
      } else if k < t.key {
        DeleteNodeBalanced(t.left, k);
        RebalanceBalanced(UpdateHeight(t.(left := DeleteNode(t.left, k).0)));
      } else if k > t.key {
        DeleteNodeBalanced(t.right, k);
        RebalanceBalanced(UpdateHeight(t.(right := DeleteNode(t.right, k).0)));
      } else {
        var s := MinPair(t.right);
        DeleteNodeBalanced(t.right, s.0);
        RebalanceBalanced(UpdateHeight(t.(key := s.0, value := s.1, right := DeleteNode(t.right, s.0).0)));
      }
    }
  }
}
