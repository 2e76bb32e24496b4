/**
 * The binary search tree shared by tree.c, avl_tree.c and red_black_tree.c.
 * A tree_node is a value here: Nil stands for both NULL (AVL) and the shared
 * black sentinel (red-black), and parent pointers are implied by the nesting.
 * Keys are ints compared by their integer order, which stands for the
 * comparator. A tree's contents are its (key, value) pairs in in-order.
 */
module SearchTree {
  import opened Wrappers

  datatype Color = Red | Black

  /** A tree_node with the nodes below it: AVL nodes use height, red-black nodes use color. */
  datatype Tree<V> = Nil | Node(left: Tree<V>, key: int, value: V, right: Tree<V>, height: int, color: Color)

  /** The pairs the in-order walk meets, left subtree first. */
  function Pairs<V>(t: Tree<V>): seq<(int, V)>
  {
    if t.Nil? then [] else Pairs(t.left) + [(t.key, t.value)] + Pairs(t.right)
  }

  function KeysOf<V>(ps: seq<(int, V)>): set<int>
  {
    if ps == [] then {} else {ps[0].0} + KeysOf(ps[1..])
  }

  lemma {:induction false} KeysOfIndex<V>(ps: seq<(int, V)>, k: int)
    ensures k in KeysOf(ps) <==> exists i :: 0 <= i < |ps| && ps[i].0 == k
    decreases |ps|
  {
    if ps != [] {
      KeysOfIndex(ps[1..], k);
      if k in KeysOf(ps[1..]) {
        var i :| 0 <= i < |ps[1..]| && ps[1..][i].0 == k;
        assert ps[i + 1].0 == k;
      }
      if exists i :: 0 <= i < |ps| && ps[i].0 == k {
        var i :| 0 <= i < |ps| && ps[i].0 == k;
        if i > 0 {
          assert ps[1..][i - 1].0 == k;
        }
      }
    }
  }

  lemma {:induction false} KeysOfAppend<V>(a: seq<(int, V)>, b: seq<(int, V)>)
    ensures KeysOf(a + b) == KeysOf(a) + KeysOf(b)
    decreases |a|
  {
    if a == [] {
      assert a + b == b;
    } else {
      assert (a + b)[1..] == a[1..] + b;
      KeysOfAppend(a[1..], b);
    }
  }

  ghost predicate AllBelow<V>(ps: seq<(int, V)>, k: int)
  {
    forall i :: 0 <= i < |ps| ==> ps[i].0 < k
  }

  ghost predicate AllAbove<V>(ps: seq<(int, V)>, k: int)
  {
    forall i :: 0 <= i < |ps| ==> k < ps[i].0
  }

  lemma AboveKeys<V>(ps: seq<(int, V)>, k: int)
    ensures AllAbove(ps, k) <==> forall x :: x in KeysOf(ps) ==> k < x
  {
    if AllAbove(ps, k) {
      forall x | x in KeysOf(ps) ensures k < x {
        KeysOfIndex(ps, x);
      }
    } else {
      var i :| 0 <= i < |ps| && !(k < ps[i].0);
      KeysOfIndex(ps, ps[i].0);
    }
  }

  lemma BelowKeys<V>(ps: seq<(int, V)>, k: int)
    ensures AllBelow(ps, k) <==> forall x :: x in KeysOf(ps) ==> x < k
  {
    if AllBelow(ps, k) {
      forall x | x in KeysOf(ps) ensures x < k {
        KeysOfIndex(ps, x);
      }
    } else {
      var i :| 0 <= i < |ps| && !(ps[i].0 < k);
      KeysOfIndex(ps, ps[i].0);
    }
  }

  /** Keys strictly ascend, so no key occurs twice. */
  ghost predicate Sorted<V>(ps: seq<(int, V)>)
  {
    forall i, j :: 0 <= i < j < |ps| ==> ps[i].0 < ps[j].0
  }

  /** The search-tree order: the in-order keys strictly ascend. */
  ghost predicate Ordered<V>(t: Tree<V>)
  {
    Sorted(Pairs(t))
  }

  lemma OrderedChildren<V>(t: Tree<V>)
    requires t.Node? && Ordered(t)
    ensures Ordered(t.left) && Ordered(t.right)
    ensures AllBelow(Pairs(t.left), t.key) && AllAbove(Pairs(t.right), t.key)
  {
    var a, b := Pairs(t.left), Pairs(t.right);
    assert Pairs(t) == a + [(t.key, t.value)] + b;
    forall i, j | 0 <= i < j < |a| ensures a[i].0 < a[j].0 {
      assert Pairs(t)[i] == a[i] && Pairs(t)[j] == a[j];
    }
    forall i, j | 0 <= i < j < |b| ensures b[i].0 < b[j].0 {
      assert Pairs(t)[|a| + 1 + i] == b[i] && Pairs(t)[|a| + 1 + j] == b[j];
    }
    forall i | 0 <= i < |a| ensures a[i].0 < t.key {
      assert Pairs(t)[i] == a[i] && Pairs(t)[|a|] == (t.key, t.value);
    }
    forall i | 0 <= i < |b| ensures t.key < b[i].0 {
      assert Pairs(t)[|a| + 1 + i] == b[i] && Pairs(t)[|a|] == (t.key, t.value);
    }
  }

  /** The value stored under k, the first pair with that key. */
  function Lookup<V>(ps: seq<(int, V)>, k: int): (r: Option<V>)
    ensures r.None? <==> k !in KeysOf(ps)
  {
    if ps == [] then None else if ps[0].0 == k then Some(ps[0].1) else Lookup(ps[1..], k)
  }

  lemma {:induction false} LookupAppend<V>(a: seq<(int, V)>, b: seq<(int, V)>, k: int)
    ensures Lookup(a + b, k) == if k in KeysOf(a) then Lookup(a, k) else Lookup(b, k)
    decreases |a|
  {
    if a != [] {
      assert (a + b)[1..] == a[1..] + b;
      LookupAppend(a[1..], b, k);
    } else {
      assert a + b == b;
    }
  }

  /**
   * Insert-or-replace on a sorted sequence: the pair with key k gets value
   * v, or (k, v) is placed before the first larger key.
   */
  function Upsert<V>(ps: seq<(int, V)>, k: int, v: V): seq<(int, V)>
  {
    if ps == [] then [(k, v)]
    else if ps[0].0 == k then [(k, v)] + ps[1..]
    else if k < ps[0].0 then [(k, v)] + ps
    else [ps[0]] + Upsert(ps[1..], k, v)
  }

  /** Removal of the pair with key k, if there is one. */
  function Erase<V>(ps: seq<(int, V)>, k: int): seq<(int, V)>
  {
    if ps == [] then [] else if ps[0].0 == k then ps[1..] else [ps[0]] + Erase(ps[1..], k)
  }

  lemma {:induction false} UpsertFacts<V>(ps: seq<(int, V)>, k: int, v: V)
    requires Sorted(ps)
    ensures Sorted(Upsert(ps, k, v))
    ensures KeysOf(Upsert(ps, k, v)) == KeysOf(ps) + {k}
    ensures |Upsert(ps, k, v)| == if k in KeysOf(ps) then |ps| else |ps| + 1
    ensures forall j :: Lookup(Upsert(ps, k, v), j) == if j == k then Some(v) else Lookup(ps, j)
    decreases |ps|
  {
    if ps != [] {
      var r := Upsert(ps, k, v);
      assert AllAbove(ps[1..], ps[0].0);
      AboveKeys(ps[1..], ps[0].0);
      if ps[0].0 == k {
        assert r[1..] == ps[1..];
      } else if k < ps[0].0 {
        assert r[1..] == ps;
        AboveKeys(ps, k);
      } else {
        UpsertFacts(ps[1..], k, v);
        assert r[1..] == Upsert(ps[1..], k, v);
        AboveKeys(r[1..], ps[0].0);
      }
    }
  }

  lemma {:induction false} EraseFacts<V>(ps: seq<(int, V)>, k: int)
    requires Sorted(ps)
    ensures Sorted(Erase(ps, k))
    ensures KeysOf(Erase(ps, k)) == KeysOf(ps) - {k}
    ensures |Erase(ps, k)| == if k in KeysOf(ps) then |ps| - 1 else |ps|
    ensures forall j :: Lookup(Erase(ps, k), j) == if j == k then None else Lookup(ps, j)
    decreases |ps|
  {
    if ps != [] {
      assert AllAbove(ps[1..], ps[0].0);
      AboveKeys(ps[1..], ps[0].0);
      if ps[0].0 != k {
        EraseFacts(ps[1..], k);
        var r := Erase(ps, k);
        assert r[1..] == Erase(ps[1..], k);
        AboveKeys(r[1..], ps[0].0);
      }
    }
  }

  /** Upsert only touches the part of the sequence from the first key at least k. */
  lemma {:induction false} UpsertAfter<V>(a: seq<(int, V)>, b: seq<(int, V)>, k: int, v: V)
    requires AllBelow(a, k)
    ensures Upsert(a + b, k, v) == a + Upsert(b, k, v)
    decreases |a|
  {
    if a == [] {
      assert a + b == b;
    } else {
      assert (a + b)[1..] == a[1..] + b;
      UpsertAfter(a[1..], b, k, v);
    }
  }

  lemma {:induction false} UpsertBefore<V>(a: seq<(int, V)>, c: seq<(int, V)>, k: int, v: V)
    requires AllAbove(c, k)
    ensures Upsert(a + c, k, v) == Upsert(a, k, v) + c
    decreases |a|
  {
    if a == [] {
      assert a + c == c;
    } else {
      assert (a + c)[1..] == a[1..] + c;
      UpsertBefore(a[1..], c, k, v);
    }
  }

  lemma {:induction false} EraseAfter<V>(a: seq<(int, V)>, b: seq<(int, V)>, k: int)
    requires k !in KeysOf(a)
    ensures Erase(a + b, k) == a + Erase(b, k)
    decreases |a|
  {
    if a == [] {
      assert a + b == b;
    } else {
      assert (a + b)[1..] == a[1..] + b;
      EraseAfter(a[1..], b, k);
    }
  }

  lemma {:induction false} EraseBefore<V>(a: seq<(int, V)>, c: seq<(int, V)>, k: int)
    requires k !in KeysOf(c)
    ensures Erase(a + c, k) == Erase(a, k) + c
    decreases |a|
  {
    if a == [] {
      assert a + c == c;
      EraseAfter(c, [], k);
      assert c + [] == c;
    } else {
      assert (a + c)[1..] == a[1..] + c;
      EraseBefore(a[1..], c, k);
    }
  }

  /** With every key of a below k and every key of c above it, only the middle part p is touched. */
  lemma UpsertMiddle<V>(a: seq<(int, V)>, p: seq<(int, V)>, c: seq<(int, V)>, k: int, v: V)
    requires AllBelow(a, k) && AllAbove(c, k)
    ensures Upsert(a + p + c, k, v) == a + Upsert(p, k, v) + c
  {
    assert a + p + c == a + (p + c);
    UpsertAfter(a, p + c, k, v);
    UpsertBefore(p, c, k, v);
  }

  lemma EraseMiddle<V>(a: seq<(int, V)>, p: seq<(int, V)>, c: seq<(int, V)>, k: int)
    requires AllBelow(a, k) && AllAbove(c, k)
    ensures Erase(a + p + c, k) == a + Erase(p, k) + c
    ensures k in KeysOf(a + p + c) <==> k in KeysOf(p)
  {
    BelowKeys(a, k);
    AboveKeys(c, k);
    assert a + p + c == a + (p + c);
    EraseAfter(a, p + c, k);
    EraseBefore(p, c, k);
    assert a + (Erase(p, k) + c) == a + Erase(p, k) + c;
    KeysMiddle(a, p, c, k);
  }

  lemma KeysMiddle<V>(a: seq<(int, V)>, p: seq<(int, V)>, c: seq<(int, V)>, k: int)
    requires AllBelow(a, k) && AllAbove(c, k)
    ensures k in KeysOf(a + p + c) <==> k in KeysOf(p)
  {
    BelowKeys(a, k);
    AboveKeys(c, k);
    KeysOfAppend(a + p, c);
    KeysOfAppend(a, p);
  }

  /** The pairs whose keys satisfy f, in order. */
  ghost function Keep<V>(ps: seq<(int, V)>, f: int -> bool): seq<(int, V)>
  {
    if ps == [] then [] else (if f(ps[0].0) then [ps[0]] else []) + Keep(ps[1..], f)
  }

  /**
   * Upsert on an ordered node: a key below the node's goes into the left
   * subtree's pairs, one above into the right's, and the node's own key
   * replaces the node's value.
   */
  lemma UpsertNode<V>(t: Tree<V>, k: int, v: V)
    requires t.Node? && Ordered(t)
    ensures var a, m, b := Pairs(t.left), [(t.key, t.value)], Pairs(t.right);
      (k < t.key ==> Upsert(Pairs(t), k, v) == Upsert(a, k, v) + (m + b) &&
                     (k in KeysOf(Pairs(t)) <==> k in KeysOf(a))) &&
      (k > t.key ==> Upsert(Pairs(t), k, v) == (a + m) + Upsert(b, k, v) &&
                     (k in KeysOf(Pairs(t)) <==> k in KeysOf(b))) &&
      (k == t.key ==> Upsert(Pairs(t), k, v) == a + ([(k, v)] + b) && k in KeysOf(Pairs(t)))
  {
    OrderedChildren(t);
    if k < t.key {
      UpsertNodeBelow(t, k, v);
    } else if k > t.key {
      UpsertNodeAbove(t, k, v);
    } else {
      UpsertNodeAt(t, v);
    }
  }

  lemma UpsertNodeBelow<V>(t: Tree<V>, k: int, v: V)
    requires t.Node? && k < t.key && AllAbove(Pairs(t.right), t.key)
    ensures var a, m, b := Pairs(t.left), [(t.key, t.value)], Pairs(t.right);
      Upsert(Pairs(t), k, v) == Upsert(a, k, v) + (m + b) && (k in KeysOf(Pairs(t)) <==> k in KeysOf(a))
  {
    KeysOfNode(t);
    var a, m, b := Pairs(t.left), [(t.key, t.value)], Pairs(t.right);
    assert Pairs(t) == a + (m + b);
    AboveKeys(b, t.key);
    assert AllAbove(m + b, k);
    UpsertBefore(a, m + b, k, v);
  }

  lemma UpsertNodeAbove<V>(t: Tree<V>, k: int, v: V)
    requires t.Node? && k > t.key && AllBelow(Pairs(t.left), t.key)
    ensures var a, m, b := Pairs(t.left), [(t.key, t.value)], Pairs(t.right);
      Upsert(Pairs(t), k, v) == (a + m) + Upsert(b, k, v) && (k in KeysOf(Pairs(t)) <==> k in KeysOf(b))
  {
    KeysOfNode(t);
    var a, m, b := Pairs(t.left), [(t.key, t.value)], Pairs(t.right);
    assert Pairs(t) == (a + m) + b;
    BelowKeys(a, t.key);
    assert AllBelow(a + m, k);
    UpsertAfter(a + m, b, k, v);
  }

  lemma UpsertNodeAt<V>(t: Tree<V>, v: V)
    requires t.Node? && AllBelow(Pairs(t.left), t.key)
    ensures var a, b := Pairs(t.left), Pairs(t.right);
      Upsert(Pairs(t), t.key, v) == a + ([(t.key, v)] + b) && t.key in KeysOf(Pairs(t))
  {
    KeysOfNode(t);
    var a, m, b := Pairs(t.left), [(t.key, t.value)], Pairs(t.right);
    assert Pairs(t) == a + (m + b);
    UpsertAfter(a, m + b, t.key, v);
    assert (m + b)[1..] == b;
  }

  /** Erase on an ordered node, split the same way; the node's own key leaves both subtrees' pairs. */
  lemma EraseNode<V>(t: Tree<V>, k: int)
    requires t.Node? && Ordered(t)
    ensures var a, m, b := Pairs(t.left), [(t.key, t.value)], Pairs(t.right);
      (k < t.key ==> Erase(Pairs(t), k) == Erase(a, k) + (m + b) &&
                     (k in KeysOf(Pairs(t)) <==> k in KeysOf(a))) &&
      (k > t.key ==> Erase(Pairs(t), k) == (a + m) + Erase(b, k) &&
                     (k in KeysOf(Pairs(t)) <==> k in KeysOf(b))) &&
      (k == t.key ==> Erase(Pairs(t), k) == a + b && k in KeysOf(Pairs(t)))
  {
    OrderedChildren(t);
    if k < t.key {
      EraseNodeBelow(t, k);
    } else if k > t.key {
      EraseNodeAbove(t, k);
    } else {
      EraseNodeAt(t);
    }
  }

  lemma EraseNodeBelow<V>(t: Tree<V>, k: int)
    requires t.Node? && k < t.key && AllAbove(Pairs(t.right), t.key)
    ensures var a, m, b := Pairs(t.left), [(t.key, t.value)], Pairs(t.right);
      Erase(Pairs(t), k) == Erase(a, k) + (m + b) && (k in KeysOf(Pairs(t)) <==> k in KeysOf(a))
  {
    KeysOfNode(t);
    var a, m, b := Pairs(t.left), [(t.key, t.value)], Pairs(t.right);
    assert Pairs(t) == a + (m + b);
    AboveKeys(b, t.key);
    KeysOfAppend(m, b);
    assert m[1..] == [];
    EraseBefore(a, m + b, k);
  }

  lemma EraseNodeAbove<V>(t: Tree<V>, k: int)
    requires t.Node? && k > t.key && AllBelow(Pairs(t.left), t.key)
    ensures var a, m, b := Pairs(t.left), [(t.key, t.value)], Pairs(t.right);
      Erase(Pairs(t), k) == (a + m) + Erase(b, k) && (k in KeysOf(Pairs(t)) <==> k in KeysOf(b))
  {
    KeysOfNode(t);
    var a, m, b := Pairs(t.left), [(t.key, t.value)], Pairs(t.right);
    assert Pairs(t) == (a + m) + b;
    BelowKeys(a, t.key);
    KeysOfAppend(a, m);
    assert m[1..] == [];
    EraseAfter(a + m, b, k);
  }

  lemma EraseNodeAt<V>(t: Tree<V>)
    requires t.Node? && AllBelow(Pairs(t.left), t.key)
    ensures var a, b := Pairs(t.left), Pairs(t.right);
      Erase(Pairs(t), t.key) == a + b && t.key in KeysOf(Pairs(t))
  {
    KeysOfNode(t);
    var a, m, b := Pairs(t.left), [(t.key, t.value)], Pairs(t.right);
    assert Pairs(t) == a + (m + b);
    BelowKeys(a, t.key);
    EraseAfter(a, m + b, t.key);
    assert (m + b)[1..] == b;
  }

  lemma KeysOfNode<V>(t: Tree<V>)
    requires t.Node?
    ensures KeysOf(Pairs(t)) == KeysOf(Pairs(t.left)) + {t.key} + KeysOf(Pairs(t.right))
  {
    var a, m, b := Pairs(t.left), [(t.key, t.value)], Pairs(t.right);
    assert Pairs(t) == a + m + b;
    KeysOfAppend(a + m, b);
    KeysOfAppend(a, m);
    assert m[1..] == [];
  }

  lemma {:induction false} KeepAppend<V>(a: seq<(int, V)>, b: seq<(int, V)>, f: int -> bool)
    ensures Keep(a + b, f) == Keep(a, f) + Keep(b, f)
    decreases |a|
  {
    if a == [] {
      assert a + b == b;
    } else {
      assert (a + b)[1..] == a[1..] + b;
      KeepAppend(a[1..], b, f);
    }
  }

  lemma {:induction false} KeepAll<V>(ps: seq<(int, V)>, f: int -> bool)
    requires forall i :: 0 <= i < |ps| ==> f(ps[i].0)
    ensures Keep(ps, f) == ps
    decreases |ps|
  {
    if ps != [] {
      KeepAll(ps[1..], f);
    }
  }

  lemma {:induction false} KeepNone<V>(ps: seq<(int, V)>, f: int -> bool)
    requires forall i :: 0 <= i < |ps| ==> !f(ps[i].0)
    ensures Keep(ps, f) == []
    decreases |ps|
  {
    if ps != [] {
      KeepNone(ps[1..], f);
    }
  }

  /** A node's pairs split around its key under a filter. */
  lemma KeepNode<V>(t: Tree<V>, f: int -> bool)
    requires t.Node?
    ensures Keep(Pairs(t), f) == Keep(Pairs(t.left), f) + (if f(t.key) then [(t.key, t.value)] else []) + Keep(Pairs(t.right), f)
  {
    var a, m, b := Pairs(t.left), [(t.key, t.value)], Pairs(t.right);
    assert Pairs(t) == a + m + b;
    KeepAppend(a + m, b, f);
    KeepAppend(a, m, f);
    assert Keep(m, f) == if f(t.key) then m else [] by {
      assert m[1..] == [];
    }
  }

  function Values<V>(ps: seq<(int, V)>): (r: seq<V>)
    ensures |r| == |ps| && forall i :: 0 <= i < |ps| ==> r[i] == ps[i].1
  {
    if ps == [] then [] else [ps[0].1] + Values(ps[1..])
  }

  lemma {:induction false} ValuesAppend<V>(a: seq<(int, V)>, b: seq<(int, V)>)
    ensures Values(a + b) == Values(a) + Values(b)
  {
  }

  /** The value of the last pair, or None for no pair. */
  function LastValue<V>(ps: seq<(int, V)>): Option<V>
  {
    if ps == [] then None else Some(ps[|ps| - 1].1)
  }

  function FirstValue<V>(ps: seq<(int, V)>): Option<V>
  {
    if ps == [] then None else Some(ps[0].1)
  }

  /** In an ordered node, the key order tells which part can hold k. */
  lemma LookupNode<V>(t: Tree<V>, k: int)
    requires t.Node? && Ordered(t)
    ensures Ordered(t.left) && Ordered(t.right)
    ensures Lookup(Pairs(t), k) ==
      if k == t.key then Some(t.value) else if k < t.key then Lookup(Pairs(t.left), k) else Lookup(Pairs(t.right), k)
  {
    OrderedChildren(t);
    var a, m, b := Pairs(t.left), [(t.key, t.value)], Pairs(t.right);
    assert Pairs(t) == a + m + b;
    LookupAppend(a + m, b, k);
    LookupAppend(a, m, k);
    KeysOfAppend(a, m);
    BelowKeys(a, t.key);
    AboveKeys(b, t.key);
    assert m[1..] == [];
    assert KeysOf(m) == {t.key};
    assert Lookup(m, k) == if k == t.key then Some(t.value) else None;
    if k == t.key {
      assert k !in KeysOf(a);
    } else if k < t.key {
      assert k !in KeysOf(b);
      assert Lookup(b, k) == None;
    } else {
      assert k !in KeysOf(a) && k !in KeysOf(a + m);
    }
  }

  /** The filters of the ordered queries: keys below k, keys above k, keys within [low, high]. */
  function Below(k: int): int -> bool { x => x < k }
  function Above(k: int): int -> bool { x => x > k }
  function Within(low: int, high: int): int -> bool { x => low <= x <= high }

  /** The first of two answers that is present. */
  function OrElse<V>(a: Option<V>, b: Option<V>): Option<V>
  {
    if a.Some? then a else b
  }

  /**
   * tree_search_node: go left on a smaller key, right on a larger, stop on an
   * equal one; the value stored under k, or None when the walk falls off.
   */
  method SearchNode<V>(t: Tree<V>, k: int) returns (r: Option<V>)
    requires Ordered(t)
    ensures r == Lookup(Pairs(t), k)
    ensures r.None? <==> k !in KeysOf(Pairs(t))
  {
    var cur := t;
    while cur.Node?
      invariant Ordered(cur) && Lookup(Pairs(cur), k) == Lookup(Pairs(t), k)
      decreases cur
    {
      LookupNode(cur, k);
      if k == cur.key {
        return Some(cur.value);
      }
      cur := if k < cur.key then cur.left else cur.right;
    }
    return None;
  }

  /** tree_min_node: follow left children; the value of the smallest key, None for an empty tree. */
  method MinNode<V>(t: Tree<V>) returns (r: Option<V>)
    ensures r == FirstValue(Pairs(t))
    ensures r.None? <==> t.Nil?
  {
    if t.Nil? {
      return None;
    }
    var cur := t;
    while cur.left.Node?
      invariant cur.Node? && FirstValue(Pairs(cur)) == FirstValue(Pairs(t))
      decreases cur
    {
      assert Pairs(cur)[0] == Pairs(cur.left)[0];
      cur := cur.left;
    }
    assert Pairs(cur)[0] == (cur.key, cur.value);
    return Some(cur.value);
  }

  /** tree_max_node: follow right children; the value of the largest key, None for an empty tree. */
  method MaxNode<V>(t: Tree<V>) returns (r: Option<V>)
    ensures r == LastValue(Pairs(t))
    ensures r.None? <==> t.Nil?
  {
    if t.Nil? {
      return None;
    }
    var cur := t;
    while cur.right.Node?
      invariant cur.Node? && LastValue(Pairs(cur)) == LastValue(Pairs(t))
      decreases cur
    {
      assert Pairs(cur)[|Pairs(cur)| - 1] == Pairs(cur.right)[|Pairs(cur.right)| - 1];
      cur := cur.right;
    }
    assert Pairs(cur)[|Pairs(cur)| - 1] == (cur.key, cur.value);
    return Some(cur.value);
  }

  /** In an ordered sequence the first value is that of the smallest key, the last that of the largest. */
  lemma EndsAreExtremes<V>(ps: seq<(int, V)>)
    requires Sorted(ps) && ps != []
    ensures FirstValue(ps) == Some(ps[0].1) && LastValue(ps) == Some(ps[|ps| - 1].1)
    ensures forall i :: 0 <= i < |ps| ==> ps[0].0 <= ps[i].0 <= ps[|ps| - 1].0
  {
  }

  /**
   * One step of tree_predecessor at an ordered node: when k is not above the
   * node's key the answer lies in the left subtree; otherwise it is the
   * right subtree's answer, or the node itself when that has none.
   */
  lemma PredecessorNode<V>(t: Tree<V>, k: int)
    requires t.Node? && Ordered(t)
    ensures Ordered(t.left) && Ordered(t.right)
    ensures k <= t.key ==> LastValue(Keep(Pairs(t), Below(k))) == LastValue(Keep(Pairs(t.left), Below(k)))
    ensures k > t.key ==> LastValue(Keep(Pairs(t), Below(k))) == OrElse(LastValue(Keep(Pairs(t.right), Below(k))), Some(t.value))
  {
    OrderedChildren(t);
    KeepNode(t, Below(k));
    PredecessorParts(Pairs(t.left), (t.key, t.value), Pairs(t.right), k);
  }

  /** PredecessorNode on the three parts of a node's in-order pairs. */
  lemma PredecessorParts<V>(a: seq<(int, V)>, p: (int, V), b: seq<(int, V)>, k: int)
    requires AllBelow(a, p.0) && AllAbove(b, p.0)
    ensures var f := Below(k); var ka, kb := Keep(a, f), Keep(b, f);
      var all := ka + (if f(p.0) then [p] else []) + kb;
      (k <= p.0 ==> LastValue(all) == LastValue(ka)) &&
      (k > p.0 ==> LastValue(all) == OrElse(LastValue(kb), Some(p.1)))
  {
    var f := Below(k);
    var ka, kb := Keep(a, f), Keep(b, f);
    if k <= p.0 {
      KeepNone(b, f);
      assert ka + [] + kb == ka;
    } else {
      if kb == [] {
        assert ka + [p] + kb == ka + [p];
      }
    }
  }

  /** One step of tree_successor, the mirror image of PredecessorNode. */
  lemma SuccessorNode<V>(t: Tree<V>, k: int)
    requires t.Node? && Ordered(t)
    ensures Ordered(t.left) && Ordered(t.right)
    ensures k >= t.key ==> FirstValue(Keep(Pairs(t), Above(k))) == FirstValue(Keep(Pairs(t.right), Above(k)))
    ensures k < t.key ==> FirstValue(Keep(Pairs(t), Above(k))) == OrElse(FirstValue(Keep(Pairs(t.left), Above(k))), Some(t.value))
  {
    OrderedChildren(t);
    KeepNode(t, Above(k));
    SuccessorParts(Pairs(t.left), (t.key, t.value), Pairs(t.right), k);
  }

  /** SuccessorNode on the three parts of a node's in-order pairs. */
  lemma SuccessorParts<V>(a: seq<(int, V)>, p: (int, V), b: seq<(int, V)>, k: int)
    requires AllBelow(a, p.0) && AllAbove(b, p.0)
    ensures var f := Above(k); var ka, kb := Keep(a, f), Keep(b, f);
      var all := ka + (if f(p.0) then [p] else []) + kb;
      (k >= p.0 ==> FirstValue(all) == FirstValue(kb)) &&
      (k < p.0 ==> FirstValue(all) == OrElse(FirstValue(ka), Some(p.1)))
  {
    var f := Above(k);
    var ka, kb := Keep(a, f), Keep(b, f);
    if k >= p.0 {
      KeepNone(a, f);
      assert ka + [] + kb == kb;
    } else if ka == [] {
      assert (ka + [p] + kb)[0] == p;
    } else {
      assert (ka + [p] + kb)[0] == ka[0];
    }
  }

  /**
   * The answer tree_predecessor looks for: the value of the largest key below
   * k, which is the pair at the last position i whose key is below k.
   */
  lemma {:induction false} PredecessorIs<V>(ps: seq<(int, V)>, k: int, i: int)
    requires Sorted(ps) && 0 <= i < |ps| && ps[i].0 < k && (i + 1 == |ps| || ps[i + 1].0 >= k)
    ensures LastValue(Keep(ps, Below(k))) == Some(ps[i].1)
  {
    var f := Below(k);
    var front, back := ps[..i], ps[i + 1..];
    assert ps == front + [ps[i]] + back;
    KeepNone(back, f);
    KeepAppend(front + [ps[i]], back, f);
    KeepAppend(front, [ps[i]], f);
    assert Keep([ps[i]], f) == [ps[i]] by {
      assert [ps[i]][1..] == [];
    }
  }

  /** With no key below k there is no predecessor. */
  lemma PredecessorNone<V>(ps: seq<(int, V)>, k: int)
    requires forall i :: 0 <= i < |ps| ==> ps[i].0 >= k
    ensures LastValue(Keep(ps, Below(k))) == None
  {
    KeepNone(ps, Below(k));
  }

  /** The answer tree_successor looks for: the value of the smallest key above k. */
  lemma {:induction false} SuccessorIs<V>(ps: seq<(int, V)>, k: int, i: int)
    requires Sorted(ps) && 0 <= i < |ps| && ps[i].0 > k && (i == 0 || ps[i - 1].0 <= k)
    ensures FirstValue(Keep(ps, Above(k))) == Some(ps[i].1)
  {
    var f := Above(k);
    var front, back := ps[..i], ps[i + 1..];
    assert ps == front + ([ps[i]] + back);
    KeepNone(front, f);
    KeepAppend(front, [ps[i]] + back, f);
    KeepAppend([ps[i]], back, f);
    assert Keep([ps[i]], f) == [ps[i]] by {
      assert [ps[i]][1..] == [];
    }
  }

  /** With no key above k there is no successor. */
  lemma SuccessorNone<V>(ps: seq<(int, V)>, k: int)
    requires forall i :: 0 <= i < |ps| ==> ps[i].0 <= k
    ensures FirstValue(Keep(ps, Above(k))) == None
  {
    KeepNone(ps, Above(k));
  }

  /**
   * tree_predecessor: the cursor goes left while k is not above the node's
   * key, otherwise it remembers the node as the best so far and goes right.
   */
  method PredecessorWalk<V>(t: Tree<V>, k: int) returns (r: Option<V>)
    requires Ordered(t)
    ensures r == LastValue(Keep(Pairs(t), Below(k)))
  {
    var cur, best := t, None;
    while cur.Node?
      invariant Ordered(cur)
      invariant LastValue(Keep(Pairs(t), Below(k))) == OrElse(LastValue(Keep(Pairs(cur), Below(k))), best)
      decreases cur
    {
      PredecessorNode(cur, k);
      if k <= cur.key {
        cur := cur.left;
      } else {
        best := Some(cur.value);
        cur := cur.right;
      }
    }
    return best;
  }

  /** tree_successor: the mirror image, remembering nodes whose key is above k and going left. */
  method SuccessorWalk<V>(t: Tree<V>, k: int) returns (r: Option<V>)
    requires Ordered(t)
    ensures r == FirstValue(Keep(Pairs(t), Above(k)))
  {
    var cur, best := t, None;
    while cur.Node?
      invariant Ordered(cur)
      invariant FirstValue(Keep(Pairs(t), Above(k))) == OrElse(FirstValue(Keep(Pairs(cur), Above(k))), best)
      decreases cur
    {
      SuccessorNode(cur, k);
      if k >= cur.key {
        cur := cur.right;
      } else {
        best := Some(cur.value);
        cur := cur.left;
      }
    }
    return best;
  }

  /**
   * tree_range_query_node: visit the left subtree only when the node's key is
   * above low, keep the node when low <= key <= high, and visit the right
   * subtree only when the key is below high. The values come out in key order.
   */
  function RangeQuery<V>(t: Tree<V>, low: int, high: int): (r: seq<V>)
    requires Ordered(t)
    ensures r == Values(Keep(Pairs(t), Within(low, high)))
  {
    if t.Nil? then []
    else
      RangeSplit(t, low, high);
      var l := if t.key > low then RangeQuery(t.left, low, high) else [];
      var m := if low <= t.key && t.key <= high then [t.value] else [];
      var h := if t.key < high then RangeQuery(t.right, low, high) else [];
      l + m + h
  }

  /** The in-range pairs of a node, skipping a subtree the key order puts out of range. */
  lemma RangeSplit<V>(t: Tree<V>, low: int, high: int)
    requires t.Node? && Ordered(t)
    ensures Ordered(t.left) && Ordered(t.right)
    ensures Values(Keep(Pairs(t), Within(low, high))) ==
      (if t.key > low then Values(Keep(Pairs(t.left), Within(low, high))) else []) +
      (if low <= t.key <= high then [t.value] else []) +
      (if t.key < high then Values(Keep(Pairs(t.right), Within(low, high))) else [])
  {
    OrderedChildren(t);
    var f := Within(low, high);
    KeepNode(t, f);
    if !(t.key > low) {
      KeepNone(Pairs(t.left), f);
    }
    if !(t.key < high) {
      KeepNone(Pairs(t.right), f);
    }
    var mid := if f(t.key) then [(t.key, t.value)] else [];
    ValuesAppend(Keep(Pairs(t.left), f), mid);
    ValuesAppend(Keep(Pairs(t.left), f) + mid, Keep(Pairs(t.right), f));
  }

  /** The pairs with keys within [low, high] of a sorted sequence are a sorted subsequence. */
  lemma {:induction false} KeepSorted<V>(ps: seq<(int, V)>, f: int -> bool)
    requires Sorted(ps)
    ensures Sorted(Keep(ps, f))
    ensures forall i :: 0 <= i < |Keep(ps, f)| ==> f(Keep(ps, f)[i].0) && Keep(ps, f)[i].0 in KeysOf(ps)
    decreases |ps|
  {
    if ps != [] {
      var rest := Keep(ps[1..], f);
      KeepSorted(ps[1..], f);
      assert AllAbove(ps[1..], ps[0].0);
      AboveKeys(ps[1..], ps[0].0);
      forall i | 0 <= i < |rest| ensures ps[0].0 < rest[i].0 {
        assert rest[i].0 in KeysOf(ps[1..]);
      }
      assert KeysOf(ps) == {ps[0].0} + KeysOf(ps[1..]);
    }
  }
}
