/**
 * trie.c: a byte-wise trie of C strings. Every node has up to 255 children
 * (one per non-NUL byte), an end-of-word flag with its value, the number of
 * words stored in its subtree and the number of its children. The nodes are
 * modelled as values; insertion and deletion rebuild the path they touch.
 */
module Tries {
  import opened Wrappers
  import opened ListSpec

  /** TRIE_ALPHABET_SIZE: the children array has one slot per byte value. */
  const AlphabetSize: int := 256

  /** A byte a C string can hold before its terminator. */
  type Char = c: int | 1 <= c < 256 witness 1

  /** A word is the bytes of a C string without its terminator. */
  type Word = seq<Char>

  datatype Node<V> = Node(children: map<Char, Node<V>>, isEnd: bool, value: Option<V>,
                          subtreeWords: nat, childCount: nat)

  /** trie_node_create: a zeroed node. */
  function EmptyNode<V>(): (r: Node<V>)
    ensures r.children == map[] && !r.isEnd && r.subtreeWords == 0
  {
    Node(map[], false, None, 0, 0)
  }

  // ---------------------------------------------------------------------
  // Reference definitions
  // ---------------------------------------------------------------------

  /** The value stored for word w below n, None when w is not stored. */
  ghost function Lookup<V>(n: Node<V>, w: Word): Option<V>
    decreases |w|
  {
    if w == [] then (if n.isEnd then n.value else None)
    else if w[0] in n.children then Lookup(n.children[w[0]], w[1..])
    else None
  }

  /** The node reached from n by following the bytes of p, if every edge exists. */
  ghost function WalkTo<V>(n: Node<V>, p: Word): Option<Node<V>>
    decreases |p|
  {
    if p == [] then Some(n)
    else if p[0] in n.children then WalkTo(n.children[p[0]], p[1..])
    else None
  }

  /** The number of words stored in the subtree of n. */
  ghost function Count<V>(n: Node<V>): nat
    decreases n, 257
  {
    (if n.isEnd then 1 else 0) + CountFrom(n, 0)
  }

  /** The number of words stored below the children of n with byte c or above. */
  ghost function CountFrom<V>(n: Node<V>, c: int): nat
    decreases n, 256 - c
  {
    if c >= AlphabetSize then 0 else ChildWords(n, c) + CountFrom(n, c + 1)
  }

  /** The number of words below the child of n for byte c (0 if there is none). */
  ghost function ChildWords<V>(n: Node<V>, c: int): nat
    decreases n, 0
  {
    if 1 <= c < AlphabetSize && c in n.children then Count(n.children[c]) else 0
  }

  /**
   * The words of the subtree of n, each prefixed by p, in the order the
   * collector visits them: the node's own word first, then each child in
   * ascending byte order.
   */
  ghost function Enumerate<V>(n: Node<V>, p: Word): seq<Word>
    decreases n, 257
  {
    (if n.isEnd then [p] else []) + EnumFrom(n, p, 0)
  }

  /** The words below the children of n with byte c or above, prefixed by p. */
  ghost function EnumFrom<V>(n: Node<V>, p: Word, c: int): seq<Word>
    decreases n, 256 - c
  {
    if c >= AlphabetSize then [] else Branch(n, p, c) + EnumFrom(n, p, c + 1)
  }

  /** The words below the child of n for byte c, prefixed by p and c. */
  ghost function Branch<V>(n: Node<V>, p: Word, c: int): seq<Word>
    decreases n, 0
  {
    if 1 <= c < AlphabetSize && c in n.children then Enumerate(n.children[c], p + [c as Char]) else []
  }

  /**
   * The node invariant the operations keep: a node holds a value exactly
   * when it ends a word, the counters agree with the subtree, and every
   * child holds at least one word (empty non-root nodes are pruned).
   */
  ghost predicate WellFormed<V>(n: Node<V>)
    decreases n
  {
    (n.isEnd <==> n.value.Some?) && n.subtreeWords == Count(n) && n.childCount == |n.children| &&
    forall c :: c in n.children ==> Count(n.children[c]) > 0 && WellFormed(n.children[c])
  }

  /** strcmp order on unsigned bytes: a proper prefix comes first. */
  ghost predicate LexLess(a: Word, b: Word)
    decreases |a|
  {
    |b| > 0 && (|a| == 0 || a[0] < b[0] || (a[0] == b[0] && LexLess(a[1..], b[1..])))
  }

  ghost predicate Ascending(s: seq<Word>)
  {
    forall i, j :: 0 <= i < j < |s| ==> LexLess(s[i], s[j])
  }

  /** The stored words of the subtree of n that begin with p. */
  ghost function Prefixed<V>(n: Node<V>, p: Word): set<Word>
  {
    set w | w in Enumerate(n, []) && |p| <= |w| && w[..|p|] == p
  }

  // ---------------------------------------------------------------------
  // Node operations
  // ---------------------------------------------------------------------

  /** trie_walk: follow the bytes of p from n; None as soon as an edge is missing. */
  method Walk<V>(n: Node<V>, p: Word) returns (r: Option<Node<V>>)
    ensures r == WalkTo(n, p)
  {
    var node := n;
    var i := 0;
    while i < |p|
      invariant 0 <= i <= |p|
      invariant WalkTo(n, p) == WalkTo(node, p[i..])
    {
      assert p[i..][1..] == p[i + 1..];
      if p[i] !in node.children {
        return None;
      }
      node := node.children[p[i]];
      i := i + 1;
    }
    assert p[i..] == [];
    r := Some(node);
  }

  /** The child of n for byte c, or a fresh empty node where there is none. */
  function ChildOrEmpty<V>(n: Node<V>, c: Char): Node<V>
  {
    if c in n.children then n.children[c] else EmptyNode()
  }

  datatype Insertion<V> = Insertion(node: Node<V>, added: bool)

  /**
   * trie_insert below n: missing nodes on the path are created (and counted
   * as children), the end node takes the value, and only when it was not
   * already a word is it marked and are the word counts on the path raised.
   */
  function InsertPath<V>(n: Node<V>, w: Word, v: V): Insertion<V>
    decreases |w|
  {
    if w == [] then
      if n.isEnd then Insertion(n.(value := Some(v)), false)
      else Insertion(n.(isEnd := true, value := Some(v), subtreeWords := n.subtreeWords + 1), true)
    else
      var c := w[0];
      var d := InsertPath(ChildOrEmpty(n, c), w[1..], v);
      Insertion(n.(children := n.children[c := d.node],
                   childCount := if c in n.children then n.childCount else n.childCount + 1,
                   subtreeWords := if d.added then n.subtreeWords + 1 else n.subtreeWords),
                d.added)
  }

  datatype Deletion<V> = Deletion(node: Node<V>, removed: bool, prune: bool)

  /**
   * trie_delete_recursive: unmark the end node of w, lower the counters on
   * the path, drop the children that report they became empty, and report
   * whether this node should in turn be dropped (never the root).
   */
  function DeleteNode<V>(n: Node<V>, w: Word, isRoot: bool): Deletion<V>
    decreases |w|
  {
    if w == [] then
      if !n.isEnd then Deletion(n, false, false)
      else
        var n' := n.(isEnd := false, value := None,
                     subtreeWords := if n.subtreeWords > 0 then n.subtreeWords - 1 else 0);
        Deletion(n', true, !isRoot && n.childCount == 0)
    else if w[0] !in n.children then Deletion(n, false, false)
    else
      var c := w[0];
      var d := DeleteNode(n.children[c], w[1..], false);
      if !d.removed then Deletion(n, false, false)
      else
        var count := if d.prune && n.childCount > 0 then n.childCount - 1 else n.childCount;
        var n' := n.(children := if d.prune then n.children - {c} else n.children[c := d.node],
                     childCount := count,
                     subtreeWords := if n.subtreeWords > 0 then n.subtreeWords - 1 else 0);
        Deletion(n', true, !isRoot && !n.isEnd && count == 0)
  }

  /**
   * trie_collect_words: append to out every word of the subtree of n, each
   * prefixed by p, the node's own word first and then the children in
   * ascending byte order.
   */
  method Collect<V>(n: Node<V>, p: Word, out: seq<Word>) returns (r: seq<Word>)
    ensures r == out + Enumerate(n, p)
    decreases n
  {
    r := out;
    if n.isEnd {
      r := r + [p];
    }
    for i := 0 to AlphabetSize
      invariant r + EnumFrom(n, p, i) == out + Enumerate(n, p)
    {
      ghost var before := r;
      if 1 <= i && i in n.children {
        r := Collect(n.children[i], p + [i as Char], r);
      }
      assert r == before + Branch(n, p, i);
      assert r + EnumFrom(n, p, i + 1) == before + (Branch(n, p, i) + EnumFrom(n, p, i + 1));
    }
  }

  // ---------------------------------------------------------------------
  // Lemmas on counting
  // ---------------------------------------------------------------------

  lemma {:induction false} CountFromNoChildren<V>(n: Node<V>, c: int)
    requires n.children == map[]
    ensures CountFrom(n, c) == 0
    decreases 256 - c
  {
    if c < AlphabetSize {
      CountFromNoChildren(n, c + 1);
    }
  }

  /** A node with no word and no child counts no word, and stores none. */
  lemma {:induction false} EmptyNodeFacts<V>(n: Node<V>)
    requires !n.isEnd && n.children == map[]
    ensures Count(n) == 0
    ensures forall u :: Lookup(n, u) == None
  {
    CountFromNoChildren(n, 0);
  }

  /** Changing the child counts at byte k by d changes the sums from c <= k by d. */
  lemma {:induction false} CountFromUpdate<V>(a: Node<V>, b: Node<V>, c: int, k: int, d: int)
    requires forall e :: e != k ==> ChildWords(a, e) == ChildWords(b, e)
    requires ChildWords(b, k) == ChildWords(a, k) + d
    ensures CountFrom(b, c) == CountFrom(a, c) + (if c <= k < AlphabetSize then d else 0)
    decreases 256 - c
  {
    if c < AlphabetSize {
      CountFromUpdate(a, b, c + 1, k, d);
    }
  }

  /** Nodes with the same children have the same child sums. */
  lemma {:induction false} SameChildren<V>(a: Node<V>, b: Node<V>)
    requires a.children == b.children
    ensures CountFrom(a, 0) == CountFrom(b, 0)
  {
    CountFromUpdate(a, b, 0, 0, 0);
  }

  /** Each child's words are part of the sum from any byte at or below its own. */
  lemma {:induction false} CountFromChild<V>(n: Node<V>, c: int, k: Char)
    requires 0 <= c <= k && k in n.children
    ensures CountFrom(n, c) >= Count(n.children[k])
    decreases 256 - c
  {
    if c < k {
      CountFromChild(n, c + 1, k);
    }
  }

  /** A subtree that counts no word stores none. */
  lemma {:induction false} CountZeroLookup<V>(n: Node<V>, u: Word)
    requires Count(n) == 0
    ensures Lookup(n, u) == None
    decreases |u|
  {
    if u != [] && u[0] in n.children {
      CountFromChild(n, 0, u[0]);
      CountZeroLookup(n.children[u[0]], u[1..]);
    }
  }

  /** A well-formed node with no word and no child is exactly one that counts nothing. */
  lemma {:induction false} CountZeroShape<V>(n: Node<V>)
    requires WellFormed(n)
    ensures Count(n) == 0 <==> !n.isEnd && n.childCount == 0
  {
    if n.childCount == 0 {
      assert n.children.Keys == {};
      CountFromNoChildren(n, 0);
    } else if Count(n) == 0 {
      assert n.children.Keys != {};
      var k :| k in n.children;
      CountFromChild(n, 0, k);
    }
  }

  // ---------------------------------------------------------------------
  // Lemmas on walking
  // ---------------------------------------------------------------------

  /**
   * Walking to p and then looking up s is looking up p + s; a walk that
   * fails means no stored word begins with p.
   */
  lemma {:induction false} WalkLookup<V>(n: Node<V>, p: Word, s: Word)
    ensures WalkTo(n, p).Some? ==> Lookup(WalkTo(n, p).value, s) == Lookup(n, p + s)
    ensures WalkTo(n, p).None? ==> Lookup(n, p + s) == None
    decreases |p|
  {
    if p != [] {
      assert (p + s)[0] == p[0] && (p + s)[1..] == p[1..] + s;
      if p[0] in n.children {
        WalkLookup(n.children[p[0]], p[1..], s);
      }
    } else {
      assert p + s == s;
    }
  }

  /** Every node reached by a walk is well formed. */
  lemma {:induction false} WalkWellFormed<V>(n: Node<V>, p: Word)
    requires WellFormed(n)
    ensures WalkTo(n, p).Some? ==> WellFormed(WalkTo(n, p).value)
    decreases |p|
  {
    if p != [] && p[0] in n.children {
      WalkWellFormed(n.children[p[0]], p[1..]);
    }
  }

  // ---------------------------------------------------------------------
  // Lemmas on insertion and deletion
  // ---------------------------------------------------------------------

  /**
   * Putting a well-formed child that holds a word at byte c keeps the node
   * well formed once its counters follow.
   */
  lemma {:induction false} ReplaceChild<V>(n: Node<V>, m: Node<V>, c: Char, child: Node<V>)
    requires WellFormed(n) && WellFormed(child) && Count(child) > 0
    requires m.children == n.children[c := child] && m.isEnd == n.isEnd && m.value == n.value
    requires m.childCount == |m.children|
    requires m.subtreeWords == Count(n) + Count(child) - ChildWords(n, c)
    ensures WellFormed(m) && Count(m) == Count(n) + Count(child) - ChildWords(n, c)
  {
    forall e: int | e != c ensures ChildWords(n, e) == ChildWords(m, e) {
      if 1 <= e < AlphabetSize && e in n.children {
        assert m.children[e] == n.children[e];
      }
    }
    assert ChildWords(m, c) == Count(child);
    CountFromUpdate(n, m, 0, c, Count(child) - ChildWords(n, c));
    forall e | e in m.children ensures Count(m.children[e]) > 0 && WellFormed(m.children[e]) {
      if e != c {
        assert m.children[e] == n.children[e];
      }
    }
  }

  /** Dropping the child at byte c keeps the node well formed once its counters follow. */
  lemma {:induction false} DropChild<V>(n: Node<V>, m: Node<V>, c: Char)
    requires WellFormed(n) && c in n.children
    requires m.children == n.children - {c} && m.isEnd == n.isEnd && m.value == n.value
    requires m.childCount == |m.children|
    requires m.subtreeWords == Count(n) - Count(n.children[c])
    ensures WellFormed(m) && Count(m) == Count(n) - Count(n.children[c])
  {
    forall e: int | e != c ensures ChildWords(n, e) == ChildWords(m, e) {
      if 1 <= e < AlphabetSize && e in n.children {
        assert m.children[e] == n.children[e];
      }
    }
    assert ChildWords(m, c) == 0;
    CountFromUpdate(n, m, 0, c, -(Count(n.children[c]) as int));
    forall e | e in m.children ensures Count(m.children[e]) > 0 && WellFormed(m.children[e]) {
      assert m.children[e] == n.children[e];
    }
  }

  lemma MapUpdateSize<K, X>(m: map<K, X>, k: K, x: X)
    ensures |m[k := x]| == if k in m then |m| else |m| + 1
  {
    if k in m {
      assert m[k := x].Keys == m.Keys;
    } else {
      assert m[k := x].Keys == m.Keys + {k};
    }
  }

  lemma MapRemoveSize<K, X>(m: map<K, X>, k: K)
    requires k in m
    ensures |m - {k}| == |m| - 1
  {
    assert (m - {k}).Keys == m.Keys - {k};
  }

  /** Changing only the end mark and value of a node keeps it well formed once its counter follows. */
  lemma {:induction false} Remark<V>(n: Node<V>, m: Node<V>)
    requires WellFormed(n)
    requires m.children == n.children && m.childCount == n.childCount && (m.isEnd <==> m.value.Some?)
    requires m.subtreeWords == Count(n) + (if m.isEnd then 1 else 0) - (if n.isEnd then 1 else 0)
    ensures WellFormed(m) && Count(m) == m.subtreeWords
  {
    SameChildren(n, m);
  }

  /** Insertion stores v under w and leaves every other word alone. */
  lemma {:induction false} InsertLookup<V>(n: Node<V>, w: Word, v: V, u: Word)
    ensures Lookup(InsertPath(n, w, v).node, u) == if u == w then Some(v) else Lookup(n, u)
    decreases |w|
  {
    if w == [] {
      if u != [] {
        assert InsertPath(n, w, v).node.children == n.children;
      }
    } else if u != [] && u[0] == w[0] {
      var child := ChildOrEmpty(n, w[0]);
      if w[0] !in n.children {
        EmptyNodeFacts(child);
      }
      InsertLookup(child, w[1..], v, u[1..]);
      assert u == w <==> u[1..] == w[1..];
    }
  }

  /**
   * Insertion adds a word exactly when w was not stored, counts it on the
   * path, and keeps the node invariant.
   */
  lemma {:induction false} InsertCount<V>(n: Node<V>, w: Word, v: V)
    requires WellFormed(n)
    ensures InsertPath(n, w, v).added <==> Lookup(n, w).None?
    ensures WellFormed(InsertPath(n, w, v).node)
    ensures Count(InsertPath(n, w, v).node) == Count(n) + (if InsertPath(n, w, v).added then 1 else 0)
    decreases |w|
  {
    if w == [] {
      Remark(n, InsertPath(n, w, v).node);
    } else {
      var child := ChildOrEmpty(n, w[0]);
      if w[0] !in n.children {
        EmptyNodeFacts(child);
      }
      InsertCount(child, w[1..], v);
      InsertStep(n, w, v);
    }
  }

  /** One level of InsertCount: the node above a child the insertion went through. */
  lemma {:induction false} InsertStep<V>(n: Node<V>, w: Word, v: V)
    requires WellFormed(n) && w != []
    requires WellFormed(ChildOrEmpty(n, w[0])) && Count(ChildOrEmpty(n, w[0])) == ChildWords(n, w[0])
    requires Lookup(n, w) == Lookup(ChildOrEmpty(n, w[0]), w[1..])
    requires InsertPath(ChildOrEmpty(n, w[0]), w[1..], v).added <==> Lookup(n, w).None?
    requires WellFormed(InsertPath(ChildOrEmpty(n, w[0]), w[1..], v).node)
    requires Count(InsertPath(ChildOrEmpty(n, w[0]), w[1..], v).node) ==
             Count(ChildOrEmpty(n, w[0])) + (if Lookup(n, w).None? then 1 else 0)
    ensures InsertPath(n, w, v).added <==> Lookup(n, w).None?
    ensures WellFormed(InsertPath(n, w, v).node)
    ensures Count(InsertPath(n, w, v).node) == Count(n) + (if Lookup(n, w).None? then 1 else 0)
  {
    var c := w[0];
    var d := InsertPath(ChildOrEmpty(n, c), w[1..], v);
    var m := InsertPath(n, w, v).node;
    assert m == n.(children := n.children[c := d.node],
                   childCount := if c in n.children then n.childCount else n.childCount + 1,
                   subtreeWords := if d.added then n.subtreeWords + 1 else n.subtreeWords);
    MapUpdateSize(n.children, c, d.node);
    ghost var delta := if d.added then 1 else 0;
    assert Count(d.node) == ChildWords(n, c) + delta;
    ReplaceChild(n, m, c, d.node);
    assert InsertPath(n, w, v) == Insertion(m, d.added);
    assert Count(m) == Count(n) + delta;
  }

  /**
   * Deletion reports whether w was stored and otherwise changes nothing; a
   * removal lowers the count by one and keeps the node invariant, and the
   * node asks to be dropped exactly when it is not the root and is left
   * with no word.
   */
  lemma {:induction false} DeleteCount<V>(n: Node<V>, w: Word, isRoot: bool)
    requires WellFormed(n) && (!isRoot ==> Count(n) > 0)
    ensures DeleteNode(n, w, isRoot).removed <==> Lookup(n, w).Some?
    ensures !DeleteNode(n, w, isRoot).removed ==> DeleteNode(n, w, isRoot).node == n
    ensures WellFormed(DeleteNode(n, w, isRoot).node)
    ensures Count(DeleteNode(n, w, isRoot).node) == Count(n) - (if DeleteNode(n, w, isRoot).removed then 1 else 0)
    ensures DeleteNode(n, w, isRoot).prune <==> !isRoot && Count(DeleteNode(n, w, isRoot).node) == 0
    decreases |w|
  {
    var r := DeleteNode(n, w, isRoot);
    if w == [] {
      if n.isEnd {
        Remark(n, r.node);
        CountZeroShape(r.node);
      }
    } else if w[0] in n.children {
      var c := w[0];
      var child := n.children[c];
      DeleteCount(child, w[1..], false);
      var d := DeleteNode(child, w[1..], false);
      if d.removed {
        CountFromChild(n, 0, c);
        assert r.node.subtreeWords == Count(n) - 1;
        if d.prune {
          assert r.node.children == n.children - {c};
          MapRemoveSize(n.children, c);
          assert Count(child) == 1;
          DropChild(n, r.node, c);
        } else {
          assert Count(d.node) > 0;
          assert r.node.children == n.children[c := d.node];
          assert ChildWords(n, c) == Count(d.node) + 1;
          ReplaceChild(n, r.node, c, d.node);
        }
        CountZeroShape(r.node);
      }
    }
  }

  /** Deletion removes w and leaves every other word alone. */
  lemma {:induction false} DeleteLookup<V>(n: Node<V>, w: Word, isRoot: bool, u: Word)
    requires WellFormed(n) && (!isRoot ==> Count(n) > 0)
    ensures Lookup(DeleteNode(n, w, isRoot).node, u) == if u == w then None else Lookup(n, u)
    decreases |w|
  {
    var r := DeleteNode(n, w, isRoot);
    if w == [] {
      if u != [] {
        assert r.node.children == n.children;
      }
    } else if w[0] in n.children && u != [] && u[0] == w[0] {
      var c := w[0];
      var child := n.children[c];
      DeleteCount(child, w[1..], false);
      DeleteLookup(child, w[1..], false, u[1..]);
      var d := DeleteNode(child, w[1..], false);
      if d.removed && d.prune {
        CountZeroLookup(d.node, u[1..]);
      }
      DeleteLookupStep(n, w, isRoot, u);
    }
  }

  /** One level of DeleteLookup: the node above the child the deletion went through. */
  lemma {:induction false} DeleteLookupStep<V>(n: Node<V>, w: Word, isRoot: bool, u: Word)
    requires w != [] && w[0] in n.children && u != [] && u[0] == w[0]
    requires !DeleteNode(n.children[w[0]], w[1..], false).removed ==>
               DeleteNode(n.children[w[0]], w[1..], false).node == n.children[w[0]]
    requires Lookup(DeleteNode(n.children[w[0]], w[1..], false).node, u[1..]) ==
               if u[1..] == w[1..] then None else Lookup(n.children[w[0]], u[1..])
    requires DeleteNode(n.children[w[0]], w[1..], false).removed && DeleteNode(n.children[w[0]], w[1..], false).prune ==>
               Lookup(DeleteNode(n.children[w[0]], w[1..], false).node, u[1..]) == None
    ensures Lookup(DeleteNode(n, w, isRoot).node, u) == if u == w then None else Lookup(n, u)
  {
    var c := w[0];
    var d := DeleteNode(n.children[c], w[1..], false);
    var r := DeleteNode(n, w, isRoot);
    assert u == w <==> u[1..] == w[1..];
    if !d.removed {
      assert r.node == n;
    } else if d.prune {
      assert r.node.children == n.children - {c};
    } else {
      assert r.node.children == n.children[c := d.node];
    }
  }

  // ---------------------------------------------------------------------
  // Lemmas on enumeration
  // ---------------------------------------------------------------------

  /** A proper prefix comes first. */
  lemma {:induction false} LexPrefix(a: Word, b: Word)
    requires |a| < |b| && b[..|a|] == a
    ensures LexLess(a, b)
    decreases |a|
  {
    if |a| > 0 {
      assert a[0] == b[0];
      assert b[1..][..|a| - 1] == a[1..];
      LexPrefix(a[1..], b[1..]);
    }
  }

  /** Words agreeing before position k and differing there are ordered by their bytes at k. */
  lemma {:induction false} LexAt(a: Word, b: Word, k: nat)
    requires k < |a| && k < |b| && a[..k] == b[..k] && a[k] < b[k]
    ensures LexLess(a, b)
    decreases k
  {
    if k > 0 {
      assert a[0] == a[..k][0] == b[..k][0] == b[0];
      assert a[1..][..k - 1] == a[..k][1..] == b[..k][1..] == b[1..][..k - 1];
      LexAt(a[1..], b[1..], k - 1);
    }
  }

  /** The order is strict. */
  lemma {:induction false} LexIrreflexive(a: Word)
    ensures !LexLess(a, a)
    decreases |a|
  {
    if |a| > 0 {
      LexIrreflexive(a[1..]);
    }
  }

  lemma {:induction false} AscendingConcat(a: seq<Word>, b: seq<Word>)
    requires Ascending(a) && Ascending(b)
    requires forall x, y :: x in a && y in b ==> LexLess(x, y)
    ensures Ascending(a + b)
  {
    var s := a + b;
    forall i, j | 0 <= i < j < |s| ensures LexLess(s[i], s[j]) {
      if j < |a| {
        assert s[i] == a[i] && s[j] == a[j];
      } else if i >= |a| {
        assert s[i] == b[i - |a|] && s[j] == b[j - |a|];
      } else {
        assert s[i] == a[i] && s[j] == b[j - |a|];
      }
    }
  }

  /** An ascending list has no repeats. */
  lemma {:induction false} AscendingDistinct(s: seq<Word>)
    requires Ascending(s)
    ensures Distinct(s)
  {
    forall i, j | 0 <= i < j < |s| ensures s[i] != s[j] {
      LexIrreflexive(s[i]);
    }
  }

  /** The enumeration lists exactly the stored words, each prefixed by p. */
  lemma {:induction false} EnumerateMember<V>(n: Node<V>, p: Word, w: Word)
    requires WellFormed(n)
    ensures w in Enumerate(n, p) <==> |p| <= |w| && w[..|p|] == p && Lookup(n, w[|p|..]).Some?
    decreases n, 257
  {
    EnumFromMember(n, p, 0, w);
    if |p| < |w| && w[..|p|] == p {
      var s := w[|p|..];
      assert s[0] == w[|p|] && s[1..] == w[|p| + 1..];
    } else if |p| <= |w| && w[..|p|] == p {
      assert w == p && w[|p|..] == [];
    }
  }

  lemma {:induction false} EnumFromMember<V>(n: Node<V>, p: Word, c: int, w: Word)
    requires WellFormed(n) && 0 <= c
    ensures w in EnumFrom(n, p, c) <==>
      |p| < |w| && w[..|p|] == p && c <= w[|p|] && w[|p|] in n.children &&
      Lookup(n.children[w[|p|]], w[|p| + 1..]).Some?
    decreases n, 256 - c
  {
    if c < AlphabetSize {
      EnumFromMember(n, p, c + 1, w);
      assert EnumFrom(n, p, c) == Branch(n, p, c) + EnumFrom(n, p, c + 1);
      BranchMember(n, p, c, w);
    }
  }

  /** The words below the child at byte c are the stored words continuing p with c. */
  lemma {:induction false} BranchMember<V>(n: Node<V>, p: Word, c: int, w: Word)
    requires WellFormed(n) && 0 <= c < AlphabetSize
    ensures w in Branch(n, p, c) <==>
      |p| < |w| && w[..|p|] == p && w[|p|] == c && w[|p|] in n.children &&
      Lookup(n.children[w[|p|]], w[|p| + 1..]).Some?
    decreases n, 0
  {
    if 1 <= c && c in n.children {
      var q := p + [c as Char];
      assert Branch(n, p, c) == Enumerate(n.children[c], q);
      EnumerateMember(n.children[c], q, w);
      if |p| < |w| && w[..|p|] == p && w[|p|] == c {
        assert w[..|q|] == q;
        assert w[|q|..] == w[|p| + 1..];
      } else if |q| <= |w| && w[..|q|] == q {
        assert w[..|p|] == q[..|p|] && w[|p|] == q[|p|];
      }
    }
  }

  /** The enumeration has one entry per stored word. */
  lemma {:induction false} EnumerateLength<V>(n: Node<V>, p: Word)
    ensures |Enumerate(n, p)| == Count(n)
    decreases n, 257
  {
    EnumFromLength(n, p, 0);
  }

  lemma {:induction false} EnumFromLength<V>(n: Node<V>, p: Word, c: int)
    ensures |EnumFrom(n, p, c)| == CountFrom(n, c)
    decreases n, 256 - c
  {
    if c < AlphabetSize {
      EnumFromLength(n, p, c + 1);
      if 1 <= c && c in n.children {
        EnumerateLength(n.children[c], p + [c as Char]);
      }
    }
  }

  /** Every word below the child at byte c comes before those below later children. */
  lemma {:induction false} BranchBefore<V>(n: Node<V>, p: Word, c: int, x: Word, y: Word)
    requires WellFormed(n) && 1 <= c < AlphabetSize && c in n.children
    requires x in Branch(n, p, c) && y in EnumFrom(n, p, c + 1)
    ensures LexLess(x, y)
  {
    var q := p + [c as Char];
    EnumerateMember(n.children[c], q, x);
    EnumFromMember(n, p, c + 1, y);
    assert x[..|p|] == x[..|q|][..|p|] == q[..|p|] == p;
    assert x[|p|] == x[..|q|][|p|] == q[|p|] == c;
    LexAt(x, y, |p|);
  }

  /** The enumeration is in strictly ascending byte order. */
  lemma {:induction false} EnumerateAscending<V>(n: Node<V>, p: Word)
    requires WellFormed(n)
    ensures Ascending(Enumerate(n, p))
    decreases n, 257
  {
    EnumFromAscending(n, p, 0);
    var head: seq<Word> := if n.isEnd then [p] else [];
    forall x, y | x in head && y in EnumFrom(n, p, 0) ensures LexLess(x, y) {
      EnumFromMember(n, p, 0, y);
      LexPrefix(x, y);
    }
    AscendingConcat(head, EnumFrom(n, p, 0));
  }

  lemma {:induction false} EnumFromAscending<V>(n: Node<V>, p: Word, c: int)
    requires WellFormed(n) && 0 <= c
    ensures Ascending(EnumFrom(n, p, c))
    decreases n, 256 - c
  {
    if c < AlphabetSize {
      EnumFromAscending(n, p, c + 1);
      var part := Branch(n, p, c);
      var rest := EnumFrom(n, p, c + 1);
      if 1 <= c && c in n.children {
        EnumerateAscending(n.children[c], p + [c as Char]);
        forall x, y | x in part && y in rest ensures LexLess(x, y) {
          BranchBefore(n, p, c, x, y);
        }
      }
      AscendingConcat(part, rest);
    }
  }

  /** The walk's counter is the number of stored words beginning with p. */
  lemma {:induction false} PrefixedSize<V>(n: Node<V>, p: Word)
    requires WellFormed(n)
    ensures WalkTo(n, p).None? ==> Prefixed(n, p) == {}
    ensures WalkTo(n, p).Some? ==> |Prefixed(n, p)| == WalkTo(n, p).value.subtreeWords
    ensures WalkTo(n, p).Some? ==> Prefixed(n, p) == set w | w in Enumerate(WalkTo(n, p).value, p)
  {
    WalkWellFormed(n, p);
    forall w | |p| <= |w| && w[..|p|] == p
      ensures w in Enumerate(n, []) <==> Lookup(n, w).Some?
      ensures WalkTo(n, p).Some? ==> Lookup(WalkTo(n, p).value, w[|p|..]) == Lookup(n, w)
      ensures WalkTo(n, p).None? ==> Lookup(n, w) == None
    {
      EnumerateMember(n, [], w);
      assert w[0..] == w;
      WalkLookup(n, p, w[|p|..]);
      assert p + w[|p|..] == w;
    }
    if WalkTo(n, p).Some? {
      var m := WalkTo(n, p).value;
      var e := Enumerate(m, p);
      forall w ensures w in e <==> w in Prefixed(n, p) {
        EnumerateMember(m, p, w);
      }
      assert Prefixed(n, p) == set w | w in e;
      EnumerateAscending(m, p);
      AscendingDistinct(e);
      DistinctCount(e);
      EnumerateLength(m, p);
    } else {
      forall w | w in Prefixed(n, p) ensures false {
      }
    }
  }

  // ---------------------------------------------------------------------
  // The trie object
  // ---------------------------------------------------------------------

  class Trie<V> {
    var root: Node<V>
    var wordCount: nat

    /** The stored words in ascending byte order. */
    ghost function Words(): seq<Word>
      reads this
    {
      Enumerate(root, [])
    }

    ghost predicate Valid()
      reads this
    {
      WellFormed(root) && wordCount == Count(root)
    }

    /** create_trie: an empty trie with a zeroed root. */
    constructor ()
      ensures Valid() && Words() == [] && forall u :: Lookup(root, u) == None
    {
      root := EmptyNode();
      wordCount := 0;
      new;
      EmptyNodeFacts(root);
      EnumerateLength(root, []);
    }

    /**
     * trie_insert: nothing for a NULL word; otherwise the word maps to value
     * afterwards, every other word keeps its value, and the word count grows
     * by one exactly when the word was new.
     */
    method Insert(word: Option<Word>, value: V)
      requires Valid()
      modifies this
      ensures Valid()
      ensures word.None? ==> root == old(root) && wordCount == old(wordCount)
      ensures word.Some? ==> forall u :: Lookup(root, u) ==
                               if u == word.value then Some(value) else old(Lookup(root, u))
      ensures word.Some? ==> wordCount == old(wordCount) + (if old(Lookup(root, word.value)).None? then 1 else 0)
    {
      if word.None? {
        return;
      }
      InsertCount(root, word.value, value);
      forall u {
        InsertLookup(root, word.value, value, u);
      }
      var r := InsertPath(root, word.value, value);
      root := r.node;
      if r.added {
        wordCount := wordCount + 1;
      }
    }

    /** trie_search: the value stored for word; None for NULL, a missing word or a mere prefix. */
    method Search(word: Option<Word>) returns (r: Option<V>)
      requires Valid()
      ensures r == if word.None? then None else Lookup(root, word.value)
    {
      if word.None? {
        return None;
      }
      var node := Walk(root, word.value);
      WalkLookup(root, word.value, []);
      assert word.value + [] == word.value;
      if node.None? || !node.value.isEnd {
        return None;
      }
      r := node.value.value;
    }

    /** trie_starts_with: some stored word begins with prefix. */
    method StartsWith(prefix: Option<Word>) returns (b: bool)
      requires Valid()
      ensures b <==> prefix.Some? && Prefixed(root, prefix.value) != {}
    {
      if prefix.None? {
        return false;
      }
      var node := Walk(root, prefix.value);
      PrefixedSize(root, prefix.value);
      if node.None? {
        return false;
      }
      b := node.value.subtreeWords > 0;
    }

    /** trie_count_words: the number of distinct stored words. */
    method CountWords() returns (r: int)
      requires Valid()
      ensures r == |Words()|
      ensures r == |set w | w in Words()|
    {
      EnumerateLength(root, []);
      EnumerateAscending(root, []);
      AscendingDistinct(Words());
      DistinctCount(Words());
      r := wordCount;
    }

    /** trie_count_prefixes: the number of stored words beginning with prefix; 0 for NULL. */
    method CountPrefixes(prefix: Option<Word>) returns (r: int)
      requires Valid()
      ensures r == if prefix.None? then 0 else |Prefixed(root, prefix.value)|
    {
      if prefix.None? {
        return 0;
      }
      var node := Walk(root, prefix.value);
      PrefixedSize(root, prefix.value);
      if node.None? {
        return 0;
      }
      r := node.value.subtreeWords;
    }

    /**
     * trie_get_words_with_prefix: no list for a NULL prefix; otherwise the
     * stored words beginning with prefix, each once, in ascending byte order
     * (an empty list when there is none).
     */
    method WordsWithPrefix(prefix: Option<Word>) returns (r: Option<seq<Word>>)
      requires Valid()
      ensures r.None? <==> prefix.None?
      ensures r.Some? ==> Ascending(r.value) && Distinct(r.value)
      ensures r.Some? ==> forall w :: w in r.value <==> w in Prefixed(root, prefix.value)
    {
      if prefix.None? {
        return None;
      }
      var p := prefix.value;
      var node := Walk(root, p);
      PrefixedSize(root, p);
      if node.None? || node.value.subtreeWords == 0 {
        return Some([]);
      }
      WalkWellFormed(root, p);
      var words := Collect(node.value, p, []);
      assert words == Enumerate(node.value, p);
      EnumerateAscending(node.value, p);
      AscendingDistinct(words);
      r := Some(words);
    }

    /**
     * trie_delete: false for a NULL or unstored word and nothing changes;
     * otherwise the word is gone, every other word keeps its value and the
     * word count drops by one. Nodes left without words are pruned.
     */
    method Delete(word: Option<Word>) returns (removed: bool)
      requires Valid()
      modifies this
      ensures Valid()
      ensures removed <==> word.Some? && old(Lookup(root, word.value)).Some?
      ensures !removed ==> root == old(root) && wordCount == old(wordCount)
      ensures removed ==> wordCount == old(wordCount) - 1
      ensures word.Some? ==> forall u :: Lookup(root, u) == if u == word.value then None else old(Lookup(root, u))
    {
      if word.None? {
        return false;
      }
      DeleteCount(root, word.value, true);
      forall u {
        DeleteLookup(root, word.value, true, u);
      }
      var d := DeleteNode(root, word.value, true);
      root := d.node;
      removed := d.removed;
      if removed && wordCount > 0 {
        wordCount := wordCount - 1;
      }
    }
  }
}
