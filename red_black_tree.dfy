/**
 * The red-black variant of red_black_tree.c. The C code walks parent pointers
 * up from a node and rotates in place; here the node the code is looking at
 * is a subtree value together with the path of frames leading up to the root
 * (a zipper): path[0] is the parent, and each frame keeps the parent's pair,
 * colour and the other child. Rotations and recolourings become rebuilds of
 * the few frames they touch, and the two fix-up loops keep their loop form.
 */
module RedBlackTree {
  import opened Wrappers
  import opened SearchTree

  /** The colour of a node; the sentinel (Nil) is black. */
  function ColorOf<V>(t: Tree<V>): Color
  {
    if t.Nil? then Black else t.color
  }

  /** Setting a node's colour; the sentinel stays as it is. */
  function Paint<V>(t: Tree<V>, c: Color): Tree<V>
  {
    if t.Nil? then t else t.(color := c)
  }

  function Step(c: Color): int
  {
    if c == Black then 1 else 0
  }

  /** The black nodes on the leftmost path, the node itself included. */
  function BlackHeight<V>(t: Tree<V>): int
  {
    if t.Nil? then 0 else BlackHeight(t.left) + Step(t.color)
  }

  /** Every path from a node down to the sentinel meets the same number of black nodes. */
  ghost predicate Balanced<V>(t: Tree<V>)
  {
    t.Nil? || (Balanced(t.left) && Balanced(t.right) && BlackHeight(t.left) == BlackHeight(t.right))
  }

  /** No red node has a red child. */
  ghost predicate NoRedRed<V>(t: Tree<V>)
  {
    t.Nil? ||
    (NoRedRed(t.left) && NoRedRed(t.right) &&
     (t.color == Red ==> ColorOf(t.left) == Black && ColorOf(t.right) == Black))
  }

  /** The red-black invariants on top of the search-tree order, with a black root. */
  ghost predicate IsRedBlack<V>(t: Tree<V>)
  {
    Ordered(t) && Balanced(t) && NoRedRed(t) && ColorOf(t) == Black
  }

  lemma PaintKeeps<V>(t: Tree<V>, c: Color)
    requires Balanced(t) && NoRedRed(t)
    requires c == Red && t.Node? ==> ColorOf(t.left) == Black && ColorOf(t.right) == Black
    ensures Balanced(Paint(t, c)) && NoRedRed(Paint(t, c)) && Pairs(Paint(t, c)) == Pairs(t)
    ensures t.Node? ==> BlackHeight(Paint(t, c)) == BlackHeight(t) - Step(t.color) + Step(c)
  {
  }

  lemma PaintPairs<V>(t: Tree<V>, c: Color)
    ensures Pairs(Paint(t, c)) == Pairs(t)
  {
  }

  // ---- rotations ----

  /** rb_left_rotate: the right child y takes x's place and x becomes y's left child; colours stay. */
  function LeftRotate<V>(x: Tree<V>): (r: Tree<V>)
    requires x.Node? && x.right.Node?
    ensures Pairs(r) == Pairs(x)
  {
    var y := x.right;
    Node(Node(x.left, x.key, x.value, y.left, x.height, x.color), y.key, y.value, y.right, y.height, y.color)
  }

  /** rb_right_rotate: the left child x takes y's place and y becomes x's right child; colours stay. */
  function RightRotate<V>(y: Tree<V>): (r: Tree<V>)
    requires y.Node? && y.left.Node?
    ensures Pairs(r) == Pairs(y)
  {
    var x := y.left;
    Node(x.left, x.key, x.value, Node(x.right, y.key, y.value, y.right, y.height, y.color), x.height, x.color)
  }

  // ---- paths ----

  datatype Dir = Left | Right

  /**
   * One step up from the node in focus: the parent's pair, colour and height
   * field, the side the focus hangs on, and the parent's other child.
   */
  datatype Frame<V> = Frame(dir: Dir, key: int, value: V, color: Color, sibling: Tree<V>, height: int)

  /** The parent node a frame describes, with t in the focus position. */
  function Build<V>(f: Frame<V>, t: Tree<V>): Tree<V>
  {
    if f.dir == Left then Node(t, f.key, f.value, f.sibling, f.height, f.color)
    else Node(f.sibling, f.key, f.value, t, f.height, f.color)
  }

  /** The whole tree: t put back under every frame of the path, parent first. */
  function Plug<V>(t: Tree<V>, path: seq<Frame<V>>): Tree<V>
    decreases |path|
  {
    if path == [] then t else Plug(Build(path[0], t), path[1..])
  }

  /** The child on side d. */
  function Child<V>(x: Tree<V>, d: Dir): Tree<V>
    requires x.Node?
  {
    if d == Left then x.left else x.right
  }

  /** The frame for stepping from x down to its child on side d. */
  function Down<V>(x: Tree<V>, d: Dir): (f: Frame<V>)
    requires x.Node?
    ensures Build(f, Child(x, d)) == x
  {
    Frame(d, x.key, x.value, x.color, if d == Left then x.right else x.left, x.height)
  }

  /** The pairs a frame contributes before the focus. */
  function Before<V>(f: Frame<V>): seq<(int, V)>
  {
    if f.dir == Right then Pairs(f.sibling) + [(f.key, f.value)] else []
  }

  /** The pairs a frame contributes after the focus. */
  function After<V>(f: Frame<V>): seq<(int, V)>
  {
    if f.dir == Left then [(f.key, f.value)] + Pairs(f.sibling) else []
  }

  /** Every pair of the whole tree that comes before the focus. */
  function PathLeft<V>(path: seq<Frame<V>>): seq<(int, V)>
    decreases |path|
  {
    if path == [] then [] else PathLeft(path[1..]) + Before(path[0])
  }

  /** Every pair of the whole tree that comes after the focus. */
  function PathRight<V>(path: seq<Frame<V>>): seq<(int, V)>
    decreases |path|
  {
    if path == [] then [] else After(path[0]) + PathRight(path[1..])
  }

  /** The in-order pairs of a plugged tree: those before the focus, the focus's own, those after. */
  lemma {:induction false} PlugPairs<V>(t: Tree<V>, path: seq<Frame<V>>)
    ensures Pairs(Plug(t, path)) == PathLeft(path) + Pairs(t) + PathRight(path)
    decreases |path|
  {
    if path != [] {
      var f, rest := path[0], path[1..];
      var u := Build(f, t);
      assert Plug(t, path) == Plug(u, rest);
      PlugPairs(u, rest);
      BuildPairs(f, t);
      ConcatFive(PathLeft(rest), Before(f), Pairs(t), After(f), PathRight(rest));
    }
  }

  lemma BuildPairs<V>(f: Frame<V>, t: Tree<V>)
    ensures Pairs(Build(f, t)) == Before(f) + Pairs(t) + After(f)
  {
    if f.dir == Left {
      assert [(f.key, f.value)] + Pairs(f.sibling) == After(f);
    }
  }

  lemma Regroup<T>(pl: seq<T>, a: seq<T>, m: seq<T>, b: seq<T>, pr: seq<T>)
    ensures pl + a + ((m + b) + pr) == pl + (a + m + b) + pr
    ensures (pl + (a + m)) + b + pr == pl + (a + m + b) + pr
  {
  }

  lemma ConcatFive<T>(a: seq<T>, b: seq<T>, c: seq<T>, d: seq<T>, e: seq<T>)
    ensures a + (b + c + d) + e == (a + b) + c + (d + e)
  {
  }

  lemma {:induction false} PathLeftAppend<V>(a: seq<Frame<V>>, b: seq<Frame<V>>)
    ensures PathLeft(a + b) == PathLeft(b) + PathLeft(a)
    decreases |a|
  {
    if a == [] {
      assert a + b == b;
    } else {
      assert (a + b)[1..] == a[1..] + b;
      PathLeftAppend(a[1..], b);
    }
  }

  lemma {:induction false} PathRightAppend<V>(a: seq<Frame<V>>, b: seq<Frame<V>>)
    ensures PathRight(a + b) == PathRight(a) + PathRight(b)
    decreases |a|
  {
    if a == [] {
      assert a + b == b;
    } else {
      assert (a + b)[1..] == a[1..] + b;
      PathRightAppend(a[1..], b);
    }
  }

  /** A path that only ever goes left leaves nothing before the focus. */
  lemma {:induction false} AllLeftPath<V>(path: seq<Frame<V>>)
    requires forall i :: 0 <= i < |path| ==> path[i].dir == Left
    ensures PathLeft(path) == []
    decreases |path|
  {
    if path != [] {
      AllLeftPath(path[1..]);
    }
  }

  /**
   * The colour and black-height bookkeeping of a path: plugging a subtree
   * whose root has colour c and black height h under the path yields a tree
   * whose every node is balanced and has no red child under a red parent.
   * Each sibling is a valid subtree of black height h, a red frame needs a
   * black focus (c) and a black sibling, and the frame itself is the focus
   * of the next level up.
   */
  ghost predicate Fits<V>(c: Color, h: int, path: seq<Frame<V>>)
    decreases |path|
  {
    path == [] ||
    (Balanced(path[0].sibling) && NoRedRed(path[0].sibling) && BlackHeight(path[0].sibling) == h &&
     (path[0].color == Red ==> c == Black && ColorOf(path[0].sibling) == Black) &&
     Fits(path[0].color, h + Step(path[0].color), path[1..]))
  }

  /** A black focus fits wherever any focus does, and any focus fits under a black parent. */
  lemma FitsRecolor<V>(c: Color, c': Color, h: int, path: seq<Frame<V>>)
    requires Fits(c, h, path)
    requires c' == Black || path == [] || path[0].color == Black
    ensures Fits(c', h, path)
  {
  }

  /** The root's colour in a non-empty path is that of its last frame. */
  function RootColor<V>(t: Tree<V>, path: seq<Frame<V>>): Color
  {
    if path == [] then ColorOf(t) else path[|path| - 1].color
  }

  /** A valid subtree plugged under a path that fits it gives a valid tree. */
  lemma {:induction false} PlugFits<V>(t: Tree<V>, path: seq<Frame<V>>)
    requires Balanced(t) && NoRedRed(t) && Fits(ColorOf(t), BlackHeight(t), path)
    ensures Balanced(Plug(t, path)) && NoRedRed(Plug(t, path))
    ensures ColorOf(Plug(t, path)) == RootColor(t, path)
    decreases |path|
  {
    if path != [] {
      var u := Build(path[0], t);
      assert ColorOf(u) == path[0].color && BlackHeight(u) == BlackHeight(t) + Step(path[0].color);
      PlugFits(u, path[1..]);
    }
  }

  /** Stepping down to a child keeps the focus valid and its path fitting. */
  lemma DownFits<V>(x: Tree<V>, d: Dir, path: seq<Frame<V>>)
    requires x.Node? && Balanced(x) && NoRedRed(x) && Fits(ColorOf(x), BlackHeight(x), path)
    ensures Balanced(Child(x, d)) && NoRedRed(Child(x, d))
    ensures Fits(ColorOf(Child(x, d)), BlackHeight(Child(x, d)), [Down(x, d)] + path)
  {
    assert ([Down(x, d)] + path)[1..] == path;
  }

  /** Fits only looks at a frame's side, colour and sibling, never at its pair or height field. */
  lemma {:induction false} FitsReplace<V>(c: Color, h: int, a: seq<Frame<V>>, f: Frame<V>, f': Frame<V>, b: seq<Frame<V>>)
    requires f.dir == f'.dir && f.color == f'.color && f.sibling == f'.sibling
    requires Fits(c, h, a + [f] + b)
    ensures Fits(c, h, a + [f'] + b)
    decreases |a|
  {
    if a == [] {
      assert a + [f] + b == [f] + b && ([f] + b)[1..] == b;
      assert a + [f'] + b == [f'] + b && ([f'] + b)[1..] == b;
    } else {
      assert (a + [f] + b)[1..] == a[1..] + [f] + b;
      assert (a + [f'] + b)[1..] == a[1..] + [f'] + b;
      FitsReplace(a[0].color, h + Step(a[0].color), a[1..], f, f', b);
    }
  }

  // ---- search ----

  /**
   * What a downward search for k knows about the node x in focus: x is a
   * valid subtree fitting its path under a black root, and every pair of the
   * whole tree outside x lies on the side of k the walk went.
   */
  ghost predicate Focus<V>(root: Tree<V>, x: Tree<V>, path: seq<Frame<V>>, k: int)
  {
    Ordered(x) && Balanced(x) && NoRedRed(x) &&
    Fits(ColorOf(x), BlackHeight(x), path) && RootColor(x, path) == Black &&
    AllBelow(PathLeft(path), k) && AllAbove(PathRight(path), k) &&
    Pairs(root) == PathLeft(path) + Pairs(x) + PathRight(path)
  }

  lemma FocusStart<V>(root: Tree<V>, k: int)
    requires IsRedBlack(root)
    ensures Focus(root, root, [], k)
  {
  }

  /** The pairs around the focus after one step down. */
  lemma DownPaths<V>(x: Tree<V>, d: Dir, path: seq<Frame<V>>)
    requires x.Node?
    ensures d == Left ==>
      PathLeft([Down(x, d)] + path) == PathLeft(path) &&
      PathRight([Down(x, d)] + path) == ([(x.key, x.value)] + Pairs(x.right)) + PathRight(path)
    ensures d == Right ==>
      PathLeft([Down(x, d)] + path) == PathLeft(path) + (Pairs(x.left) + [(x.key, x.value)]) &&
      PathRight([Down(x, d)] + path) == PathRight(path)
    ensures RootColor(Child(x, d), [Down(x, d)] + path) == RootColor(x, path)
  {
    assert ([Down(x, d)] + path)[1..] == path;
    if d == Left {
      assert PathLeft(path) + [] == PathLeft(path);
    } else {
      assert [] + PathRight(path) == PathRight(path);
    }
  }

  lemma AllBelowAppend<V>(a: seq<(int, V)>, b: seq<(int, V)>, k: int)
    requires AllBelow(a, k) && AllBelow(b, k)
    ensures AllBelow(a + b, k)
  {
  }

  lemma AllAboveAppend<V>(a: seq<(int, V)>, b: seq<(int, V)>, k: int)
    requires AllAbove(a, k) && AllAbove(b, k)
    ensures AllAbove(a + b, k)
  {
  }

  /** Going left when k is smaller and right when it is larger keeps the search's knowledge. */
  lemma FocusDown<V>(root: Tree<V>, x: Tree<V>, path: seq<Frame<V>>, k: int)
    requires Focus(root, x, path, k) && x.Node? && k != x.key
    ensures var d := if k < x.key then Left else Right;
      Focus(root, Child(x, d), [Down(x, d)] + path, k)
  {
    var d := if k < x.key then Left else Right;
    DownFits(x, d, path);
    DownPaths(x, d, path);
    OrderedChildren(x);
    var a, m, b := Pairs(x.left), [(x.key, x.value)], Pairs(x.right);
    var pl, pr := PathLeft(path), PathRight(path);
    assert Pairs(x) == a + m + b;
    var path' := [Down(x, d)] + path;
    if d == Left {
      assert AllAbove(m + b, k);
      AllAboveAppend(m + b, pr, k);
      Regroup(pl, a, m, b, pr);
      assert Pairs(root) == PathLeft(path') + Pairs(x.left) + PathRight(path');
    } else {
      assert AllBelow(a + m, k);
      AllBelowAppend(pl, a + m, k);
      Regroup(pl, a, m, b, pr);
      assert Pairs(root) == PathLeft(path') + Pairs(x.right) + PathRight(path');
    }
  }

  // ---- insertion ----

  /**
   * What rb_insert_fixup keeps while it climbs: z is a red node, valid on its
   * own, and its path fits it except that z's parent may be red as well (the
   * path fits a black node of z's black height); the root is black, and the
   * whole tree holds the pairs of the finished insertion.
   */
  ghost predicate InsertFixup<V>(z: Tree<V>, path: seq<Frame<V>>, target: seq<(int, V)>)
  {
    z.Node? && z.color == Red && Balanced(z) && NoRedRed(z) &&
    Fits(Black, BlackHeight(z), path) &&
    (path != [] ==> path[|path| - 1].color == Black) &&
    Pairs(Plug(z, path)) == target
  }

  /** Two trees with the same pairs, plugged under the same path, give trees with the same pairs. */
  lemma PlugSamePairs<V>(a: Tree<V>, b: Tree<V>, path: seq<Frame<V>>)
    requires Pairs(a) == Pairs(b)
    ensures Pairs(Plug(a, path)) == Pairs(Plug(b, path))
  {
    PlugPairs(a, path);
    PlugPairs(b, path);
  }

  lemma PlugTwo<V>(t: Tree<V>, path: seq<Frame<V>>)
    requires |path| >= 2
    ensures Plug(t, path) == Plug(Build(path[1], Build(path[0], t)), path[2..])
  {
    assert path[1..][0] == path[1] && path[1..][1..] == path[2..];
  }

  /** An updated value in place: the pair with key k now carries v, nothing else changes. */
  lemma UpdateFacts<V>(root: Tree<V>, x: Tree<V>, path: seq<Frame<V>>, k: int, v: V)
    requires IsRedBlack(root) && Focus(root, x, path, k) && x.Node? && x.key == k
    ensures IsRedBlack(Plug(x.(value := v), path))
    ensures Pairs(Plug(x.(value := v), path)) == Upsert(Pairs(root), k, v)
    ensures k in KeysOf(Pairs(root))
  {
    var x' := x.(value := v);
    assert BlackHeight(x') == BlackHeight(x) && ColorOf(x') == ColorOf(x);
    assert Balanced(x') && NoRedRed(x');
    PlugFits(x', path);
    UpdatePairs(root, x, path, k, v);
    UpsertFacts(Pairs(root), k, v);
  }

  lemma UpdatePairs<V>(root: Tree<V>, x: Tree<V>, path: seq<Frame<V>>, k: int, v: V)
    requires Ordered(x) && x.Node? && x.key == k
    requires AllBelow(PathLeft(path), k) && AllAbove(PathRight(path), k)
    requires Pairs(root) == PathLeft(path) + Pairs(x) + PathRight(path)
    ensures Pairs(Plug(x.(value := v), path)) == Upsert(Pairs(root), k, v)
    ensures k in KeysOf(Pairs(root))
  {
    var x' := x.(value := v);
    OrderedChildren(x);
    UpsertNodeAt(x, v);
    assert Pairs(x') == Pairs(x.left) + ([(k, v)] + Pairs(x.right));
    PlugPairs(x', path);
    UpsertMiddle(PathLeft(path), Pairs(x), PathRight(path), k, v);
    EraseMiddle(PathLeft(path), Pairs(x), PathRight(path), k);
  }

  /** The new red leaf where the search fell off the tree starts the fix-up. */
  lemma LeafFacts<V>(root: Tree<V>, path: seq<Frame<V>>, k: int, v: V)
    requires IsRedBlack(root) && Focus(root, Nil, path, k)
    ensures InsertFixup(Node(Nil, k, v, Nil, 1, Red), path, Upsert(Pairs(root), k, v))
    ensures k !in KeysOf(Pairs(root))
    ensures Sorted(Upsert(Pairs(root), k, v))
  {
    LeafPairs(root, path, k, v);
    UpsertFacts(Pairs(root), k, v);
  }

  lemma LeafPairs<V>(root: Tree<V>, path: seq<Frame<V>>, k: int, v: V)
    requires AllBelow(PathLeft(path), k) && AllAbove(PathRight(path), k)
    requires Pairs(root) == PathLeft(path) + Pairs(Nil) + PathRight(path)
    ensures Pairs(Plug(Node(Nil, k, v, Nil, 1, Red), path)) == Upsert(Pairs(root), k, v)
    ensures k !in KeysOf(Pairs(root))
  {
    var z: Tree<V> := Node(Nil, k, v, Nil, 1, Red);
    var pl, pr := PathLeft(path), PathRight(path);
    assert Pairs(z) == [(k, v)] == Upsert([], k, v);
    assert KeysOf<V>([]) == {};
    PlugPairs(z, path);
    UpsertMiddle(pl, [], pr, k, v);
    EraseMiddle(pl, [], pr, k);
  }

  /**
   * Case 1 of rb_insert_fixup, the same on both sides: the parent and the
   * uncle turn black, the grandparent red, and the grandparent becomes z.
   */
  function RecolorUp<V>(z: Tree<V>, path: seq<Frame<V>>): Tree<V>
    requires |path| >= 2
  {
    var p, g := path[0], path[1];
    Build(g.(color := Red, sibling := Paint(g.sibling, Black)), Build(p.(color := Black), z))
  }

  lemma RecolorUpFacts<V>(z: Tree<V>, path: seq<Frame<V>>, target: seq<(int, V)>)
    requires InsertFixup(z, path, target) && |path| >= 2
    requires path[0].color == Red && ColorOf(path[1].sibling) == Red
    ensures InsertFixup(RecolorUp(z, path), path[2..], target)
  {
    var p, g := path[0], path[1];
    var h := BlackHeight(z);
    assert path[1..][0] == g && path[1..][1..] == path[2..];
    assert Fits(Red, h, path[1..]);
    assert g.color == Black && Fits(Black, h + 1, path[2..]);
    var y := Paint(g.sibling, Black);
    PaintKeeps(g.sibling, Black);
    var q := Build(p.(color := Black), z);
    assert BlackHeight(q) == h + 1 && Balanced(q) && NoRedRed(q);
    assert BlackHeight(RecolorUp(z, path)) == h + 1;
    PlugTwo(z, path);
    BuildPairs(p, z);
    BuildPairs(p.(color := Black), z);
    BuildPairs(g, Build(p, z));
    BuildPairs(g.(color := Red, sibling := y), q);
    PlugSamePairs(RecolorUp(z, path), Build(g, Build(p, z)), path[2..]);
  }

  /**
   * Cases 2 and 3 of rb_insert_fixup with a black uncle. When z is the inner
   * grandchild the parent is first rotated towards the outside; then the
   * parent's position turns black, the grandparent red, and the grandparent
   * is rotated away from z's side. The result is the new subtree in the
   * grandparent's place, and the loop ends because z's parent is now black.
   */
  function InsertRotate<V>(z: Tree<V>, path: seq<Frame<V>>): Tree<V>
    requires z.Node? && |path| >= 2
  {
    var p, g := path[0], path[1];
    if g.dir == Left then
      var a := if p.dir == Right then LeftRotate(Build(p, z)) else Build(p, z);
      RightRotate(Build(g.(color := Red), Paint(a, Black)))
    else
      var a := if p.dir == Left then RightRotate(Build(p, z)) else Build(p, z);
      LeftRotate(Build(g.(color := Red), Paint(a, Black)))
  }

  lemma InsertRotateFacts<V>(z: Tree<V>, path: seq<Frame<V>>, target: seq<(int, V)>)
    requires InsertFixup(z, path, target) && |path| >= 2
    requires path[0].color == Red && ColorOf(path[1].sibling) == Black
    ensures var s := InsertRotate(z, path);
      s.Node? && s.color == Black && Balanced(s) && NoRedRed(s) &&
      Fits(Black, BlackHeight(s), path[2..]) &&
      (path[2..] != [] ==> path[2..][|path[2..]| - 1].color == Black) &&
      Pairs(Plug(s, path[2..])) == target
  {
    var p, g := path[0], path[1];
    var h := BlackHeight(z);
    assert path[1..][0] == g && path[1..][1..] == path[2..];
    assert Fits(Red, h, path[1..]);
    assert g.color == Black && Fits(Black, h + 1, path[2..]);
    assert ColorOf(p.sibling) == Black && BlackHeight(p.sibling) == h && BlackHeight(g.sibling) == h;
    var s := InsertRotate(z, path);
    InsertRotateShape(z, p, g, h);
    PlugTwo(z, path);
    assert Pairs(s) == Pairs(Build(g, Build(p, z))) by {
      BuildPairs(p, z);
      BuildPairs(g, Build(p, z));
      InsertRotatePairs(z, path);
    }
    PlugSamePairs(s, Build(g, Build(p, z)), path[2..]);
  }

  lemma InsertRotateShape<V>(z: Tree<V>, p: Frame<V>, g: Frame<V>, h: int)
    requires z.Node? && z.color == Red && Balanced(z) && NoRedRed(z) && BlackHeight(z) == h
    requires p.color == Red && Balanced(p.sibling) && NoRedRed(p.sibling)
    requires ColorOf(p.sibling) == Black && BlackHeight(p.sibling) == h
    requires Balanced(g.sibling) && NoRedRed(g.sibling) && ColorOf(g.sibling) == Black && BlackHeight(g.sibling) == h
    ensures var s := InsertRotate(z, [p, g]);
      s.Node? && s.color == Black && Balanced(s) && NoRedRed(s) && BlackHeight(s) == h + 1
  {
    var s := InsertRotate(z, [p, g]);
    var ps, u := p.sibling, g.sibling;
    assert BlackHeight(z.left) == h && BlackHeight(z.right) == h;
    if g.dir == Left {
      if p.dir == Left {
        var low := Node(ps, g.key, g.value, u, g.height, Red);
        assert s == Node(z, p.key, p.value, low, p.height, Black);
        assert Balanced(low) && NoRedRed(low) && BlackHeight(low) == h;
      } else {
        var l := Node(ps, p.key, p.value, z.left, p.height, Red);
        var r := Node(z.right, g.key, g.value, u, g.height, Red);
        assert s == Node(l, z.key, z.value, r, z.height, Black);
        assert Balanced(l) && NoRedRed(l) && BlackHeight(l) == h;
        assert Balanced(r) && NoRedRed(r) && BlackHeight(r) == h;
      }
    } else {
      if p.dir == Right {
        var low := Node(u, g.key, g.value, ps, g.height, Red);
        assert s == Node(low, p.key, p.value, z, p.height, Black);
        assert Balanced(low) && NoRedRed(low) && BlackHeight(low) == h;
      } else {
        var l := Node(u, g.key, g.value, z.left, g.height, Red);
        var r := Node(z.right, p.key, p.value, ps, p.height, Red);
        assert s == Node(l, z.key, z.value, r, z.height, Black);
        assert Balanced(l) && NoRedRed(l) && BlackHeight(l) == h;
        assert Balanced(r) && NoRedRed(r) && BlackHeight(r) == h;
      }
    }
  }

  lemma InsertRotatePairs<V>(z: Tree<V>, path: seq<Frame<V>>)
    requires z.Node? && |path| >= 2
    ensures Pairs(InsertRotate(z, path)) == Pairs(Build(path[1], Build(path[0], z)))
  {
    var p, g := path[0], path[1];
    var a := if g.dir == Left then (if p.dir == Right then LeftRotate(Build(p, z)) else Build(p, z))
             else (if p.dir == Left then RightRotate(Build(p, z)) else Build(p, z));
    assert Pairs(a) == Pairs(Build(p, z));
    PaintPairs(a, Black);
    BuildPairs(g.(color := Red), Paint(a, Black));
    BuildPairs(g, Build(p, z));
  }

  /** After the loop, painting the root black leaves a red-black tree with the target pairs. */
  lemma InsertFinish<V>(z: Tree<V>, path: seq<Frame<V>>, target: seq<(int, V)>)
    requires Balanced(z) && NoRedRed(z) && Fits(Black, BlackHeight(z), path)
    requires path == [] || path[0].color == Black || ColorOf(z) == Black
    requires Pairs(Plug(z, path)) == target && Sorted(target)
    ensures IsRedBlack(Paint(Plug(z, path), Black))
    ensures Pairs(Paint(Plug(z, path), Black)) == target
  {
    FitsRecolor(Black, ColorOf(z), BlackHeight(z), path);
    PlugFits(z, path);
    PaintKeeps(Plug(z, path), Black);
  }

  /**
   * rb_tree_insert: walk down from the root by key; an equal key gets the new
   * value and nothing else changes; otherwise a red leaf is hung where the
   * walk fell off the tree and rb_insert_fixup restores the colours, ending
   * with a black root. created says whether a node was added (t->size++).
   */
  method Insert<V>(root: Tree<V>, k: int, v: V) returns (r: Tree<V>, created: bool)
    requires IsRedBlack(root)
    ensures IsRedBlack(r)
    ensures Pairs(r) == Upsert(Pairs(root), k, v)
    ensures created <==> k !in KeysOf(Pairs(root))
  {
    var x, path := root, [];
    FocusStart(root, k);
    while x.Node?
      invariant Focus(root, x, path, k)
      decreases x
    {
      if k == x.key {
        UpdateFacts(root, x, path, k, v);
        return Plug(x.(value := v), path), false;
      }
      FocusDown(root, x, path, k);
      var d := if k < x.key then Left else Right;
      x, path := if k < x.key then x.left else x.right, [Down(x, d)] + path;
    }
    var z := Node(Nil, k, v, Nil, 1, Red);
    ghost var target := Upsert(Pairs(root), k, v);
    LeafFacts(root, path, k, v);
    while path != [] && path[0].color == Red
      invariant InsertFixup(z, path, target)
      decreases |path|
    {
      // The root is black, so a red parent has a parent of its own.
      if ColorOf(path[1].sibling) == Red {
        RecolorUpFacts(z, path, target);
        z, path := RecolorUp(z, path), path[2..];
      } else {
        InsertRotateFacts(z, path, target);
        z, path := InsertRotate(z, path), path[2..];
        break;
      }
    }
    InsertFinish(z, path, target);
    r, created := Paint(Plug(z, path), Black), true;
  }

  // ---- deletion ----

  lemma BlackHeightNonNegative<V>(t: Tree<V>)
    ensures BlackHeight(t) >= 0
  {
  }

  /** Painting a node black keeps it balanced and adds one to its black height if it was red. */
  lemma PaintBlack<V>(t: Tree<V>)
    requires Balanced(t)
    ensures Balanced(Paint(t, Black)) && Pairs(Paint(t, Black)) == Pairs(t) && ColorOf(Paint(t, Black)) == Black
    ensures BlackHeight(Paint(t, Black)) == BlackHeight(t) + (if ColorOf(t) == Red then 1 else 0)
  {
  }

  /**
   * The state right after rb_tree_delete has unlinked a node of colour c and
   * put x in its place: x is valid, and its path fits a black node one black
   * taller than x when c was black. A red node removed had a black child
   * and a parent.
   */
  ghost predicate Removed<V>(x: Tree<V>, path: seq<Frame<V>>, c: Color, target: seq<(int, V)>)
  {
    Balanced(x) && NoRedRed(x) && Fits(Black, BlackHeight(x) + Step(c), path) &&
    (c == Red ==> ColorOf(x) == Black && path != []) &&
    (path != [] ==> path[|path| - 1].color == Black) &&
    Pairs(Plug(x, path)) == target && Sorted(target)
  }

  /**
   * What rb_delete_fixup keeps while it climbs: x carries an extra black
   * (its path fits a black node one taller than x), x may be red with a red
   * child only where painting it black would repair that, the root is
   * black, and the whole tree holds the pairs of the finished deletion.
   */
  ghost predicate DeleteFixup<V>(x: Tree<V>, path: seq<Frame<V>>, target: seq<(int, V)>)
  {
    Balanced(x) && NoRedRed(Paint(x, Black)) && Fits(Black, BlackHeight(x) + 1, path) &&
    (path != [] ==> path[|path| - 1].color == Black) &&
    Pairs(Plug(x, path)) == target && Sorted(target)
  }

  /** A key the search did not find: nothing to erase. */
  lemma MissingFacts<V>(root: Tree<V>, path: seq<Frame<V>>, k: int)
    requires Focus(root, Nil, path, k)
    ensures Erase(Pairs(root), k) == Pairs(root)
    ensures k !in KeysOf(Pairs(root))
  {
    var pl, pr := PathLeft(path), PathRight(path);
    assert Erase<V>([], k) == [];
    assert KeysOf<V>([]) == {};
    EraseMiddle(pl, [], pr, k);
  }

  /** rb_transplant of a node with no left child (or no right child) by its other child. */
  lemma OneChildFacts<V>(root: Tree<V>, z: Tree<V>, path: seq<Frame<V>>, k: int)
    requires IsRedBlack(root) && Focus(root, z, path, k) && z.Node? && z.key == k
    requires z.left.Nil? || z.right.Nil?
    ensures Removed(if z.left.Nil? then z.right else z.left, path, z.color, Erase(Pairs(root), k))
    ensures k in KeysOf(Pairs(root))
  {
    var x := if z.left.Nil? then z.right else z.left;
    FitsRecolor(z.color, Black, BlackHeight(z), path);
    assert BlackHeight(z) == BlackHeight(x) + Step(z.color);
    OneChildPairs(root, z, path, k);
    EraseFacts(Pairs(root), k);
  }

  lemma OneChildPairs<V>(root: Tree<V>, z: Tree<V>, path: seq<Frame<V>>, k: int)
    requires Ordered(z) && z.Node? && z.key == k && (z.left.Nil? || z.right.Nil?)
    requires AllBelow(PathLeft(path), k) && AllAbove(PathRight(path), k)
    requires Pairs(root) == PathLeft(path) + Pairs(z) + PathRight(path)
    ensures Pairs(Plug(if z.left.Nil? then z.right else z.left, path)) == Erase(Pairs(root), k)
    ensures k in KeysOf(Pairs(root))
  {
    var x := if z.left.Nil? then z.right else z.left;
    OrderedChildren(z);
    EraseNodeAt(z);
    assert Pairs(z.left) + Pairs(z.right) == Pairs(x);
    PlugPairs(x, path);
    EraseMiddle(PathLeft(path), Pairs(z), PathRight(path), k);
  }

  /** What rb_minimum knows while it walks left from z's right child. */
  ghost predicate MinimumWalk<V>(z: Tree<V>, y: Tree<V>, q: seq<Frame<V>>, path: seq<Frame<V>>)
    requires z.Node?
  {
    y.Node? && Balanced(y) && NoRedRed(y) &&
    Fits(ColorOf(y), BlackHeight(y), q + [Down(z, Right)] + path) &&
    (forall i :: 0 <= i < |q| ==> q[i].dir == Left) &&
    Plug(y, q) == z.right
  }

  lemma MinimumStart<V>(root: Tree<V>, z: Tree<V>, path: seq<Frame<V>>, k: int)
    requires Focus(root, z, path, k) && z.Node? && z.right.Node?
    ensures MinimumWalk(z, z.right, [], path)
  {
    DownFits(z, Right, path);
    assert [] + [Down(z, Right)] + path == [Down(z, Right)] + path;
  }

  lemma MinimumStep<V>(z: Tree<V>, y: Tree<V>, q: seq<Frame<V>>, path: seq<Frame<V>>)
    requires z.Node? && MinimumWalk(z, y, q, path) && y.left.Node?
    ensures MinimumWalk(z, y.left, [Down(y, Left)] + q, path)
  {
    var rest := q + [Down(z, Right)] + path;
    DownFits(y, Left, rest);
    assert [Down(y, Left)] + q + [Down(z, Right)] + path == [Down(y, Left)] + rest;
    var q' := [Down(y, Left)] + q;
    assert q'[1..] == q;
    assert Plug(y.left, q') == Plug(Build(Down(y, Left), y.left), q);
  }

  /** The frame that takes z's place: the successor's pair in z's position and colour. */
  function SuccessorFrame<V>(z: Tree<V>, y: Tree<V>): Frame<V>
    requires z.Node? && y.Node?
  {
    Frame(Right, y.key, y.value, z.color, z.left, y.height)
  }

  /**
   * The two-child case of rb_tree_delete: the leftmost node y of z's right
   * subtree is unlinked (its right child x takes its place) and y takes over
   * z's position, children and colour.
   */
  lemma SuccessorFacts<V>(root: Tree<V>, z: Tree<V>, path: seq<Frame<V>>, y: Tree<V>, q: seq<Frame<V>>, k: int)
    requires IsRedBlack(root) && Focus(root, z, path, k) && z.Node? && z.key == k
    requires z.left.Node? && z.right.Node?
    requires MinimumWalk(z, y, q, path) && y.left.Nil?
    ensures Removed(y.right, q + [SuccessorFrame(z, y)] + path, y.color, Erase(Pairs(root), k))
    ensures k in KeysOf(Pairs(root))
  {
    var f := SuccessorFrame(z, y);
    FitsReplace(ColorOf(y), BlackHeight(y), q, Down(z, Right), f, path);
    FitsRecolor(y.color, Black, BlackHeight(y), q + [f] + path);
    assert BlackHeight(y) == BlackHeight(y.right) + Step(y.color);
    var xpath := q + [f] + path;
    assert xpath[|xpath| - 1] == if path == [] then f else path[|path| - 1];
    SuccessorPairs(root, z, path, y, q, k);
    EraseFacts(Pairs(root), k);
  }

  lemma {:induction false} SuccessorPairs<V>(root: Tree<V>, z: Tree<V>, path: seq<Frame<V>>, y: Tree<V>, q: seq<Frame<V>>, k: int)
    requires Ordered(z) && z.Node? && z.key == k && y.Node? && y.left.Nil?
    requires Plug(y, q) == z.right && forall i :: 0 <= i < |q| ==> q[i].dir == Left
    requires AllBelow(PathLeft(path), k) && AllAbove(PathRight(path), k)
    requires Pairs(root) == PathLeft(path) + Pairs(z) + PathRight(path)
    ensures Pairs(Plug(y.right, q + [SuccessorFrame(z, y)] + path)) == Erase(Pairs(root), k)
    ensures k in KeysOf(Pairs(root))
  {
    var f := SuccessorFrame(z, y);
    EraseAtFocus(root, z, path);
    LeftmostPairs(y, q);
    assert Pairs(z.right) == [(y.key, y.value)] + Pairs(y.right) + PathRight(q);
    PlugSplit(y.right, q, f, path);
    assert Before(f) == Pairs(z.left) + [(y.key, y.value)] && After(f) == [];
    SuccessorRegroup(PathLeft(path), Pairs(z.left), [(y.key, y.value)], Pairs(y.right), PathRight(q), PathRight(path));
  }

  /** Erasing the key of the node in focus leaves the pairs around it and those of its two children. */
  lemma EraseAtFocus<V>(root: Tree<V>, z: Tree<V>, path: seq<Frame<V>>)
    requires Ordered(z) && z.Node?
    requires AllBelow(PathLeft(path), z.key) && AllAbove(PathRight(path), z.key)
    requires Pairs(root) == PathLeft(path) + Pairs(z) + PathRight(path)
    ensures Erase(Pairs(root), z.key) == PathLeft(path) + (Pairs(z.left) + Pairs(z.right)) + PathRight(path)
    ensures z.key in KeysOf(Pairs(root))
  {
    OrderedChildren(z);
    EraseNodeAt(z);
    EraseMiddle(PathLeft(path), Pairs(z), PathRight(path), z.key);
  }

  /** The subtree reached by going left only has its leftmost node's pair first. */
  lemma {:induction false} LeftmostPairs<V>(y: Tree<V>, q: seq<Frame<V>>)
    requires y.Node? && y.left.Nil? && forall i :: 0 <= i < |q| ==> q[i].dir == Left
    ensures Pairs(Plug(y, q)) == [(y.key, y.value)] + Pairs(y.right) + PathRight(q)
    ensures PathLeft(q) == []
  {
    AllLeftPath(q);
    PlugPairs(y, q);
    assert Pairs(y) == [] + [(y.key, y.value)] + Pairs(y.right);
    assert [] + Pairs(y) == Pairs(y);
  }

  /** The pairs of a tree plugged under a path with one frame f singled out. */
  lemma {:induction false} PlugSplit<V>(t: Tree<V>, q: seq<Frame<V>>, f: Frame<V>, path: seq<Frame<V>>)
    ensures Pairs(Plug(t, q + [f] + path)) ==
      (PathLeft(path) + Before(f) + PathLeft(q)) + Pairs(t) + (PathRight(q) + (After(f) + PathRight(path)))
  {
    PlugPairs(t, q + [f] + path);
    assert q + [f] + path == q + ([f] + path);
    PathLeftAppend(q, [f] + path);
    PathRightAppend(q, [f] + path);
    assert ([f] + path)[1..] == path;
  }

  lemma SuccessorRegroup<T>(pl: seq<T>, a: seq<T>, s: seq<T>, b: seq<T>, c: seq<T>, pr: seq<T>)
    ensures (pl + (a + s) + []) + b + (c + ([] + pr)) == pl + (a + (s + b + c)) + pr
  {
  }

  /** A black node whose path fits a node one black taller has a real sibling, itself at least one black tall. */
  lemma SiblingIsNode<V>(x: Tree<V>, path: seq<Frame<V>>, target: seq<(int, V)>)
    requires DeleteFixup(x, path, target) && path != []
    ensures path[0].sibling.Node?
  {
    BlackHeightNonNegative(x);
  }

  /**
   * Case 1 of rb_delete_fixup: a red sibling turns black, the parent red, and
   * the parent is rotated towards x; x keeps its place one level deeper,
   * under the now red parent whose new sibling for x is black.
   */
  function RedSiblingPath<V>(x: Tree<V>, path: seq<Frame<V>>): seq<Frame<V>>
    requires path != [] && path[0].sibling.Node?
  {
    var p := path[0];
    var w := p.sibling;
    if p.dir == Left then
      var t := LeftRotate(Node(x, p.key, p.value, Paint(w, Black), p.height, Red));
      [Down(t.left, Left), Down(t, Left)] + path[1..]
    else
      var t := RightRotate(Node(Paint(w, Black), p.key, p.value, x, p.height, Red));
      [Down(t.right, Right), Down(t, Right)] + path[1..]
  }

  lemma RedSiblingFacts<V>(x: Tree<V>, path: seq<Frame<V>>, target: seq<(int, V)>)
    requires DeleteFixup(x, path, target) && path != [] && ColorOf(x) == Black
    requires ColorOf(path[0].sibling) == Red
    ensures var path' := RedSiblingPath(x, path);
      DeleteFixup(x, path', target) && |path'| == |path| + 1 &&
      path'[0].color == Red && path'[0].sibling.Node? && path'[0].sibling.color == Black
  {
    var p, w := path[0], path[0].sibling;
    var path' := RedSiblingPath(x, path);
    var h := BlackHeight(x) + 1;
    assert p.color == Black && Fits(Black, h + 1, path[1..]);
    assert BlackHeight(w) == h && w.color == Red;
    assert BlackHeight(w.left) == h && BlackHeight(w.right) == h;
    assert ColorOf(w.left) == Black && ColorOf(w.right) == Black;
    BlackHeightNonNegative(x);
    assert w.left.Node? && w.right.Node?;
    var t := if p.dir == Left then LeftRotate(Node(x, p.key, p.value, Paint(w, Black), p.height, Red))
             else RightRotate(Node(Paint(w, Black), p.key, p.value, x, p.height, Red));
    assert path'[1..] == [path'[1]] + path[1..] && path'[1..][1..] == path[1..];
    assert Fits(Black, h, path');
    assert path' != [] ==> path'[|path'| - 1].color == Black by {
      if path[1..] == [] {
        assert path'[|path'| - 1] == path'[1];
      } else {
        assert path'[|path'| - 1] == path[|path| - 1];
      }
    }
    assert Build(path'[1], Build(path'[0], x)) == t;
    PlugTwo(x, path');
    assert Plug(x, path) == Plug(Build(p, x), path[1..]);
    PaintPairs(w, Black);
    BuildPairs(p, x);
    PlugSamePairs(t, Build(p, x), path[1..]);
  }

  /**
   * Case 2 of rb_delete_fixup: the sibling turns red and the extra black
   * moves up to the parent, which becomes x.
   */
  function MoveUp<V>(x: Tree<V>, path: seq<Frame<V>>): Tree<V>
    requires path != []
  {
    Build(path[0].(sibling := Paint(path[0].sibling, Red)), x)
  }

  lemma MoveUpFacts<V>(x: Tree<V>, path: seq<Frame<V>>, target: seq<(int, V)>)
    requires DeleteFixup(x, path, target) && path != [] && ColorOf(x) == Black
    requires path[0].sibling.Node? && path[0].sibling.color == Black
    requires ColorOf(path[0].sibling.left) == Black && ColorOf(path[0].sibling.right) == Black
    ensures DeleteFixup(MoveUp(x, path), path[1..], target)
    ensures ColorOf(MoveUp(x, path)) == path[0].color
  {
    var p, w := path[0], path[0].sibling;
    var h := BlackHeight(x) + 1;
    assert Fits(p.color, h + Step(p.color), path[1..]);
    FitsRecolor(p.color, Black, h + Step(p.color), path[1..]);
    assert Paint(x, Black) == x;
    var w' := Paint(w, Red);
    PaintKeeps(w, Red);
    assert BlackHeight(w') == BlackHeight(x);
    var u := MoveUp(x, path);
    assert u == Build(p.(sibling := w'), x);
    assert BlackHeight(u) == BlackHeight(x) + Step(p.color);
    assert Balanced(u);
    assert Paint(u, Black) == Build(p.(sibling := w', color := Black), x);
    assert NoRedRed(Paint(u, Black));
    assert Plug(x, path) == Plug(Build(p, x), path[1..]);
    BuildPairs(p, x);
    BuildPairs(p.(sibling := w'), x);
    PlugSamePairs(u, Build(p, x), path[1..]);
  }

  /**
   * Cases 3 and 4 of rb_delete_fixup, a black sibling with a red child. If
   * the far nephew is black, the near one turns black, the sibling red, and
   * the sibling is rotated away from x (case 3). Then the sibling takes the
   * parent's colour, the parent and the far nephew turn black, and the
   * parent is rotated towards x (case 4). The result is the new subtree in
   * the parent's place; the C code then sets x to the root, ending the loop.
   */
  function Restructure<V>(x: Tree<V>, path: seq<Frame<V>>): Tree<V>
    requires path != [] && path[0].sibling.Node?
    requires ColorOf(path[0].sibling.left) == Red || ColorOf(path[0].sibling.right) == Red
  {
    var p := path[0];
    var w := p.sibling;
    if p.dir == Left then
      var w1 := if ColorOf(w.right) == Black then RightRotate(Node(Paint(w.left, Black), w.key, w.value, w.right, w.height, Red)) else w;
      LeftRotate(Node(x, p.key, p.value, Node(w1.left, w1.key, w1.value, Paint(w1.right, Black), w1.height, p.color), p.height, Black))
    else
      var w1 := if ColorOf(w.left) == Black then LeftRotate(Node(w.left, w.key, w.value, Paint(w.right, Black), w.height, Red)) else w;
      RightRotate(Node(Node(Paint(w1.left, Black), w1.key, w1.value, w1.right, w1.height, p.color), p.key, p.value, x, p.height, Black))
  }

  lemma RestructureFacts<V>(x: Tree<V>, path: seq<Frame<V>>, target: seq<(int, V)>)
    requires DeleteFixup(x, path, target) && path != [] && ColorOf(x) == Black
    requires path[0].sibling.Node? && path[0].sibling.color == Black
    requires ColorOf(path[0].sibling.left) == Red || ColorOf(path[0].sibling.right) == Red
    ensures DeleteFixup(Plug(Restructure(x, path), path[1..]), [], target)
  {
    var p := path[0];
    var h := BlackHeight(x) + 1;
    var s := Restructure(x, path);
    assert Paint(x, Black) == x;
    assert Fits(p.color, h + Step(p.color), path[1..]);
    RestructureShape(x, p, h);
    PlugFits(s, path[1..]);
    PaintBlack(Plug(s, path[1..]));
    assert NoRedRed(Paint(Plug(s, path[1..]), Black));
    assert Plug(x, path) == Plug(Build(p, x), path[1..]);
    RestructurePairs(x, path);
    PlugSamePairs(s, Build(p, x), path[1..]);
  }

  lemma RestructureShape<V>(x: Tree<V>, p: Frame<V>, h: int)
    requires Balanced(x) && NoRedRed(x) && ColorOf(x) == Black && BlackHeight(x) + 1 == h
    requires p.sibling.Node? && p.sibling.color == Black
    requires Balanced(p.sibling) && NoRedRed(p.sibling) && BlackHeight(p.sibling) == h
    requires ColorOf(p.sibling.left) == Red || ColorOf(p.sibling.right) == Red
    requires p.color == Red ==> ColorOf(p.sibling) == Black
    ensures var s := Restructure(x, [p]);
      Balanced(s) && NoRedRed(s) && ColorOf(s) == p.color && BlackHeight(s) == h + Step(p.color)
  {
    var w := p.sibling;
    var s := Restructure(x, [p]);
    assert BlackHeight(w.left) == h - 1 && BlackHeight(w.right) == h - 1;
    if p.dir == Left {
      if ColorOf(w.right) == Black {
        var n := w.left;
        assert n.Node? && n.color == Red && BlackHeight(n.left) == h - 1 && BlackHeight(n.right) == h - 1;
        var l := Node(x, p.key, p.value, n.left, p.height, Black);
        var r := Node(n.right, w.key, w.value, w.right, w.height, Black);
        assert s == Node(l, n.key, n.value, r, n.height, p.color);
        assert Balanced(l) && NoRedRed(l) && BlackHeight(l) == h;
        assert Balanced(r) && NoRedRed(r) && BlackHeight(r) == h;
      } else {
        var l := Node(x, p.key, p.value, w.left, p.height, Black);
        var r := Paint(w.right, Black);
        assert s == Node(l, w.key, w.value, r, w.height, p.color);
        assert Balanced(l) && NoRedRed(l) && BlackHeight(l) == h;
        assert Balanced(r) && NoRedRed(r) && BlackHeight(r) == h;
      }
    } else {
      if ColorOf(w.left) == Black {
        var n := w.right;
        assert n.Node? && n.color == Red && BlackHeight(n.left) == h - 1 && BlackHeight(n.right) == h - 1;
        var l := Node(w.left, w.key, w.value, n.left, w.height, Black);
        var r := Node(n.right, p.key, p.value, x, p.height, Black);
        assert s == Node(l, n.key, n.value, r, n.height, p.color);
        assert Balanced(l) && NoRedRed(l) && BlackHeight(l) == h;
        assert Balanced(r) && NoRedRed(r) && BlackHeight(r) == h;
      } else {
        var l := Paint(w.left, Black);
        var r := Node(w.right, p.key, p.value, x, p.height, Black);
        assert s == Node(l, w.key, w.value, r, w.height, p.color);
        assert Balanced(l) && NoRedRed(l) && BlackHeight(l) == h;
        assert Balanced(r) && NoRedRed(r) && BlackHeight(r) == h;
      }
    }
  }

  lemma RestructurePairs<V>(x: Tree<V>, path: seq<Frame<V>>)
    requires path != [] && path[0].sibling.Node?
    requires ColorOf(path[0].sibling.left) == Red || ColorOf(path[0].sibling.right) == Red
    ensures Pairs(Restructure(x, path)) == Pairs(Build(path[0], x))
  {
    if path[0].dir == Left {
      RestructureLeftPairs(x, path);
    } else {
      RestructureRightPairs(x, path);
    }
  }

  lemma RestructureLeftPairs<V>(x: Tree<V>, path: seq<Frame<V>>)
    requires path != [] && path[0].dir == Left && path[0].sibling.Node?
    requires ColorOf(path[0].sibling.left) == Red || ColorOf(path[0].sibling.right) == Red
    ensures Pairs(Restructure(x, path)) == Pairs(Build(path[0], x))
  {
    var p := path[0];
    var w := p.sibling;
    var w1 := if ColorOf(w.right) == Black then RightRotate(Node(Paint(w.left, Black), w.key, w.value, w.right, w.height, Red)) else w;
    PaintPairs(w.left, Black);
    assert Pairs(w1) == Pairs(w);
    var m := Node(w1.left, w1.key, w1.value, Paint(w1.right, Black), w1.height, p.color);
    PaintPairs(w1.right, Black);
    assert Pairs(m) == Pairs(w1);
    var n := Node(x, p.key, p.value, m, p.height, Black);
    assert Restructure(x, path) == LeftRotate(n);
    assert Pairs(n) == Pairs(x) + [(p.key, p.value)] + Pairs(w);
  }

  lemma RestructureRightPairs<V>(x: Tree<V>, path: seq<Frame<V>>)
    requires path != [] && path[0].dir == Right && path[0].sibling.Node?
    requires ColorOf(path[0].sibling.left) == Red || ColorOf(path[0].sibling.right) == Red
    ensures Pairs(Restructure(x, path)) == Pairs(Build(path[0], x))
  {
    var p := path[0];
    var w := p.sibling;
    var w1 := if ColorOf(w.left) == Black then LeftRotate(Node(w.left, w.key, w.value, Paint(w.right, Black), w.height, Red)) else w;
    PaintPairs(w.right, Black);
    assert Pairs(w1) == Pairs(w);
    var m := Node(Paint(w1.left, Black), w1.key, w1.value, w1.right, w1.height, p.color);
    PaintPairs(w1.left, Black);
    assert Pairs(m) == Pairs(w1);
    var n := Node(m, p.key, p.value, x, p.height, Black);
    assert Restructure(x, path) == RightRotate(n);
    assert Pairs(n) == Pairs(w) + [(p.key, p.value)] + Pairs(x);
  }

  /** Leaving the loop: x is red or the root; painting it black finishes a red-black tree. */
  lemma DeleteFinish<V>(x: Tree<V>, path: seq<Frame<V>>, target: seq<(int, V)>)
    requires DeleteFixup(x, path, target) && (path == [] || ColorOf(x) == Red)
    ensures IsRedBlack(Plug(Paint(x, Black), path))
    ensures Pairs(Plug(Paint(x, Black), path)) == target
  {
    PaintBlack(x);
    if path != [] {
      PlugFits(Paint(x, Black), path);
    }
    PlugSamePairs(Paint(x, Black), x, path);
  }

  /** Unlinking a red node needs no fix-up. */
  lemma RemovedRedFinish<V>(x: Tree<V>, path: seq<Frame<V>>, target: seq<(int, V)>)
    requires Removed(x, path, Red, target)
    ensures IsRedBlack(Plug(x, path)) && Pairs(Plug(x, path)) == target
  {
    PlugFits(x, path);
  }

  lemma RemovedBlackFixup<V>(x: Tree<V>, path: seq<Frame<V>>, target: seq<(int, V)>)
    requires Removed(x, path, Black, target)
    ensures DeleteFixup(x, path, target)
  {
    PaintKeeps(x, Black);
  }

  /** rb_minimum on z's right subtree: walk left until a node without a left child. */
  method Minimum<V>(z: Tree<V>, path: seq<Frame<V>>) returns (y: Tree<V>, q: seq<Frame<V>>)
    requires z.Node? && MinimumWalk(z, z.right, [], path)
    ensures MinimumWalk(z, y, q, path) && y.left.Nil?
  {
    y, q := z.right, [];
    while y.left.Node?
      invariant MinimumWalk(z, y, q, path)
      decreases y
    {
      MinimumStep(z, y, q, path);
      y, q := y.left, [Down(y, Left)] + q;
    }
  }

  /**
   * rb_delete_fixup: x carries an extra black up the path until it reaches a
   * red node or the root, which is then painted black; the result is a
   * red-black tree with the same pairs.
   */
  method DeleteFixupLoop<V>(x: Tree<V>, path: seq<Frame<V>>, ghost target: seq<(int, V)>) returns (r: Tree<V>)
    requires DeleteFixup(x, path, target)
    ensures IsRedBlack(r) && Pairs(r) == target
  {
    var x, path := x, path;
    while path != [] && ColorOf(x) == Black
      invariant DeleteFixup(x, path, target)
      decreases |path| + Step(ColorOf(x))
    {
      SiblingIsNode(x, path, target);
      if ColorOf(path[0].sibling) == Red {
        RedSiblingFacts(x, path, target);
        path := RedSiblingPath(x, path);
      }
      SiblingIsNode(x, path, target);
      var w := path[0].sibling;
      if ColorOf(w.left) == Black && ColorOf(w.right) == Black {
        MoveUpFacts(x, path, target);
        x, path := MoveUp(x, path), path[1..];
      } else {
        RestructureFacts(x, path, target);
        x, path := Plug(Restructure(x, path), path[1..]), [];
      }
    }
    DeleteFinish(x, path, target);
    r := Plug(Paint(x, Black), path);
  }

  /**
   * rb_tree_delete: find the node with key k (none: nothing changes); unlink
   * it, or its in-order successor when it has two children, and if the
   * unlinked node was black run rb_delete_fixup from the node that took its
   * place. removed says whether a node was freed (t->size--).
   */
  method Delete<V>(root: Tree<V>, k: int) returns (r: Tree<V>, removed: bool)
    requires IsRedBlack(root)
    ensures IsRedBlack(r)
    ensures Pairs(r) == Erase(Pairs(root), k)
    ensures removed <==> k in KeysOf(Pairs(root))
  {
    var z, path := root, [];
    FocusStart(root, k);
    while z.Node? && z.key != k
      invariant Focus(root, z, path, k)
      decreases z
    {
      FocusDown(root, z, path, k);
      var d := if k < z.key then Left else Right;
      z, path := if k < z.key then z.left else z.right, [Down(z, d)] + path;
    }
    if z.Nil? {
      MissingFacts(root, path, k);
      return root, false;
    }
    ghost var target := Erase(Pairs(root), k);
    var x, xpath, removedColor;
    if z.left.Nil? || z.right.Nil? {
      OneChildFacts(root, z, path, k);
      x, xpath, removedColor := if z.left.Nil? then z.right else z.left, path, z.color;
    } else {
      MinimumStart(root, z, path, k);
      var y, q := Minimum(z, path);
      SuccessorFacts(root, z, path, y, q, k);
      x, xpath, removedColor := y.right, q + [SuccessorFrame(z, y)] + path, y.color;
    }
    if removedColor == Black {
      RemovedBlackFixup(x, xpath, target);
      r := DeleteFixupLoop(x, xpath, target);
    } else {
      RemovedRedFinish(x, xpath, target);
      r := Plug(x, xpath);
    }
    removed := true;
  }
}
