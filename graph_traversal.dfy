/**
 * The traversals of graph_algorithms.c: breadth-first, iterative
 * depth-first and recursive depth-first search from a start vertex. Each
 * walks the out-edge records of a vertex in the order the backend keeps
 * them, skips targets that are not present, and lists every vertex it
 * reaches once.
 */
module Traversals {
  import opened ListSpec
  import opened GraphNets

  /** Everything a traversal from s has listed so far is a vertex reachable from s. */
  ghost predicate FromStart(n: Net, s: int, vs: seq<int>)
  {
    forall v :: v in vs ==> IsVertex(n, v) && Reachable(n, s, v)
  }

  /** The flags mark exactly the ids listed. */
  ghost predicate MarksExactly(visited: seq<bool>, vs: seq<int>)
  {
    forall v :: 0 <= v < |visited| ==> (visited[v] <==> v in vs)
  }

  /** What every traversal returns: s first, no repeats, exactly the vertices reachable from s. */
  ghost predicate Traversal(n: Net, s: int, order: seq<int>)
  {
    (!IsVertex(n, s) ==> order == []) &&
    (IsVertex(n, s) ==> |order| > 0 && order[0] == s && forall v :: v in order <==> Reachable(n, s, v)) &&
    Distinct(order)
  }

  /** A closed listing that holds s lists everything reachable from s. */
  lemma ClosedListing(n: Net, s: int, order: seq<int>)
    requires IsVertex(n, s) && s in order && FromStart(n, s, order)
    requires forall u, w :: u in order && Arc(n, u, w) ==> w in order
    ensures forall v :: v in order <==> Reachable(n, s, v)
  {
    var S := set v | v in order;
    forall v | Reachable(n, s, v)
      ensures v in order
    {
      ClosedHoldsReachable(n, S, s, v);
    }
  }

  /** A listing without repeats holds at most one entry per id. */
  lemma ListingBounded(n: Net, s: int, vs: seq<int>)
    requires FromStart(n, s, vs) && Distinct(vs)
    ensures |vs| <= |n.present|
  {
    forall i | 0 <= i < |vs|
      ensures 0 <= vs[i] < |n.present|
    {
      assert vs[i] in vs;
    }
    DistinctBounded(vs, |n.present|);
  }

  /** A vertex reached by a record out of a reachable vertex is reachable. */
  lemma RecordReachable(n: Net, s: int, v: int, i: int)
    requires WellFormed(n) && IsVertex(n, v) && Reachable(n, s, v) && 0 <= i < |n.out[v]|
    ensures IsVertex(n, n.out[v][i].to) && Reachable(n, s, n.out[v][i].to)
  {
    RecordIsArc(n, v, i);
    ReachableStep(n, s, v, n.out[v][i].to);
  }

  /** Distinct vertices: what a depth-first walk has listed so far. */
  ghost predicate Listed(n: Net, acc: seq<int>)
  {
    Distinct(acc) && forall x :: x in acc ==> IsVertex(n, x)
  }

  /** A listing of distinct vertices has at most one entry per vertex id. */
  lemma ListedBounded(n: Net, acc: seq<int>)
    requires Listed(n, acc)
    ensures |acc| <= |n.present|
  {
    forall i | 0 <= i < |acc|
      ensures 0 <= acc[i] < |n.present|
    {
      assert acc[i] in acc;
    }
    DistinctBounded(acc, |n.present|);
  }

  /**
   * Depth-first preorder as a worklist: the head of todo is skipped when it
   * is not a vertex or is already listed; otherwise it is listed and its
   * record targets, in record order, go in front of the rest of todo.
   */
  ghost function DfsFrom(n: Net, todo: seq<int>, acc: seq<int>): seq<int>
    requires WellFormed(n) && Listed(n, acc)
    decreases |n.present| - |acc|, |todo|
  {
    if todo == [] then acc
    else
      var w := todo[0];
      if !IsVertex(n, w) || w in acc then DfsFrom(n, todo[1..], acc)
      else
        DistinctAppend(acc, w);
        ListedBounded(n, acc + [w]);
        DfsFrom(n, Targets(n.out[w]) + todo[1..], acc + [w])
  }

  /** The depth-first order from s: empty when s is not a vertex. */
  ghost function DfsOrder(n: Net, s: int): seq<int>
    requires WellFormed(n)
  {
    if IsVertex(n, s) then DfsFrom(n, [s], []) else []
  }

  /** An entry that is not a vertex, or is already listed, can be dropped anywhere from the worklist. */
  lemma {:induction false} DfsSkips(n: Net, z: seq<int>, x: int, y: seq<int>, acc: seq<int>)
    requires WellFormed(n) && Listed(n, acc) && (x in acc || !IsVertex(n, x))
    ensures DfsFrom(n, z + [x] + y, acc) == DfsFrom(n, z + y, acc)
    decreases |n.present| - |acc|, |z|
  {
    if z == [] {
      assert z + [x] + y == [x] + y && ([x] + y)[1..] == y && z + y == y;
    } else {
      var w := z[0];
      assert (z + [x] + y)[0] == w && (z + [x] + y)[1..] == z[1..] + [x] + y;
      assert (z + y)[0] == w && (z + y)[1..] == z[1..] + y;
      if !IsVertex(n, w) || w in acc {
        DfsSkips(n, z[1..], x, y, acc);
      } else {
        DistinctAppend(acc, w);
        ListedBounded(n, acc + [w]);
        var t := Targets(n.out[w]);
        assert t + (z[1..] + [x] + y) == (t + z[1..]) + [x] + y;
        assert t + (z[1..] + y) == (t + z[1..]) + y;
        DfsSkips(n, t + z[1..], x, y, acc + [w]);
      }
    }
  }

  /** Popping the top of a stack takes the head of its reversal. */
  lemma ReverseSnoc(s: seq<int>, x: int)
    ensures Reverse(s + [x]) == [x] + Reverse(s)
  {
    forall k | 0 <= k < |s| + 1
      ensures Reverse(s + [x])[k] == ([x] + Reverse(s))[k]
    {
      ReverseAt(s + [x], k);
      if k > 0 {
        ReverseAt(s, k - 1);
      }
    }
  }

  /** The depth-first walk only appends: what was listed stays first, and every vertex of the worklist gets listed. */
  lemma {:induction false} DfsFromExtends(n: Net, todo: seq<int>, acc: seq<int>)
    requires WellFormed(n) && Listed(n, acc)
    ensures |DfsFrom(n, todo, acc)| >= |acc| && DfsFrom(n, todo, acc)[..|acc|] == acc
    ensures Listed(n, DfsFrom(n, todo, acc))
    ensures forall x :: x in todo && IsVertex(n, x) ==> x in DfsFrom(n, todo, acc)
    decreases |n.present| - |acc|, |todo|
  {
    if todo != [] {
      var w := todo[0];
      assert todo == [w] + todo[1..];
      if !IsVertex(n, w) || w in acc {
        DfsFromExtends(n, todo[1..], acc);
      } else {
        DistinctAppend(acc, w);
        ListedBounded(n, acc + [w]);
        var r := DfsFrom(n, Targets(n.out[w]) + todo[1..], acc + [w]);
        DfsFromExtends(n, Targets(n.out[w]) + todo[1..], acc + [w]);
        assert r[..|acc|] == r[..|acc + [w]|][..|acc|];
        assert r[|acc|] == w;
        forall x | x in acc
          ensures x in r
        {
          var j :| 0 <= j < |acc| && acc[j] == x;
          assert r[j] == x;
        }
      }
    }
  }

  /**
   * When every arc out of a listed vertex ends at a listed vertex or at an
   * entry of the worklist, the finished walk is closed under arcs.
   */
  lemma {:induction false} DfsFromClosed(n: Net, todo: seq<int>, acc: seq<int>)
    requires WellFormed(n) && Listed(n, acc)
    requires forall u, x :: u in acc && Arc(n, u, x) ==> x in acc || x in todo
    ensures forall u, x :: u in DfsFrom(n, todo, acc) && Arc(n, u, x) ==> x in DfsFrom(n, todo, acc)
    decreases |n.present| - |acc|, |todo|
  {
    if todo != [] {
      var w := todo[0];
      assert todo == [w] + todo[1..];
      if !IsVertex(n, w) || w in acc {
        DfsFromClosed(n, todo[1..], acc);
      } else {
        DistinctAppend(acc, w);
        ListedBounded(n, acc + [w]);
        var todo' := Targets(n.out[w]) + todo[1..];
        TargetsAreArcs(n, w);
        forall u, x | u in acc + [w] && Arc(n, u, x)
          ensures x in acc + [w] || x in todo'
        {
          if u == w {
            assert x in Targets(n.out[w]);
          }
        }
        DfsFromClosed(n, todo', acc + [w]);
      }
    }
  }

  /** When what is listed and what is pending is reachable from s, so is everything the walk lists. */
  lemma {:induction false} DfsFromReachable(n: Net, s: int, todo: seq<int>, acc: seq<int>)
    requires WellFormed(n) && Listed(n, acc) && FromStart(n, s, acc)
    requires forall x :: x in todo && IsVertex(n, x) ==> Reachable(n, s, x)
    ensures FromStart(n, s, DfsFrom(n, todo, acc))
    decreases |n.present| - |acc|, |todo|
  {
    if todo != [] {
      var w := todo[0];
      assert todo == [w] + todo[1..];
      if !IsVertex(n, w) || w in acc {
        DfsFromReachable(n, s, todo[1..], acc);
      } else {
        DistinctAppend(acc, w);
        ListedBounded(n, acc + [w]);
        var todo' := Targets(n.out[w]) + todo[1..];
        forall x | x in todo' && IsVertex(n, x)
          ensures Reachable(n, s, x)
        {
          if x in Targets(n.out[w]) {
            var k :| 0 <= k < |n.out[w]| && Targets(n.out[w])[k] == x;
            RecordReachable(n, s, w, k);
          }
        }
        DfsFromReachable(n, s, todo', acc + [w]);
      }
    }
  }

  /** The depth-first order from s starts at s and lists every vertex reachable from s exactly once. */
  lemma DfsOrderTraverses(n: Net, s: int)
    requires WellFormed(n)
    ensures Traversal(n, s, DfsOrder(n, s))
  {
    if IsVertex(n, s) {
      var r := DfsOrder(n, s);
      assert [s][0] == s && [s][1..] == [];
      ListedBounded(n, [s]);
      assert [] + [s] == [s];
      assert r == DfsFrom(n, Targets(n.out[s]) + [], [s]);
      DfsFromExtends(n, Targets(n.out[s]) + [], [s]);
      assert r[0] == r[..1][0] == s;
      DfsFromExtends(n, [s], []);
      DfsFromClosed(n, [s], []);
      ReachableSelf(n, s);
      DfsFromReachable(n, s, [s], []);
      ClosedListing(n, s, r);
    }
  }

  /**
   * graph_bfs: a FIFO queue seeded with the start vertex; each dequeued
   * vertex is appended to the order and its unvisited present targets are
   * marked and enqueued. An absent start gives the empty order.
   */
  method Bfs(n: Net, s: int) returns (order: seq<int>)
    requires WellFormed(n)
    ensures Traversal(n, s, order)
  {
    order := [];
    if !IsVertex(n, s) {
      return;
    }
    var visited := seq(|n.present|, _ => false)[s := true];
    var queue := [s];
    ReachableSelf(n, s);
    while queue != []
      invariant |visited| == |n.present|
      invariant MarksExactly(visited, order + queue)
      invariant FromStart(n, s, order + queue)
      invariant Distinct(order + queue) && |order + queue| > 0 && (order + queue)[0] == s
      invariant |order| + |queue| <= |visited|
      invariant forall u, w :: u in order && Arc(n, u, w) ==> w in order + queue
      decreases |visited| - |order|
    {
      var v := queue[0];
      assert (order + queue)[|order|] == v;
      assert v in order + queue;
      ghost var done := order;
      assert order + queue == (order + [v]) + queue[1..];
      queue := queue[1..];
      order := order + [v];
      var i := 0;
      while i < |n.out[v]|
        invariant 0 <= i <= |n.out[v]|
        invariant |visited| == |n.present|
        invariant MarksExactly(visited, order + queue)
        invariant FromStart(n, s, order + queue)
        invariant Distinct(order + queue) && (order + queue)[0] == s
        invariant |order| + |queue| <= |visited|
        invariant order == done + [v]
        invariant forall u, w :: u in done && Arc(n, u, w) ==> w in order + queue
        invariant forall k :: 0 <= k < i ==> n.out[v][k].to in order + queue
      {
        var w := n.out[v][i].to;
        RecordReachable(n, s, v, i);
        if IsVertex(n, w) && !visited[w] {
          DistinctAppend(order + queue, w);
          assert (order + queue) + [w] == order + (queue + [w]);
          visited := visited[w := true];
          queue := queue + [w];
          ListingBounded(n, s, order + queue);
        }
        i := i + 1;
      }
      TargetsAreArcs(n, v);
      forall u, w | u in order && Arc(n, u, w)
        ensures w in order + queue
      {
        if u == v {
          assert w in Targets(n.out[v]);
        }
      }
    }
    assert order + queue == order;
    assert order[0] == s;
    ClosedListing(n, s, order);
  }

  /**
   * graph_dfs_iterative: a LIFO stack seeded with the start vertex; a
   * popped vertex already visited is skipped, otherwise it is visited,
   * appended, and its unvisited present targets are pushed last record
   * first, so the first record is explored first. The order is the
   * depth-first preorder.
   */
  method DfsIterative(n: Net, s: int) returns (order: seq<int>)
    requires WellFormed(n)
    ensures order == DfsOrder(n, s) && Traversal(n, s, order)
  {
    DfsOrderTraverses(n, s);
    order := [];
    if !IsVertex(n, s) {
      return;
    }
    var visited := seq(|n.present|, _ => false);
    var stack := [s];
    assert Reverse(stack) == [s];
    while stack != []
      invariant |visited| == |n.present| && MarksExactly(visited, order) && Listed(n, order)
      invariant forall x :: x in stack ==> IsVertex(n, x)
      invariant DfsFrom(n, Reverse(stack), order) == DfsFrom(n, [s], [])
      decreases |visited| - |order|, |stack|
    {
      ListedBounded(n, order);
      var v := stack[|stack| - 1];
      assert v in stack;
      var below := stack[..|stack| - 1];
      assert stack == below + [v];
      ReverseSnoc(below, v);
      assert ([v] + Reverse(below))[0] == v && ([v] + Reverse(below))[1..] == Reverse(below);
      stack := below;
      if visited[v] {
        continue;
      }
      DistinctAppend(order, v);
      visited := visited[v := true];
      order := order + [v];
      stack := PushTargets(n, v, visited, order, below);
      TargetsAreVertices(n, v);
      ListedBounded(n, order);
    }
    assert Reverse(stack) == [];
  }

  /** Every record target of a vertex is a vertex. */
  lemma TargetsAreVertices(n: Net, v: int)
    requires WellFormed(n) && IsVertex(n, v)
    ensures forall x :: x in Targets(n.out[v]) ==> IsVertex(n, x)
  {
    forall x | x in Targets(n.out[v])
      ensures IsVertex(n, x)
    {
      var k :| 0 <= k < |n.out[v]| && Targets(n.out[v])[k] == x;
      RecordIsArc(n, v, k);
    }
  }

  /**
   * The inner loop of graph_dfs_iterative: the targets of v that are
   * present and unvisited are pushed, last record first, so that the
   * reversed stack walks them first and in record order.
   */
  method PushTargets(n: Net, v: int, visited: seq<bool>, ghost acc: seq<int>, stack: seq<int>)
      returns (stack': seq<int>)
    requires WellFormed(n) && IsVertex(n, v) && |visited| == |n.present|
    requires MarksExactly(visited, acc) && Listed(n, acc)
    ensures forall x :: x in stack' <==> x in stack || (x in Targets(n.out[v]) && x !in acc)
    ensures DfsFrom(n, Reverse(stack'), acc) == DfsFrom(n, Targets(n.out[v]) + Reverse(stack), acc)
  {
    ghost var t := Targets(n.out[v]);
    stack' := stack;
    var i := |n.out[v]|;
    assert t[..i] == t && t[i..] == [];
    while i > 0
      invariant 0 <= i <= |n.out[v]|
      invariant forall x :: x in stack' <==> x in stack || (x in t[i..] && x !in acc)
      invariant DfsFrom(n, t[..i] + Reverse(stack'), acc) == DfsFrom(n, t + Reverse(stack), acc)
    {
      i := i - 1;
      var w := n.out[v][i].to;
      RecordIsArc(n, v, i);
      assert t[..i + 1] == t[..i] + [w] && t[i..] == [w] + t[i + 1..];
      if IsVertex(n, w) && !visited[w] {
        ReverseSnoc(stack', w);
        assert t[..i] + Reverse(stack' + [w]) == t[..i + 1] + Reverse(stack');
        stack' := stack' + [w];
      } else {
        DfsSkips(n, t[..i], w, Reverse(stack'), acc);
        assert t[..i + 1] + Reverse(stack') == t[..i] + [w] + Reverse(stack');
      }
    }
    assert t[..0] + Reverse(stack') == Reverse(stack') && t[0..] == t;
  }

  /**
   * dfs_recursive_visit: mark v, append it, then recurse into every
   * unvisited present target in record order. Visiting v in front of a
   * worklist rest lists what the depth-first walk of [v] + rest lists
   * before it reaches rest.
   */
  method Visit(n: Net, v: int, visited: seq<bool>, order: seq<int>, ghost rest: seq<int>)
      returns (visited': seq<bool>, order': seq<int>)
    requires WellFormed(n) && |visited| == |n.present| && MarksExactly(visited, order) && Listed(n, order)
    requires IsVertex(n, v) && !visited[v]
    ensures |visited'| == |n.present| && MarksExactly(visited', order') && Listed(n, order')
    ensures |order'| > |order|
    ensures DfsFrom(n, [v] + rest, order) == DfsFrom(n, rest, order')
    decreases |visited| - |order|, 0
  {
    DistinctAppend(order, v);
    visited' := visited[v := true];
    order' := order + [v];
    ListedBounded(n, order');
    ghost var t := Targets(n.out[v]);
    assert ([v] + rest)[0] == v && ([v] + rest)[1..] == rest && t[0..] == t;
    var i := 0;
    while i < |n.out[v]|
      invariant 0 <= i <= |n.out[v]|
      invariant |visited'| == |n.present| && MarksExactly(visited', order') && Listed(n, order')
      invariant |order'| > |order|
      invariant DfsFrom(n, t[i..] + rest, order') == DfsFrom(n, [v] + rest, order)
    {
      var w := n.out[v][i].to;
      ghost var later := t[i + 1..] + rest;
      assert t[i..] + rest == [w] + later;
      ListedBounded(n, order');
      visited', order' := VisitTarget(n, w, visited', order', later);
      i := i + 1;
    }
    assert t[i..] + rest == rest;
  }

  /** One record target in dfs_recursive_visit: visited when it is present and unvisited, skipped otherwise. */
  method VisitTarget(n: Net, w: int, visited: seq<bool>, order: seq<int>, ghost rest: seq<int>)
      returns (visited': seq<bool>, order': seq<int>)
    requires WellFormed(n) && |visited| == |n.present| && MarksExactly(visited, order) && Listed(n, order)
    requires |order| <= |visited|
    ensures |visited'| == |n.present| && MarksExactly(visited', order') && Listed(n, order')
    ensures |order'| >= |order|
    ensures DfsFrom(n, [w] + rest, order) == DfsFrom(n, rest, order')
    decreases |visited| - |order|, 1
  {
    if IsVertex(n, w) && !visited[w] {
      visited', order' := Visit(n, w, visited, order, rest);
    } else {
      visited', order' := visited, order;
      DfsSkips(n, [], w, rest, order);
      assert [] + [w] + rest == [w] + rest && [] + rest == rest;
    }
  }

  /** graph_dfs_recursive: dfs_recursive_visit from the start with nothing visited. */
  method DfsRecursive(n: Net, s: int) returns (order: seq<int>)
    requires WellFormed(n)
    ensures order == DfsOrder(n, s) && Traversal(n, s, order)
  {
    DfsOrderTraverses(n, s);
    order := [];
    if !IsVertex(n, s) {
      return;
    }
    var visited := seq(|n.present|, _ => false);
    visited, order := Visit(n, s, visited, [], []);
    assert [s] + [] == [s];
  }
}
