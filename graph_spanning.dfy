/**
 * The spanning-tree algorithms of graph_algorithms.c: Prim's algorithm
 * over a min-heap of candidate edges, and Kruskal's algorithm over the
 * edges sorted by weight with a union-find forest. The heap is a sequence
 * whose minimum-weight entry is popped; the in_mst, parent and rank
 * buffers are sequences threaded through the loops.
 */
module SpanningTrees {
  import opened Wrappers
  import opened ListSpec
  import opened GraphNets
  import opened Traversals
  import opened Orderings

  /** graph_weighted_edge: an edge with both ends and its weight. */
  datatype WeightedEdge = WeightedEdge(from: int, to: int, weight: real)

  /** The edge is an arc of the graph and carries the arc's weight. */
  ghost predicate Carried(n: Net, e: WeightedEdge)
  {
    IsVertex(n, e.from) && IsVertex(n, e.to) && EdgeWeight(n, e.from, e.to) == Finite(e.weight)
  }

  /** The far ends of a sequence of edges. */
  function Ends(es: seq<WeightedEdge>): (r: seq<int>)
    ensures |r| == |es| && forall k :: 0 <= k < |es| ==> r[k] == es[k].to
  {
    if es == [] then [] else Ends(es[..|es| - 1]) + [es[|es| - 1].to]
  }

  // ---------------------------------------------------------------------
  // graph_first_vertex

  /** The least vertex id from v on, -1 when there is none. */
  ghost function First(n: Net, v: nat): int
    decreases |n.present| - v
  {
    if v >= |n.present| then -1 else if IsVertex(n, v) then v else First(n, v + 1)
  }

  /** First(n, v) is the least vertex from v on, and -1 exactly when there is none. */
  lemma {:induction false} FirstIsLeast(n: Net, v: nat)
    ensures First(n, v) == -1 <==> forall x :: v <= x ==> !IsVertex(n, x)
    ensures First(n, v) != -1 ==>
      v <= First(n, v) && IsVertex(n, First(n, v)) && forall x :: v <= x < First(n, v) ==> !IsVertex(n, x)
    decreases |n.present| - v
  {
    if v < |n.present| && !IsVertex(n, v) {
      FirstIsLeast(n, v + 1);
    }
  }

  /** graph_first_vertex: the least present id, -1 for a graph without vertices. */
  method FirstVertex(n: Net) returns (r: int)
    ensures r == First(n, 0)
  {
    var v := 0;
    while v < |n.present|
      invariant 0 <= v <= |n.present| && First(n, v) == First(n, 0)
    {
      if IsVertex(n, v) {
        return v;
      }
      v := v + 1;
    }
    return -1;
  }

  // ---------------------------------------------------------------------
  // Prim

  /** The root Prim grows from: the given id when it is a vertex, else the least vertex. */
  ghost function PrimRoot(n: Net, s: int): int
  {
    if IsVertex(n, s) then s else First(n, 0)
  }

  /** The tree so far: the root, then the far end of every accepted edge. */
  function Joined(start: int, mst: seq<WeightedEdge>): (r: seq<int>)
    ensures |r| == |mst| + 1 && r[0] == start
  {
    [start] + Ends(mst)
  }

  /** Accepting an edge appends its far end to the tree. */
  lemma JoinedAppend(start: int, mst: seq<WeightedEdge>, e: WeightedEdge)
    ensures Joined(start, mst + [e]) == Joined(start, mst) + [e.to]
  {
    assert (mst + [e])[..|mst|] == mst;
  }

  /**
   * A tree grown from start: every edge is an arc from a vertex already
   * in the tree to one not yet in it.
   */
  ghost predicate Grown(n: Net, start: int, mst: seq<WeightedEdge>)
  {
    forall k :: 0 <= k < |mst| ==> Attached(n, Joined(start, mst[..k]), mst[k])
  }

  /**
   * e is an arc from a vertex of the tree to a vertex outside it, and no
   * arc leaving the tree weighs less.
   */
  ghost predicate Attached(n: Net, tree: seq<int>, e: WeightedEdge)
  {
    Carried(n, e) && e.from in tree && e.to !in tree &&
    forall u, w, x :: u in tree && w !in tree && EdgeWeight(n, u, w) == Finite(x) ==> e.weight <= x
  }

  /** The heap entries prim_push_edges adds for from: one per record to a vertex outside the tree. */
  function Offers(n: Net, from: int, es: seq<Edge>, inTree: seq<bool>): (r: seq<WeightedEdge>)
    requires |inTree| == |n.present|
    ensures forall e :: e in r ==> e.from == from && IsVertex(n, e.to) && !inTree[e.to]
  {
    if es == [] then []
    else
      var last := es[|es| - 1];
      Offers(n, from, es[..|es| - 1], inTree) +
        if IsVertex(n, last.to) && !inTree[last.to] then [WeightedEdge(from, last.to, last.weight)] else []
  }

  /** The offers of a vertex are arcs out of it with their weights, and cover every arc to a vertex outside the tree. */
  lemma {:induction false} OffersCover(n: Net, from: int, i: int, inTree: seq<bool>)
    requires WellFormed(n) && IsVertex(n, from) && |inTree| == |n.present| && 0 <= i <= |n.out[from]|
    ensures forall e :: e in Offers(n, from, n.out[from][..i], inTree) ==> Carried(n, e)
    ensures forall k :: 0 <= k < i && !inTree[n.out[from][k].to] ==>
      WeightedEdge(from, n.out[from][k].to, n.out[from][k].weight) in Offers(n, from, n.out[from][..i], inTree)
    decreases i
  {
    if i > 0 {
      var es := n.out[from][..i];
      assert es[..|es| - 1] == n.out[from][..i - 1];
      OffersCover(n, from, i - 1, inTree);
      RecordIsArc(n, from, i - 1);
      var head := Offers(n, from, n.out[from][..i - 1], inTree);
      var r := Offers(n, from, es, inTree);
      forall k | 0 <= k < i && !inTree[n.out[from][k].to]
        ensures WeightedEdge(from, n.out[from][k].to, n.out[from][k].weight) in r
      {
        RecordIsArc(n, from, k);
        if k < i - 1 {
          assert WeightedEdge(from, n.out[from][k].to, n.out[from][k].weight) in head;
        } else {
          assert WeightedEdge(from, es[i - 1].to, es[i - 1].weight) in r;
        }
      }
    }
  }

  /** Every arc from a vertex to an id outside the tree is among its offers, with its weight. */
  lemma OffersArcs(n: Net, from: int, inTree: seq<bool>)
    requires WellFormed(n) && IsVertex(n, from) && |inTree| == |n.present|
    ensures forall e :: e in Offers(n, from, n.out[from], inTree) ==> Carried(n, e)
    ensures forall w, x :: EdgeWeight(n, from, w) == Finite(x) && !inTree[w] ==>
      WeightedEdge(from, w, x) in Offers(n, from, n.out[from], inTree)
  {
    OffersCover(n, from, |n.out[from]|, inTree);
    assert n.out[from][..|n.out[from]|] == n.out[from];
    forall w, x | EdgeWeight(n, from, w) == Finite(x) && !inTree[w]
      ensures WeightedEdge(from, w, x) in Offers(n, from, n.out[from], inTree)
    {
      var k := ArcHasRecord(n, from, w);
      RecordIsArc(n, from, k);
    }
  }

  /** prim_push_edges: offer every record of from whose target is a vertex outside the tree. */
  method PushEdges(n: Net, from: int, inTree: seq<bool>, pq: seq<WeightedEdge>) returns (pq': seq<WeightedEdge>)
    requires WellFormed(n) && IsVertex(n, from) && |inTree| == |n.present|
    ensures pq' == pq + Offers(n, from, n.out[from], inTree)
  {
    pq' := pq;
    var i := 0;
    while i < |n.out[from]|
      invariant 0 <= i <= |n.out[from]|
      invariant pq' == pq + Offers(n, from, n.out[from][..i], inTree)
    {
      var e := n.out[from][i];
      assert n.out[from][..i + 1][..i] == n.out[from][..i];
      if IsVertex(n, e.to) && !inTree[e.to] {
        pq' := pq' + [WeightedEdge(from, e.to, e.weight)];
      }
      i := i + 1;
    }
    assert n.out[from][..i] == n.out[from];
  }

  /** The position of a minimum-weight heap entry: what pq->pop returns. */
  method MinEdge(pq: seq<WeightedEdge>) returns (m: int)
    requires pq != []
    ensures 0 <= m < |pq|
    ensures forall e :: e in pq ==> pq[m].weight <= e.weight
  {
    m := 0;
    var k := 1;
    while k < |pq|
      invariant 0 <= m < |pq| && 1 <= k <= |pq|
      invariant forall j :: 0 <= j < k ==> pq[m].weight <= pq[j].weight
    {
      if pq[k].weight < pq[m].weight {
        m := k;
      }
      k := k + 1;
    }
  }

  /**
   * The state of Prim's loop: the tree grown so far, marked in inTree,
   * holds vertices reachable from start; the heap holds arcs out of the
   * tree, with an entry for every arc that leaves it.
   */
  ghost predicate PrimState(n: Net, start: int, mst: seq<WeightedEdge>, inTree: seq<bool>, pq: seq<WeightedEdge>)
  {
    TreeState(n, start, mst, inTree) && HeapCovers(n, Joined(start, mst), pq)
  }

  /** The tree part of Prim's state. */
  ghost predicate TreeState(n: Net, start: int, mst: seq<WeightedEdge>, inTree: seq<bool>)
  {
    var tree := Joined(start, mst);
    |inTree| == |n.present| && IsVertex(n, start) &&
    Grown(n, start, mst) && Distinct(tree) &&
    MarksExactly(inTree, tree) && FromStart(n, start, tree)
  }

  /** The heap part of Prim's state: arcs out of the tree, an entry for every arc that leaves it. */
  ghost predicate HeapCovers(n: Net, tree: seq<int>, pq: seq<WeightedEdge>)
  {
    (forall e :: e in pq ==> Carried(n, e) && e.from in tree) &&
    (forall u, w, x :: u in tree && w !in tree && EdgeWeight(n, u, w) == Finite(x) ==> WeightedEdge(u, w, x) in pq)
  }

  /** The tree of the root alone, with the root's offers in the heap. */
  lemma PrimBegin(n: Net, start: int, inTree: seq<bool>, pq: seq<WeightedEdge>)
    requires WellFormed(n) && IsVertex(n, start)
    requires inTree == seq(|n.present|, x => x == start)
    requires pq == Offers(n, start, n.out[start], inTree)
    ensures PrimState(n, start, [], inTree, pq)
  {
    OffersArcs(n, start, inTree);
    assert Joined(start, []) == [start];
    ReachableSelf(n, start);
  }

  /** Removing entry m keeps every other entry, and every far end other than that of entry m. */
  lemma RemoveKeeps(pq: seq<WeightedEdge>, m: int)
    requires 0 <= m < |pq|
    ensures forall e :: e in RemoveAt(pq, m) ==> e in pq
    ensures forall e :: e in pq && e != pq[m] ==> e in RemoveAt(pq, m)
  {
    var rest := RemoveAt(pq, m);
    forall e | e in rest
      ensures e in pq
    {
      var j :| 0 <= j < |rest| && rest[j] == e;
      if j < m {
        assert pq[j] == e;
      } else {
        assert pq[j + 1] == e;
      }
    }
    forall e | e in pq && e != pq[m]
      ensures e in rest
    {
      var j :| 0 <= j < |pq| && pq[j] == e;
      if j < m {
        assert rest[j] == e;
      } else {
        assert rest[j - 1] == e;
      }
    }
  }

  /** Popping an entry whose far end is already in the tree: the rest still covers every arc out. */
  lemma PrimStale(n: Net, start: int, mst: seq<WeightedEdge>, inTree: seq<bool>, pq: seq<WeightedEdge>, m: int)
    requires PrimState(n, start, mst, inTree, pq) && 0 <= m < |pq| && IsVertex(n, pq[m].to) && inTree[pq[m].to]
    ensures PrimState(n, start, mst, inTree, RemoveAt(pq, m))
  {
    RemoveKeeps(pq, m);
  }

  /**
   * Accepting the popped entry e, whose far end is outside the tree: the
   * far end joins the tree and its offers join the heap.
   */
  lemma PrimAccept(n: Net, start: int, mst: seq<WeightedEdge>, inTree: seq<bool>, pq: seq<WeightedEdge>, m: int,
                   inTree': seq<bool>, pq': seq<WeightedEdge>)
    requires WellFormed(n) && PrimState(n, start, mst, inTree, pq) && 0 <= m < |pq|
    requires IsVertex(n, pq[m].to) && !inTree[pq[m].to]
    requires forall f :: f in pq ==> pq[m].weight <= f.weight
    requires inTree' == inTree[pq[m].to := true]
    requires pq' == RemoveAt(pq, m) + Offers(n, pq[m].to, n.out[pq[m].to], inTree')
    ensures PrimState(n, start, mst + [pq[m]], inTree', pq')
  {
    var e := pq[m];
    var tree := Joined(start, mst);
    assert e in pq && e.to !in tree;
    forall u, w, x | u in tree && w !in tree && EdgeWeight(n, u, w) == Finite(x)
      ensures e.weight <= x
    {
      assert WeightedEdge(u, w, x) in pq;
    }
    TreeGrows(n, start, mst, inTree, e);
    JoinedAppend(start, mst, e);
    HeapGrows(n, Joined(start, mst), pq, m, inTree', pq');
  }

  /** The tree part of accepting e: its far end joins the tree. */
  lemma TreeGrows(n: Net, start: int, mst: seq<WeightedEdge>, inTree: seq<bool>, e: WeightedEdge)
    requires TreeState(n, start, mst, inTree) && Attached(n, Joined(start, mst), e)
    ensures TreeState(n, start, mst + [e], inTree[e.to := true])
  {
    var tree := Joined(start, mst);
    JoinedAppend(start, mst, e);
    assert e.to !in tree;
    DistinctAppend(tree, e.to);
    GrownAppend(n, start, mst, e);
    ReachableStep(n, start, e.from, e.to);
    MarksAppend(inTree, tree, e.to);
  }

  /** Grown survives appending an arc from the tree to a vertex outside it. */
  lemma GrownAppend(n: Net, start: int, mst: seq<WeightedEdge>, e: WeightedEdge)
    requires Grown(n, start, mst) && Attached(n, Joined(start, mst), e)
    ensures Grown(n, start, mst + [e])
  {
    var mst' := mst + [e];
    forall k | 0 <= k < |mst'|
      ensures Attached(n, Joined(start, mst'[..k]), mst'[k])
    {
      if k < |mst| {
        assert mst'[k] == mst[k] && mst'[..k] == mst[..k];
      } else {
        assert mst'[..k] == mst;
      }
    }
  }

  /** Setting the flag of v marks exactly the listed ids and v. */
  lemma MarksAppend(marks: seq<bool>, vs: seq<int>, v: int)
    requires MarksExactly(marks, vs) && 0 <= v < |marks|
    ensures MarksExactly(marks[v := true], vs + [v])
  {
  }

  /** The heap part of accepting entry m: the rest of the heap and the offers of its far end cover the grown tree. */
  lemma HeapGrows(n: Net, tree: seq<int>, pq: seq<WeightedEdge>, m: int, inTree': seq<bool>, pq': seq<WeightedEdge>)
    requires WellFormed(n) && HeapCovers(n, tree, pq) && 0 <= m < |pq|
    requires |inTree'| == |n.present| && MarksExactly(inTree', tree + [pq[m].to])
    requires pq' == RemoveAt(pq, m) + Offers(n, pq[m].to, n.out[pq[m].to], inTree')
    ensures HeapCovers(n, tree + [pq[m].to], pq')
  {
    var e := pq[m];
    assert e in pq;
    var tree' := tree + [e.to];
    RemoveKeeps(pq, m);
    OffersArcs(n, e.to, inTree');
    var offers := Offers(n, e.to, n.out[e.to], inTree');
    forall u, w, x | u in tree' && w !in tree' && EdgeWeight(n, u, w) == Finite(x)
      ensures WeightedEdge(u, w, x) in pq'
    {
      if u == e.to {
        assert WeightedEdge(u, w, x) in offers;
      } else {
        assert WeightedEdge(u, w, x) in RemoveAt(pq, m);
      }
    }
  }

  /** A graph that counts at least one vertex has a root to grow from. */
  lemma PrimRootVertex(n: Net, s: int)
    requires WellFormed(n) && n.count > 0
    ensures IsVertex(n, PrimRoot(n, s))
  {
    var v :| v in Marked(n.present);
    assert IsVertex(n, v);
    FirstIsLeast(n, 0);
  }

  /**
   * When the heap runs dry, or the tree already holds as many vertices as
   * the graph, the tree holds exactly the vertices reachable from the root.
   */
  lemma PrimDone(n: Net, start: int, mst: seq<WeightedEdge>, inTree: seq<bool>, pq: seq<WeightedEdge>)
    requires WellFormed(n) && PrimState(n, start, mst, inTree, pq)
    requires pq == [] || |mst| == n.count - 1
    ensures forall v :: v in Joined(start, mst) <==> Reachable(n, start, v)
  {
    var tree := Joined(start, mst);
    if pq == [] {
      HeapDry(n, tree, pq);
      ClosedListing(n, start, tree);
    } else {
      TreeFull(n, start, tree);
    }
  }

  /** An empty heap that covers the tree leaves no arc out of it. */
  lemma HeapDry(n: Net, tree: seq<int>, pq: seq<WeightedEdge>)
    requires HeapCovers(n, tree, pq) && pq == []
    ensures forall u, w :: u in tree && Arc(n, u, w) ==> w in tree
  {
    forall u, w | u in tree && Arc(n, u, w)
      ensures w in tree
    {
      assert EdgeWeight(n, u, w) == Finite(EdgeWeight(n, u, w).value);
    }
  }

  /** A repeat-free listing of reachable vertices as long as the vertex count holds every reachable vertex. */
  lemma TreeFull(n: Net, start: int, tree: seq<int>)
    requires WellFormed(n) && Distinct(tree) && FromStart(n, start, tree) && |tree| == n.count
    ensures forall v :: v in tree <==> Reachable(n, start, v)
  {
    AllOrdered(n, tree);
    forall v | Reachable(n, start, v)
      ensures v in tree
    {
      var p :| Walk(n, start, v, p);
      assert IsVertex(n, p[|p| - 1]);
    }
  }

  /**
   * graph_mst_prim: no tree for a directed graph; otherwise the edges of a
   * tree grown from start (or from the least vertex when start is not one)
   * by repeatedly taking a lightest arc that leaves the tree, until the tree
   * spans every vertex reachable from its root.
   */
  method Prim(n: Net, s: int) returns (r: Option<seq<WeightedEdge>>)
    requires WellFormed(n)
    ensures r.None? <==> n.directed
    ensures r.Some? && n.count == 0 ==> r.value == []
    ensures r.Some? && n.count > 0 ==>
      var start := PrimRoot(n, s);
      IsVertex(n, start) && Grown(n, start, r.value) && |r.value| <= n.count - 1 &&
      forall v :: v in Joined(start, r.value) <==> Reachable(n, start, v)
  {
    if n.directed {
      return None;
    }
    if n.count == 0 {
      return Some([]);
    }
    var start := s;
    if !(0 <= s < |n.present| && n.present[s]) {
      start := FirstVertex(n);
    }
    PrimRootVertex(n, s);
    var inTree := seq(|n.present|, x => x == start);
    var pq := PushEdges(n, start, inTree, []);
    assert pq == Offers(n, start, n.out[start], inTree);
    PrimBegin(n, start, inTree, pq);
    var mst := [];
    while pq != [] && |mst| < n.count - 1
      invariant PrimState(n, start, mst, inTree, pq) && |mst| <= n.count - 1
      decreases n.count - |mst|, |pq|
    {
      var m := MinEdge(pq);
      var e := pq[m];
      assert e in pq;
      if inTree[e.to] {
        PrimStale(n, start, mst, inTree, pq, m);
        pq := RemoveAt(pq, m);
      } else {
        var inTree' := inTree[e.to := true];
        var pq' := PushEdges(n, e.to, inTree', RemoveAt(pq, m));
        PrimAccept(n, start, mst, inTree, pq, m, inTree', pq');
        mst, inTree, pq := mst + [e], inTree', pq';
      }
    }
    PrimDone(n, start, mst, inTree, pq);
    return Some(mst);
  }
}
