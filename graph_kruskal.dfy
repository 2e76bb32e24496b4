/**
 * Kruskal's algorithm of graph_algorithms.c: every edge of an undirected
 * graph listed once (from the smaller id to the larger), sorted by weight,
 * then taken in order whenever it joins two classes of the union-find
 * forest. The result is a spanning forest: no edge closes a cycle among
 * those taken before it, and any two vertices joined by an edge of the
 * graph are joined by a chain of taken edges.
 */
module SpanningForests {
  import opened Wrappers
  import opened GraphNets
  import opened SpanningTrees
  import opened UnionFind

  // ---------------------------------------------------------------------
  // Collecting the edges

  /** The records of from that lead to a larger vertex id, as weighted edges, in record order. */
  function Upward(n: Net, from: int, es: seq<Edge>): (r: seq<WeightedEdge>)
    ensures forall e :: e in r ==> e.from == from && from < e.to && IsVertex(n, e.to)
  {
    if es == [] then []
    else
      var last := es[|es| - 1];
      Upward(n, from, es[..|es| - 1]) +
        if IsVertex(n, last.to) && from < last.to then [WeightedEdge(from, last.to, last.weight)] else []
  }

  /** The edges graph_mst_kruskal collects from the vertices below v, in the order it collects them. */
  function Candidates(n: Net, v: nat): (r: seq<WeightedEdge>)
    requires v <= |n.present| && |n.out| == |n.present|
    ensures forall e :: e in r ==> IsVertex(n, e.from) && e.from < v
  {
    if v == 0 then []
    else Candidates(n, v - 1) + if IsVertex(n, v - 1) then Upward(n, v - 1, n.out[v - 1]) else []
  }

  /** The upward records of a vertex are arcs with their weights, and every upward arc is among them. */
  lemma {:induction false} UpwardCover(n: Net, from: int, i: int)
    requires WellFormed(n) && IsVertex(n, from) && 0 <= i <= |n.out[from]|
    ensures forall e :: e in Upward(n, from, n.out[from][..i]) ==> Carried(n, e)
    ensures forall k :: 0 <= k < i && from < n.out[from][k].to ==>
      WeightedEdge(from, n.out[from][k].to, n.out[from][k].weight) in Upward(n, from, n.out[from][..i])
    decreases i
  {
    if i > 0 {
      var es := n.out[from][..i];
      assert es[..|es| - 1] == n.out[from][..i - 1];
      UpwardCover(n, from, i - 1);
      RecordIsArc(n, from, i - 1);
      forall k | 0 <= k < i && from < n.out[from][k].to
        ensures WeightedEdge(from, n.out[from][k].to, n.out[from][k].weight) in Upward(n, from, es)
      {
        RecordIsArc(n, from, k);
      }
    }
  }

  /** The upward records of a vertex are exactly its arcs to larger ids, with their weights. */
  lemma UpwardExact(n: Net, u: int)
    requires WellFormed(n) && IsVertex(n, u)
    ensures forall e :: e in Upward(n, u, n.out[u]) <==> Carried(n, e) && e.from == u && u < e.to
  {
    UpwardCover(n, u, |n.out[u]|);
    assert n.out[u][..|n.out[u]|] == n.out[u];
    forall e | Carried(n, e) && e.from == u && u < e.to
      ensures e in Upward(n, u, n.out[u])
    {
      var k := ArcHasRecord(n, u, e.to);
      RecordIsArc(n, u, k);
    }
  }

  /** The candidates below v are exactly the arcs from a vertex below v to a larger id, with their weights. */
  lemma {:induction false} CandidatesExact(n: Net, v: nat)
    requires WellFormed(n) && v <= |n.present|
    ensures forall e :: e in Candidates(n, v) <==> Carried(n, e) && e.from < e.to && e.from < v
    decreases v
  {
    if v > 0 {
      CandidatesExact(n, v - 1);
      var u := v - 1;
      if IsVertex(n, u) {
        UpwardExact(n, u);
      }
    }
  }

  /**
   * The edge-collecting loops of graph_mst_kruskal: for every vertex in id
   * order, its records to a larger vertex id, in record order.
   */
  method CollectEdges(n: Net) returns (edges: seq<WeightedEdge>)
    requires WellFormed(n)
    ensures edges == Candidates(n, |n.present|)
  {
    edges := [];
    var from := 0;
    while from < |n.present|
      invariant 0 <= from <= |n.present| && edges == Candidates(n, from)
    {
      if IsVertex(n, from) {
        var i := 0;
        while i < |n.out[from]|
          invariant 0 <= i <= |n.out[from]|
          invariant edges == Candidates(n, from) + Upward(n, from, n.out[from][..i])
        {
          var e := n.out[from][i];
          assert n.out[from][..i + 1][..i] == n.out[from][..i];
          if IsVertex(n, e.to) && from < e.to {
            edges := edges + [WeightedEdge(from, e.to, e.weight)];
          }
          i := i + 1;
        }
        assert n.out[from][..i] == n.out[from];
      }
      from := from + 1;
    }
  }

  // ---------------------------------------------------------------------
  // Sorting by weight

  /** Weights never decrease along the sequence. */
  ghost predicate ByWeight(es: seq<WeightedEdge>)
  {
    forall i, j :: 0 <= i < j < |es| ==> es[i].weight <= es[j].weight
  }

  /** e placed into a weight-sorted sequence before the first heavier edge. */
  function Insert(e: WeightedEdge, es: seq<WeightedEdge>): (r: seq<WeightedEdge>)
    requires ByWeight(es)
    ensures multiset(r) == multiset(es) + multiset{e} && ByWeight(r)
  {
    if es == [] then [e]
    else if e.weight <= es[0].weight then [e] + es
    else
      var rest := Insert(e, es[1..]);
      assert es == [es[0]] + es[1..];
      HeadLightest(e, es, rest);
      [es[0]] + rest
  }

  /** The head of a sorted sequence is no heavier than anything inserted after it. */
  lemma HeadLightest(e: WeightedEdge, es: seq<WeightedEdge>, rest: seq<WeightedEdge>)
    requires ByWeight(es) && es != [] && es[0].weight < e.weight
    requires multiset(rest) == multiset(es[1..]) + multiset{e}
    ensures forall i :: 0 <= i < |rest| ==> es[0].weight <= rest[i].weight
  {
    forall i | 0 <= i < |rest|
      ensures es[0].weight <= rest[i].weight
    {
      assert rest[i] in multiset(rest);
      if rest[i] != e {
        assert rest[i] in multiset(es[1..]);
        var k :| 0 <= k < |es[1..]| && es[1..][k] == rest[i];
        assert es[k + 1] == rest[i];
      }
    }
  }

  /**
   * The order qsort with edge_cmp_qsort leaves the edges in: a permutation
   * ordered by weight. Edges of equal weight may come in any order, and
   * the properties proved below hold whatever it is.
   */
  function SortByWeight(es: seq<WeightedEdge>): (r: seq<WeightedEdge>)
    ensures multiset(r) == multiset(es) && ByWeight(r)
  {
    if es == [] then []
    else
      assert es == es[..|es| - 1] + [es[|es| - 1]];
      Insert(es[|es| - 1], SortByWeight(es[..|es| - 1]))
  }

  // ---------------------------------------------------------------------
  // Chains of taken edges

  /** Some edge of es joins a and b, in either direction. */
  ghost predicate Joins(es: seq<WeightedEdge>, a: int, b: int)
  {
    exists e :: e in es && ((e.from == a && e.to == b) || (e.from == b && e.to == a))
  }

  /** Consecutive ids of p are joined by edges of es. */
  ghost predicate Chain(es: seq<WeightedEdge>, p: seq<int>)
  {
    |p| > 0 && forall i :: 0 <= i < |p| - 1 ==> Joins(es, p[i], p[i + 1])
  }

  /** u and v are connected through the edges of es. */
  ghost predicate Linked(es: seq<WeightedEdge>, u: int, v: int)
  {
    exists p :: Chain(es, p) && p[0] == u && p[|p| - 1] == v
  }

  lemma LinkedSelf(es: seq<WeightedEdge>, u: int)
    ensures Linked(es, u, u)
  {
    assert Chain(es, [u]);
  }

  lemma LinkedEdge(es: seq<WeightedEdge>, e: WeightedEdge)
    requires e in es
    ensures Linked(es, e.from, e.to) && Linked(es, e.to, e.from)
  {
    assert Joins(es, e.from, e.to) && Joins(es, e.to, e.from);
    assert Chain(es, [e.from, e.to]);
    assert Chain(es, [e.to, e.from]);
  }

  lemma LinkedSym(es: seq<WeightedEdge>, u: int, v: int)
    requires Linked(es, u, v)
    ensures Linked(es, v, u)
  {
    var p :| Chain(es, p) && p[0] == u && p[|p| - 1] == v;
    var q := seq(|p|, i requires 0 <= i < |p| => p[|p| - 1 - i]);
    forall i | 0 <= i < |q| - 1
      ensures Joins(es, q[i], q[i + 1])
    {
      var k := |p| - 2 - i;
      assert Joins(es, p[k], p[k + 1]);
      var e :| e in es && ((e.from == p[k] && e.to == p[k + 1]) || (e.from == p[k + 1] && e.to == p[k]));
    }
    assert Chain(es, q);
  }

  lemma LinkedTrans(es: seq<WeightedEdge>, u: int, v: int, w: int)
    requires Linked(es, u, v) && Linked(es, v, w)
    ensures Linked(es, u, w)
  {
    var p :| Chain(es, p) && p[0] == u && p[|p| - 1] == v;
    var q :| Chain(es, q) && q[0] == v && q[|q| - 1] == w;
    var r := p + q[1..];
    forall i | 0 <= i < |r| - 1
      ensures Joins(es, r[i], r[i + 1])
    {
      if i < |p| - 1 {
        assert r[i] == p[i] && r[i + 1] == p[i + 1];
      } else {
        var k := i - |p| + 1;
        assert r[i] == q[k] && r[i + 1] == q[k + 1];
      }
    }
    assert Chain(es, r);
  }

  /** A chain over some edges is a chain over any sequence holding them. */
  lemma LinkedGrow(es: seq<WeightedEdge>, es': seq<WeightedEdge>, u: int, v: int)
    requires Linked(es, u, v) && forall e :: e in es ==> e in es'
    ensures Linked(es', u, v)
  {
    var p :| Chain(es, p) && p[0] == u && p[|p| - 1] == v;
    forall i | 0 <= i < |p| - 1
      ensures Joins(es', p[i], p[i + 1])
    {
      assert Joins(es, p[i], p[i + 1]);
    }
    assert Chain(es', p);
  }

  /** A labelling equal on both ends of every edge is equal along every chain. */
  lemma {:induction false} ChainSameLabel(es: seq<WeightedEdge>, rep: seq<int>, p: seq<int>)
    requires forall e :: e in es ==> 0 <= e.from < |rep| && 0 <= e.to < |rep| && rep[e.from] == rep[e.to]
    requires Chain(es, p) && 0 <= p[0] < |rep|
    ensures 0 <= p[|p| - 1] < |rep| && rep[p[|p| - 1]] == rep[p[0]]
    decreases |p|
  {
    if |p| > 1 {
      var q := p[..|p| - 1];
      assert Chain(es, q) by {
        forall i | 0 <= i < |q| - 1
          ensures Joins(es, q[i], q[i + 1])
        {
          assert q[i] == p[i] && q[i + 1] == p[i + 1];
        }
      }
      ChainSameLabel(es, rep, q);
      assert Joins(es, p[|p| - 2], p[|p| - 1]);
    }
  }

  /** Linked ids carry the same label when every edge does. */
  lemma LinkedSameLabel(es: seq<WeightedEdge>, rep: seq<int>, u: int, v: int)
    requires forall e :: e in es ==> 0 <= e.from < |rep| && 0 <= e.to < |rep| && rep[e.from] == rep[e.to]
    requires Linked(es, u, v) && 0 <= u < |rep|
    ensures 0 <= v < |rep| && rep[v] == rep[u]
  {
    var p :| Chain(es, p) && p[0] == u && p[|p| - 1] == v;
    ChainSameLabel(es, rep, p);
  }

  /** The edges of es no heavier than x, in order. */
  ghost function Lighter(es: seq<WeightedEdge>, x: real): (r: seq<WeightedEdge>)
    ensures forall e :: e in r <==> e in es && e.weight <= x
  {
    if es == [] then []
    else
      assert es == es[..|es| - 1] + [es[|es| - 1]];
      Lighter(es[..|es| - 1], x) + if es[|es| - 1].weight <= x then [es[|es| - 1]] else []
  }

  // ---------------------------------------------------------------------
  // The main loop

  /** The sorted edge list: exactly the arcs from a smaller id to a larger, by weight. */
  ghost predicate Listed(n: Net, edges: seq<WeightedEdge>)
  {
    ByWeight(edges) && forall e :: e in edges <==> Carried(n, e) && e.from < e.to
  }

  /**
   * What holds after the first i sorted edges: the forest is sound; every
   * taken edge is one of those edges, joins two vertices not yet linked by
   * the edges taken before it and lies within one class; every vertex is
   * linked to its representative; the two ends of every edge seen so far
   * are linked by taken edges no heavier than it; and each taken edge
   * removed one class.
   */
  ghost predicate KruskalState(n: Net, edges: seq<WeightedEdge>, i: int, mst: seq<WeightedEdge>,
                               parent: seq<int>, rank: seq<int>, rep: seq<int>)
  {
    Sound(n.present, parent, rank, rep) && 0 <= i <= |edges| &&
    (forall k :: 0 <= k < |mst| ==> mst[k] in edges[..i]) &&
    (forall k :: 0 <= k < |mst| ==> !Linked(mst[..k], mst[k].from, mst[k].to)) &&
    (forall e :: e in mst ==> 0 <= e.from < |rep| && 0 <= e.to < |rep| && rep[e.from] == rep[e.to]) &&
    (forall v :: IsVertex(n, v) ==> Linked(mst, v, rep[v])) &&
    (forall j :: 0 <= j < i ==> Linked(Lighter(mst, edges[j].weight), edges[j].from, edges[j].to)) &&
    |Roots(n.present, parent)| + |mst| == n.count
  }

  /** The initial forest, with nothing taken, meets the loop invariant. */
  lemma KruskalBegin(n: Net, edges: seq<WeightedEdge>, parent: seq<int>, rank: seq<int>, rep: seq<int>)
    requires WellFormed(n) && Sound(n.present, parent, rank, rep)
    requires forall v :: 0 <= v < |n.present| ==> rep[v] == v
    requires Roots(n.present, parent) == set v | 0 <= v < |n.present| && n.present[v]
    ensures KruskalState(n, edges, 0, [], parent, rank, rep)
  {
    assert Roots(n.present, parent) == Marked(n.present);
    forall v | IsVertex(n, v)
      ensures Linked([], v, rep[v])
    {
      LinkedSelf([], v);
    }
  }

  /** Every taken edge is no heavier than the next edge in sorted order. */
  lemma TakenLighter(n: Net, edges: seq<WeightedEdge>, i: int, mst: seq<WeightedEdge>,
                     parent: seq<int>, rank: seq<int>, rep: seq<int>, j: int)
    requires Listed(n, edges) && KruskalState(n, edges, i, mst, parent, rank, rep) && i <= j < |edges|
    ensures forall e :: e in mst ==> e in Lighter(mst, edges[j].weight)
  {
    forall e | e in mst
      ensures e.weight <= edges[j].weight
    {
      var k :| 0 <= k < |mst| && mst[k] == e;
      assert mst[k] in edges[..i];
      var h :| 0 <= h < i && edges[..i][h] == e;
      assert edges[h] == e;
    }
  }

  /** The taken edges stay among the edges seen when the edge at i is seen, and perhaps taken. */
  lemma TakenGrow(edges: seq<WeightedEdge>, i: int, mst: seq<WeightedEdge>, taken: seq<WeightedEdge>)
    requires 0 <= i < |edges| && (taken == [] || taken == [edges[i]])
    requires forall k :: 0 <= k < |mst| ==> mst[k] in edges[..i]
    ensures forall k :: 0 <= k < |mst + taken| ==> (mst + taken)[k] in edges[..i + 1]
  {
    forall k | 0 <= k < |mst + taken|
      ensures (mst + taken)[k] in edges[..i + 1]
    {
      if k < |mst| {
        var h :| 0 <= h < i && edges[..i][h] == mst[k];
        assert edges[..i + 1][h] == mst[k];
      } else {
        assert edges[..i + 1][i] == edges[i];
      }
    }
  }

  /**
   * An edge whose ends already share a class is skipped: the invariant
   * moves past it once find has compressed some paths.
   */
  lemma KruskalSkip(n: Net, edges: seq<WeightedEdge>, i: int, mst: seq<WeightedEdge>,
                    parent: seq<int>, rank: seq<int>, rep: seq<int>, parent': seq<int>)
    requires Listed(n, edges) && KruskalState(n, edges, i, mst, parent, rank, rep) && i < |edges|
    requires rep[edges[i].from] == rep[edges[i].to]
    requires Sound(n.present, parent', rank, rep) && Roots(n.present, parent') == Roots(n.present, parent)
    ensures KruskalState(n, edges, i + 1, mst, parent', rank, rep)
  {
    var e := edges[i];
    assert Carried(n, e);
    LinkedSym(mst, e.to, rep[e.to]);
    LinkedTrans(mst, e.from, rep[e.from], e.to);
    TakenLighter(n, edges, i, mst, parent, rank, rep, i);
    LinkedGrow(mst, Lighter(mst, e.weight), e.from, e.to);
    TakenGrow(edges, i, mst, []);
  }

  /** An edge between two classes closes no cycle with the edges already taken. */
  lemma JoinAcyclic(mst: seq<WeightedEdge>, e: WeightedEdge, rep: seq<int>)
    requires forall k :: 0 <= k < |mst| ==> !Linked(mst[..k], mst[k].from, mst[k].to)
    requires forall f :: f in mst ==> 0 <= f.from < |rep| && 0 <= f.to < |rep| && rep[f.from] == rep[f.to]
    requires 0 <= e.from < |rep| && 0 <= e.to < |rep| && rep[e.from] != rep[e.to]
    ensures forall k :: 0 <= k < |mst + [e]| ==> !Linked((mst + [e])[..k], (mst + [e])[k].from, (mst + [e])[k].to)
  {
    assert (mst + [e])[..|mst|] == mst;
    if Linked(mst, e.from, e.to) {
      LinkedSameLabel(mst, rep, e.from, e.to);
    }
    forall k | 0 <= k < |mst|
      ensures (mst + [e])[..k] == mst[..k] && (mst + [e])[k] == mst[k]
    {
    }
  }

  /** After the merge every taken edge, the new one included, lies within one class. */
  lemma JoinLabels(mst: seq<WeightedEdge>, e: WeightedEdge, rep: seq<int>, loser: int, winner: int)
    requires forall f :: f in mst ==> 0 <= f.from < |rep| && 0 <= f.to < |rep| && rep[f.from] == rep[f.to]
    requires 0 <= e.from < |rep| && 0 <= e.to < |rep|
    requires (loser == rep[e.from] && winner == rep[e.to]) || (loser == rep[e.to] && winner == rep[e.from])
    ensures forall f :: f in mst + [e] ==>
      (0 <= f.from < |rep| && 0 <= f.to < |rep| && Relabel(rep, loser, winner)[f.from] == Relabel(rep, loser, winner)[f.to])
  {
  }

  /** After the merge every vertex is linked to its new representative. */
  lemma JoinReach(n: Net, mst: seq<WeightedEdge>, e: WeightedEdge, rep: seq<int>, loser: int, winner: int)
    requires |rep| == |n.present| && forall v :: IsVertex(n, v) ==> Linked(mst, v, rep[v])
    requires IsVertex(n, e.from) && IsVertex(n, e.to)
    requires (loser == rep[e.from] && winner == rep[e.to]) || (loser == rep[e.to] && winner == rep[e.from])
    ensures forall v :: IsVertex(n, v) ==> Linked(mst + [e], v, Relabel(rep, loser, winner)[v])
  {
    var mst' := mst + [e];
    LinkedEdge(mst', e);
    // the two ends of e, the one in the losing class first
    var a, b := if loser == rep[e.from] then e.from else e.to, if loser == rep[e.from] then e.to else e.from;
    assert rep[a] == loser && rep[b] == winner && Linked(mst', a, b);
    LinkedGrow(mst, mst', a, loser);
    LinkedGrow(mst, mst', b, winner);
    LinkedSym(mst', a, loser);
    LinkedTrans(mst', loser, a, b);
    LinkedTrans(mst', loser, b, winner);
    forall v | IsVertex(n, v)
      ensures Linked(mst', v, Relabel(rep, loser, winner)[v])
    {
      LinkedGrow(mst, mst', v, rep[v]);
      if rep[v] == loser {
        LinkedTrans(mst', v, loser, winner);
      }
    }
  }

  /** After taking e, every edge seen so far, e included, is spanned by taken edges no heavier than it. */
  lemma JoinCycle(edges: seq<WeightedEdge>, i: int, mst: seq<WeightedEdge>)
    requires 0 <= i < |edges|
    requires forall j :: 0 <= j < i ==> Linked(Lighter(mst, edges[j].weight), edges[j].from, edges[j].to)
    ensures forall j :: 0 <= j < i + 1 ==>
      Linked(Lighter(mst + [edges[i]], edges[j].weight), edges[j].from, edges[j].to)
  {
    var mst' := mst + [edges[i]];
    forall j | 0 <= j < i + 1
      ensures Linked(Lighter(mst', edges[j].weight), edges[j].from, edges[j].to)
    {
      if j < i {
        LinkedGrow(Lighter(mst, edges[j].weight), Lighter(mst', edges[j].weight), edges[j].from, edges[j].to);
      } else {
        LinkedEdge(Lighter(mst', edges[j].weight), edges[j]);
      }
    }
  }

  /**
   * An edge whose ends lie in two classes is taken: the invariant moves
   * past it once union has hung the root loser under the root winner.
   */
  lemma KruskalJoin(n: Net, edges: seq<WeightedEdge>, i: int, mst: seq<WeightedEdge>,
                    parent: seq<int>, rank: seq<int>, rep: seq<int>,
                    parent': seq<int>, rank': seq<int>, loser: int, winner: int)
    requires Listed(n, edges) && KruskalState(n, edges, i, mst, parent, rank, rep) && i < |edges|
    requires IsVertex(n, edges[i].from) && IsVertex(n, edges[i].to)
    requires rep[edges[i].from] != rep[edges[i].to]
    requires (loser == rep[edges[i].from] && winner == rep[edges[i].to]) ||
             (loser == rep[edges[i].to] && winner == rep[edges[i].from])
    requires Sound(n.present, parent', rank', Relabel(rep, loser, winner))
    requires Roots(n.present, parent') == Roots(n.present, parent) - {loser}
    ensures KruskalState(n, edges, i + 1, mst + [edges[i]], parent', rank', Relabel(rep, loser, winner))
  {
    var e := edges[i];
    JoinAcyclic(mst, e, rep);
    JoinLabels(mst, e, rep, loser, winner);
    JoinReach(n, mst, e, rep, loser, winner);
    JoinCycle(edges, i, mst);
    RepIsRoot(n.present, parent, rank, rep);
    assert loser in Roots(n.present, parent);
    TakenGrow(edges, i, mst, [e]);
  }

  /** With at most one root left, every vertex shares one representative. */
  lemma OneClass(n: Net, parent: seq<int>, rank: seq<int>, rep: seq<int>, u: int, w: int)
    requires Sound(n.present, parent, rank, rep) && |Roots(n.present, parent)| <= 1
    requires IsVertex(n, u) && IsVertex(n, w)
    ensures rep[u] == rep[w]
  {
    RepIsRoot(n.present, parent, rank, rep);
    var roots := Roots(n.present, parent);
    var a := rep[u];
    assert a in roots && rep[w] in roots;
    assert roots == (roots - {a}) + {a};
    assert roots - {a} == {};
  }

  /** Once the loop stops, every edge of the graph is spanned by taken edges no heavier than it. */
  lemma KruskalSpansUp(n: Net, edges: seq<WeightedEdge>, i: int, mst: seq<WeightedEdge>,
                       parent: seq<int>, rank: seq<int>, rep: seq<int>, u: int, w: int, x: real)
    requires Listed(n, edges) && KruskalState(n, edges, i, mst, parent, rank, rep)
    requires i == |edges| || |mst| >= n.count - 1
    requires EdgeWeight(n, u, w) == Finite(x) && u < w
    ensures Linked(Lighter(mst, x), u, w)
  {
    var e := WeightedEdge(u, w, x);
    assert Carried(n, e);
    var j :| 0 <= j < |edges| && edges[j] == e;
    if i <= j {
      OneClass(n, parent, rank, rep, u, w);
      LinkedSym(mst, w, rep[w]);
      LinkedTrans(mst, u, rep[u], w);
      TakenLighter(n, edges, i, mst, parent, rank, rep, j);
      LinkedGrow(mst, Lighter(mst, x), u, w);
    }
  }

  /** Once the loop stops, every edge from a smaller id to a larger is spanned by taken edges no heavier than it. */
  lemma KruskalSpans(n: Net, edges: seq<WeightedEdge>, i: int, mst: seq<WeightedEdge>,
                     parent: seq<int>, rank: seq<int>, rep: seq<int>)
    requires Listed(n, edges) && KruskalState(n, edges, i, mst, parent, rank, rep)
    requires i == |edges| || |mst| >= n.count - 1
    ensures forall u, w, x :: u < w && EdgeWeight(n, u, w) == Finite(x) ==> Linked(Lighter(mst, x), u, w)
  {
    forall u, w, x | u < w && EdgeWeight(n, u, w) == Finite(x)
      ensures Linked(Lighter(mst, x), u, w)
    {
      KruskalSpansUp(n, edges, i, mst, parent, rank, rep, u, w, x);
    }
  }

  /** In an undirected graph, spanning every edge upwards spans every edge in both directions. */
  lemma SpannedBothWays(n: Net, mst: seq<WeightedEdge>)
    requires WellFormed(n) && !n.directed
    requires forall u, w, x :: u < w && EdgeWeight(n, u, w) == Finite(x) ==> Linked(Lighter(mst, x), u, w)
    ensures forall u, w, x :: EdgeWeight(n, u, w) == Finite(x) ==> Linked(Lighter(mst, x), u, w)
  {
    forall u, w, x | EdgeWeight(n, u, w) == Finite(x)
      ensures Linked(Lighter(mst, x), u, w)
    {
      if w < u {
        assert Symmetric(n);
        assert EdgeWeight(n, w, u) == Finite(x);
        LinkedSym(Lighter(mst, x), w, u);
      } else if u == w {
        LinkedSelf(Lighter(mst, x), u);
      }
    }
  }

  /** A graph with vertices keeps at least one class, so fewer edges than vertices are taken. */
  lemma KruskalSize(n: Net, edges: seq<WeightedEdge>, i: int, mst: seq<WeightedEdge>,
                    parent: seq<int>, rank: seq<int>, rep: seq<int>)
    requires WellFormed(n) && KruskalState(n, edges, i, mst, parent, rank, rep)
    ensures n.count > 0 ==> |mst| < n.count
    ensures n.count == 0 ==> mst == []
  {
    if n.count > 0 {
      var v :| v in Marked(n.present);
      RepIsRoot(n.present, parent, rank, rep);
      assert rep[v] in Roots(n.present, parent);
    }
  }

  /** The collected edges sorted by weight: every arc of the graph once, from the smaller id to the larger. */
  method SortedEdges(n: Net) returns (edges: seq<WeightedEdge>)
    requires WellFormed(n)
    ensures Listed(n, edges)
  {
    var collected := CollectEdges(n);
    edges := SortByWeight(collected);
    CandidatesExact(n, |n.present|);
    forall e
      ensures e in edges <==> e in collected
    {
      assert e in edges <==> e in multiset(edges);
    }
  }

  /**
   * One round of the main loop of graph_mst_kruskal: the representatives
   * of the two ends of the edge at i are found; when they differ the
   * classes are united and the edge is taken, otherwise it is dropped.
   */
  method KruskalStep(n: Net, edges: seq<WeightedEdge>, i: int, mst: seq<WeightedEdge>,
                     parent: seq<int>, rank: seq<int>, ghost rep: seq<int>)
    returns (mst': seq<WeightedEdge>, parent': seq<int>, rank': seq<int>, ghost rep': seq<int>)
    requires Listed(n, edges) && KruskalState(n, edges, i, mst, parent, rank, rep) && i < |edges|
    ensures KruskalState(n, edges, i + 1, mst', parent', rank', rep')
    ensures IsVertex(n, edges[i].from) && IsVertex(n, edges[i].to)
    ensures rep[edges[i].from] != rep[edges[i].to] ==> mst' == mst + [edges[i]]
    ensures rep[edges[i].from] == rep[edges[i].to] ==> mst' == mst
  {
    var e := edges[i];
    assert Carried(n, e);
    var ra, p1 := Find(n.present, parent, rank, rep, e.from);
    var rb, p2 := Find(n.present, p1, rank, rep, e.to);
    if ra != rb {
      RepIsRoot(n.present, p2, rank, rep);
      parent', rank', rep' := Union(n.present, p2, rank, rep, ra, rb);
      if rank[ra] < rank[rb] {
        KruskalJoin(n, edges, i, mst, parent, rank, rep, parent', rank', ra, rb);
      } else {
        KruskalJoin(n, edges, i, mst, parent, rank, rep, parent', rank', rb, ra);
      }
      mst' := mst + [e];
    } else {
      KruskalSkip(n, edges, i, mst, parent, rank, rep, p2);
      mst', parent', rank', rep' := mst, p2, rank, rep;
    }
  }

  /**
   * graph_mst_kruskal: NULL (None) for a directed graph. Otherwise the
   * taken edges, each an edge of the graph from the smaller id to the
   * larger with its weight; none closes a cycle with the edges taken
   * before it; the two ends of every edge of the graph, of weight x, are
   * linked by taken edges no heavier than x, so the result spans every
   * connected part and is a minimum spanning forest; and fewer edges than
   * vertices are taken.
   */
  method Kruskal(n: Net) returns (r: Option<seq<WeightedEdge>>)
    requires WellFormed(n)
    ensures r.None? <==> n.directed
    ensures r.Some? ==> forall e :: e in r.value ==> Carried(n, e) && e.from < e.to
    ensures r.Some? ==> forall k :: 0 <= k < |r.value| ==> !Linked(r.value[..k], r.value[k].from, r.value[k].to)
    ensures r.Some? ==> forall u, w, x :: EdgeWeight(n, u, w) == Finite(x) ==> Linked(Lighter(r.value, x), u, w)
    ensures r.Some? && n.count > 0 ==> |r.value| < n.count
    ensures r.Some? && n.count == 0 ==> r.value == []
  {
    if n.directed {
      return None;
    }
    var edges := SortedEdges(n);
    var parent, rank, rep := MakeSets(n.present);
    KruskalBegin(n, edges, parent, rank, rep);
    var mst := [];
    var i := 0;
    while i < |edges| && |mst| < n.count - 1
      invariant KruskalState(n, edges, i, mst, parent, rank, rep)
      decreases |edges| - i
    {
      mst, parent, rank, rep := KruskalStep(n, edges, i, mst, parent, rank, rep);
      i := i + 1;
    }
    KruskalSpans(n, edges, i, mst, parent, rank, rep);
    SpannedBothWays(n, mst);
    KruskalSize(n, edges, i, mst, parent, rank, rep);
    KruskalTaken(n, edges, i, mst, parent, rank, rep);
    return Some(mst);
  }

  /** The taken edges are edges of the graph from the smaller id to the larger. */
  lemma KruskalTaken(n: Net, edges: seq<WeightedEdge>, i: int, mst: seq<WeightedEdge>,
                     parent: seq<int>, rank: seq<int>, rep: seq<int>)
    requires Listed(n, edges) && KruskalState(n, edges, i, mst, parent, rank, rep)
    ensures forall e :: e in mst ==> Carried(n, e) && e.from < e.to
  {
    forall e | e in mst
      ensures Carried(n, e) && e.from < e.to
    {
      var k :| 0 <= k < |mst| && mst[k] == e;
      assert mst[k] in edges[..i];
      assert e in edges;
    }
  }

  // ---------------------------------------------------------------------
  // The forest and the connected parts of the graph

  /** A chain of edges of an undirected graph is a walk of the graph. */
  lemma {:induction false} ChainReach(n: Net, es: seq<WeightedEdge>, p: seq<int>)
    requires WellFormed(n) && !n.directed && forall e :: e in es ==> Carried(n, e)
    requires Chain(es, p) && IsVertex(n, p[0])
    ensures Reachable(n, p[0], p[|p| - 1])
    decreases |p|
  {
    if |p| == 1 {
      ReachableSelf(n, p[0]);
    } else {
      var q := p[..|p| - 1];
      assert Chain(es, q) by {
        forall i | 0 <= i < |q| - 1
          ensures Joins(es, q[i], q[i + 1])
        {
          assert q[i] == p[i] && q[i + 1] == p[i + 1];
        }
      }
      ChainReach(n, es, q);
      var a, b := p[|p| - 2], p[|p| - 1];
      assert Joins(es, a, b);
      var e :| e in es && ((e.from == a && e.to == b) || (e.from == b && e.to == a));
      assert Carried(n, e);
      assert Symmetric(n);
      assert EdgeWeight(n, a, b) == EdgeWeight(n, b, a);
      ReachableStep(n, p[0], a, b);
    }
  }

  /** When every arc is linked by edges of es, so is every walk. */
  lemma {:induction false} WalkLinked(n: Net, es: seq<WeightedEdge>, p: seq<int>)
    requires forall u, w :: Arc(n, u, w) ==> Linked(es, u, w)
    requires IsPath(n, p)
    ensures Linked(es, p[0], p[|p| - 1])
    decreases |p|
  {
    if |p| == 1 {
      LinkedSelf(es, p[0]);
    } else {
      var q := p[..|p| - 1];
      PathSlice(n, p, 0, |p| - 1);
      WalkLinked(n, es, q);
      assert Arc(n, p[|p| - 2], p[|p| - 1]);
      LinkedTrans(es, p[0], p[|p| - 2], p[|p| - 1]);
    }
  }

  /**
   * A result of Kruskal links two vertices exactly when the graph connects
   * them: it spans each connected part of the graph and joins no two.
   */
  lemma ForestComponents(n: Net, mst: seq<WeightedEdge>)
    requires WellFormed(n) && !n.directed
    requires forall e :: e in mst ==> Carried(n, e) && e.from < e.to
    requires forall u, w, x :: EdgeWeight(n, u, w) == Finite(x) ==> Linked(Lighter(mst, x), u, w)
    ensures forall u, v :: IsVertex(n, u) ==> (Linked(mst, u, v) <==> Reachable(n, u, v))
  {
    forall u, w | Arc(n, u, w)
      ensures Linked(mst, u, w)
    {
      var x := EdgeWeight(n, u, w).value;
      LinkedGrow(Lighter(mst, x), mst, u, w);
    }
    forall u, v | IsVertex(n, u)
      ensures Linked(mst, u, v) <==> Reachable(n, u, v)
    {
      if Linked(mst, u, v) {
        var p :| Chain(mst, p) && p[0] == u && p[|p| - 1] == v;
        ChainReach(n, mst, p);
      }
      if Reachable(n, u, v) {
        var p :| Walk(n, u, v, p);
        WalkLinked(n, mst, p);
      }
    }
  }
}
