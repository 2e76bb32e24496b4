/**
 * The graph as the algorithms of graph_algorithms.c see it: which vertex
 * ids are present, and for each vertex the edge records they walk, in the
 * order the backend yields them (an adjacency list in insertion order, a
 * matrix row by increasing target). Weights are exact reals; the sentinel
 * GRAPH_NO_EDGE (an infinite double) is the constructor Infinite, which also
 * stands for "not reached" in distance tables.
 */
module GraphNets {
  import opened ListSpec

  /** A double that is either finite or the infinite sentinel. */
  datatype Weight = Infinite | Finite(value: real)

  /** GRAPH_NO_EDGE. */
  const NoEdge: Weight := Infinite

  /** graph_edge: a target id and a weight. */
  datatype Edge = Edge(to: int, weight: real)

  /**
   * A read-only view of a graph: its type, the presence flag of every id
   * below the capacity, the out-edge records of every id, and the vertex
   * count.
   */
  datatype Net = Net(directed: bool, present: seq<bool>, out: seq<seq<Edge>>, count: int)

  /** The ids whose flag is set. */
  ghost function Marked(flags: seq<bool>): set<int>
  {
    set v | 0 <= v < |flags| && flags[v]
  }

  /** graph_is_valid_vertex: within the capacity and present. */
  predicate IsVertex(n: Net, v: int)
  {
    0 <= v < |n.present| && n.present[v]
  }

  /** find_edge: the weight of the first record aimed at `to`, NoEdge if none. */
  function Lookup(es: seq<Edge>, to: int): Weight
  {
    if es == [] then NoEdge
    else if es[0].to == to then Finite(es[0].weight)
    else Lookup(es[1..], to)
  }

  /** Without a record aimed at `to`, find_edge finds nothing. */
  lemma {:induction false} LookupMissing(es: seq<Edge>, to: int)
    requires forall k :: 0 <= k < |es| ==> es[k].to != to
    ensures Lookup(es, to) == NoEdge
  {
    if es != [] {
      LookupMissing(es[1..], to);
    }
  }

  /** A weight find_edge reports belongs to a record aimed at `to`. */
  lemma {:induction false} LookupFound(es: seq<Edge>, to: int) returns (i: int)
    requires Lookup(es, to).Finite?
    ensures 0 <= i < |es| && es[i] == Edge(to, Lookup(es, to).value)
  {
    if es[0].to == to {
      i := 0;
    } else {
      var j := LookupFound(es[1..], to);
      i := j + 1;
    }
  }

  /** The targets of a sequence of edge records, in order. */
  function Targets(es: seq<Edge>): (r: seq<int>)
    ensures |r| == |es| && forall i :: 0 <= i < |es| ==> r[i] == es[i].to
  {
    if es == [] then [] else [es[0].to] + Targets(es[1..])
  }

  lemma TargetsAppend(es: seq<Edge>, e: Edge)
    ensures Targets(es + [e]) == Targets(es) + [e.to]
  {
  }

  /** No two records of one vertex aim at the same target. */
  ghost predicate UniqueTargets(es: seq<Edge>)
  {
    forall i, j :: 0 <= i < j < |es| ==> es[i].to != es[j].to
  }

  /** The weight of the edge from u to v, NoEdge unless both are vertices and linked. */
  ghost function EdgeWeight(n: Net, u: int, v: int): Weight
  {
    if IsVertex(n, u) && IsVertex(n, v) && u < |n.out| then Lookup(n.out[u], v) else NoEdge
  }

  /** There is an edge from u to v between two present vertices. */
  ghost predicate Arc(n: Net, u: int, v: int)
  {
    EdgeWeight(n, u, v).Finite?
  }

  /** An undirected graph stores every edge in both directions with one weight. */
  ghost predicate Symmetric(n: Net)
  {
    forall u, v :: EdgeWeight(n, u, v) == EdgeWeight(n, v, u)
  }

  /**
   * The shape every graph keeps: one record sequence per id, records only
   * between present ids, targets unique per vertex, the count equal to the
   * number of present ids, and symmetry when undirected.
   */
  ghost predicate WellFormed(n: Net)
  {
    |n.out| == |n.present| &&
    n.count == |Marked(n.present)| &&
    (forall v, i :: 0 <= v < |n.out| && 0 <= i < |n.out[v]| ==> IsVertex(n, v) && IsVertex(n, n.out[v][i].to)) &&
    (forall v :: 0 <= v < |n.out| ==> UniqueTargets(n.out[v])) &&
    (!n.directed ==> Symmetric(n))
  }

  /** The record at position i is the one find_edge reports for its target. */
  lemma {:induction false} LookupAt(es: seq<Edge>, i: int)
    requires UniqueTargets(es) && 0 <= i < |es|
    ensures Lookup(es, es[i].to) == Finite(es[i].weight)
  {
    if i > 0 {
      assert es[0].to != es[i].to;
      assert es[1..][i - 1] == es[i];
      LookupAt(es[1..], i - 1);
    }
  }

  /** An edge record of a vertex aims at a present target and is an arc with its weight. */
  lemma RecordIsArc(n: Net, u: int, i: int)
    requires WellFormed(n) && IsVertex(n, u) && 0 <= i < |n.out[u]|
    ensures IsVertex(n, n.out[u][i].to) && Arc(n, u, n.out[u][i].to)
    ensures EdgeWeight(n, u, n.out[u][i].to) == Finite(n.out[u][i].weight)
  {
    LookupAt(n.out[u], i);
  }

  /** Every arc out of u has a record in u's sequence. */
  lemma ArcHasRecord(n: Net, u: int, v: int) returns (i: int)
    requires Arc(n, u, v)
    ensures 0 <= i < |n.out[u]| && n.out[u][i].to == v
  {
    i := LookupFound(n.out[u], v);
  }

  /** The targets listed for a vertex are exactly the ids it has an arc to. */
  lemma TargetsAreArcs(n: Net, u: int)
    requires WellFormed(n) && IsVertex(n, u)
    ensures forall t :: t in Targets(n.out[u]) <==> Arc(n, u, t)
  {
    forall t
      ensures t in Targets(n.out[u]) <==> Arc(n, u, t)
    {
      if t in Targets(n.out[u]) {
        var i :| 0 <= i < |n.out[u]| && Targets(n.out[u])[i] == t;
        RecordIsArc(n, u, i);
      }
      if Arc(n, u, t) {
        var i := ArcHasRecord(n, u, t);
        assert Targets(n.out[u])[i] == t;
      }
    }
  }

  // ---------------------------------------------------------------------
  // Paths and reachability

  /** A non-empty vertex sequence whose consecutive ids are joined by arcs. */
  ghost predicate IsPath(n: Net, p: seq<int>)
  {
    |p| > 0 && (forall i :: 0 <= i < |p| ==> IsVertex(n, p[i])) &&
    forall i :: 0 <= i < |p| - 1 ==> Arc(n, p[i], p[i + 1])
  }

  /** p is a path from s to v. */
  ghost predicate Walk(n: Net, s: int, v: int, p: seq<int>)
  {
    IsPath(n, p) && p[0] == s && p[|p| - 1] == v
  }

  ghost predicate Reachable(n: Net, s: int, v: int)
  {
    exists p :: Walk(n, s, v, p)
  }

  /** The sum of the arc weights along a path; 0 for a single vertex. */
  ghost function PathWeight(n: Net, p: seq<int>): real
    requires IsPath(n, p)
    decreases |p|
  {
    if |p| == 1 then 0.0
    else
      assert IsPath(n, p[..|p| - 1]) by {
        assert forall i :: 0 <= i < |p| - 1 ==> p[..|p| - 1][i] == p[i];
      }
      PathWeight(n, p[..|p| - 1]) + EdgeWeight(n, p[|p| - 2], p[|p| - 1]).value
  }

  /** Extending a path by an arc adds the arc's weight. */
  lemma PathExtend(n: Net, p: seq<int>, v: int)
    requires IsPath(n, p) && Arc(n, p[|p| - 1], v)
    ensures IsPath(n, p + [v]) && (p + [v])[..|p|] == p
    ensures PathWeight(n, p + [v]) == PathWeight(n, p) + EdgeWeight(n, p[|p| - 1], v).value
  {
    var q := p + [v];
    assert q[..|p|] == p;
    forall i | 0 <= i < |q| - 1
      ensures Arc(n, q[i], q[i + 1])
    {
      if i < |p| - 1 {
        assert q[i] == p[i] && q[i + 1] == p[i + 1];
      }
    }
  }

  /** A stretch of a path is a path. */
  lemma PathSlice(n: Net, p: seq<int>, a: int, b: int)
    requires IsPath(n, p) && 0 <= a < b <= |p|
    ensures IsPath(n, p[a..b])
  {
    var q := p[a..b];
    forall i | 0 <= i < |q| - 1
      ensures Arc(n, q[i], q[i + 1])
    {
      assert q[i] == p[a + i] && q[i + 1] == p[a + i + 1];
    }
  }

  /** Joining a path to one that starts where it ends adds the weights. */
  lemma {:induction false} PathConcat(n: Net, p: seq<int>, q: seq<int>)
    requires IsPath(n, p) && IsPath(n, q) && p[|p| - 1] == q[0]
    ensures IsPath(n, p + q[1..]) && (p + q[1..])[|p + q[1..]| - 1] == q[|q| - 1]
    ensures PathWeight(n, p + q[1..]) == PathWeight(n, p) + PathWeight(n, q)
    decreases |q|
  {
    if |q| == 1 {
      assert p + q[1..] == p;
    } else {
      var q' := q[..|q| - 1];
      PathSlice(n, q, 0, |q| - 1);
      PathConcat(n, p, q');
      var y := q[|q| - 1];
      assert p + q[1..] == (p + q'[1..]) + [y];
      assert (p + q'[1..])[|p + q'[1..]| - 1] == q[|q| - 2];
      PathExtend(n, p + q'[1..], y);
    }
  }

  lemma ReachableSelf(n: Net, s: int)
    requires IsVertex(n, s)
    ensures Reachable(n, s, s)
  {
    assert Walk(n, s, s, [s]);
  }

  lemma ReachableStep(n: Net, s: int, u: int, v: int)
    requires Reachable(n, s, u) && Arc(n, u, v)
    ensures Reachable(n, s, v)
  {
    var p :| Walk(n, s, u, p);
    PathExtend(n, p, v);
    assert Walk(n, s, v, p + [v]);
  }

  /** Reachability composes. */
  lemma ReachableTrans(n: Net, a: int, b: int, c: int)
    requires Reachable(n, a, b) && Reachable(n, b, c)
    ensures Reachable(n, a, c)
  {
    var p :| Walk(n, a, b, p);
    var q :| Walk(n, b, c, q);
    PathConcat(n, p, q);
    assert Walk(n, a, c, p + q[1..]);
  }

  /** A set closed under arcs that holds s holds every vertex of a path from s. */
  lemma {:induction false} ClosedPath(n: Net, S: set<int>, p: seq<int>)
    requires IsPath(n, p) && p[0] in S
    requires forall u, v :: u in S && Arc(n, u, v) ==> v in S
    ensures forall i :: 0 <= i < |p| ==> p[i] in S
    decreases |p|
  {
    if |p| > 1 {
      var q := p[..|p| - 1];
      assert forall i :: 0 <= i < |q| ==> q[i] == p[i];
      assert IsPath(n, q);
      ClosedPath(n, S, q);
      assert Arc(n, p[|p| - 2], p[|p| - 1]);
    }
  }

  /** A set closed under arcs that holds s holds everything reachable from s. */
  lemma ClosedHoldsReachable(n: Net, S: set<int>, s: int, v: int)
    requires s in S && Reachable(n, s, v)
    requires forall u, w :: u in S && Arc(n, u, w) ==> w in S
    ensures v in S
  {
    var p :| Walk(n, s, v, p);
    ClosedPath(n, S, p);
  }

  /**
   * In a symmetric graph a set closed under arcs is never entered: a path
   * that starts outside it stays outside.
   */
  lemma {:induction false} ClosedAvoided(n: Net, S: set<int>, p: seq<int>)
    requires Symmetric(n) && IsPath(n, p) && p[0] !in S
    requires forall u, v :: u in S && Arc(n, u, v) ==> v in S
    ensures forall i :: 0 <= i < |p| ==> p[i] !in S
    decreases |p|
  {
    if |p| > 1 {
      var q := p[..|p| - 1];
      assert forall i :: 0 <= i < |q| ==> q[i] == p[i];
      assert IsPath(n, q);
      ClosedAvoided(n, S, q);
      var u, v := p[|p| - 2], p[|p| - 1];
      assert Arc(n, u, v);
      assert EdgeWeight(n, v, u) == EdgeWeight(n, u, v);
    }
  }

  // ---------------------------------------------------------------------
  // Distance tables

  /** Nothing in the table can be improved along an arc out of a reached vertex. */
  ghost predicate Relaxed(n: Net, dist: seq<Weight>)
  {
    forall u, v :: Arc(n, u, v) && u < |dist| && v < |dist| && dist[u].Finite? ==>
      dist[v].Finite? && dist[v].value <= dist[u].value + EdgeWeight(n, u, v).value
  }

  /** Some path from s to v weighs d. */
  ghost predicate WeighedPath(n: Net, s: int, v: int, d: real)
  {
    exists p :: Walk(n, s, v, p) && PathWeight(n, p) == d
  }

  /** Every reached entry is the weight of some path from s. */
  ghost predicate Witnessed(n: Net, s: int, dist: seq<Weight>)
  {
    forall v :: 0 <= v < |dist| && dist[v].Finite? ==> WeighedPath(n, s, v, dist[v].value)
  }

  /** d is the least weight of a path from s to v, and some path has it. */
  ghost predicate Shortest(n: Net, s: int, v: int, d: real)
  {
    WeighedPath(n, s, v, d) &&
    (forall p :: Walk(n, s, v, p) ==> d <= PathWeight(n, p))
  }

  /** A closed path of negative weight whose first vertex s reaches. */
  ghost predicate NegativeCycleFrom(n: Net, s: int)
  {
    exists p :: IsPath(n, p) && |p| > 1 && p[0] == p[|p| - 1] && Reachable(n, s, p[0]) &&
      PathWeight(n, p) < 0.0
  }

  /** In a relaxed table, a reached entry bounds every path out of it. */
  lemma {:induction false} RelaxedBound(n: Net, dist: seq<Weight>, p: seq<int>)
    requires |dist| == |n.present| && Relaxed(n, dist) && IsPath(n, p) && dist[p[0]].Finite?
    ensures dist[p[|p| - 1]].Finite?
    ensures dist[p[|p| - 1]].value <= dist[p[0]].value + PathWeight(n, p)
    decreases |p|
  {
    if |p| > 1 {
      var q := p[..|p| - 1];
      assert forall i :: 0 <= i < |q| ==> q[i] == p[i];
      assert IsPath(n, q);
      RelaxedBound(n, dist, q);
      var u, v := p[|p| - 2], p[|p| - 1];
      assert Arc(n, u, v);
    }
  }

  /**
   * A relaxed table with a non-positive start entry, each of whose reached
   * entries is a path weight, holds the shortest path weights: the start
   * entry is 0, the reached ids are exactly the reachable ones, and no
   * negative cycle is reachable.
   */
  lemma RelaxedIsShortest(n: Net, s: int, dist: seq<Weight>)
    requires |dist| == |n.present| && IsVertex(n, s)
    requires Relaxed(n, dist) && Witnessed(n, s, dist)
    requires dist[s].Finite? && dist[s].value <= 0.0
    ensures dist[s] == Finite(0.0)
    ensures forall v :: 0 <= v < |dist| ==> (dist[v].Finite? <==> Reachable(n, s, v))
    ensures forall v :: 0 <= v < |dist| && dist[v].Finite? ==> Shortest(n, s, v, dist[v].value)
    ensures !NegativeCycleFrom(n, s)
  {
    var c :| Walk(n, s, s, c) && PathWeight(n, c) == dist[s].value;
    RelaxedBound(n, dist, c);
    forall v | 0 <= v < |dist|
      ensures dist[v].Finite? <==> Reachable(n, s, v)
    {
      if Reachable(n, s, v) {
        var p :| Walk(n, s, v, p);
        RelaxedBound(n, dist, p);
      }
    }
    forall v | 0 <= v < |dist| && dist[v].Finite?
      ensures Shortest(n, s, v, dist[v].value)
    {
      forall p | Walk(n, s, v, p)
        ensures dist[v].value <= PathWeight(n, p)
      {
        RelaxedBound(n, dist, p);
      }
    }
    if NegativeCycleFrom(n, s) {
      var p :| IsPath(n, p) && |p| > 1 && p[0] == p[|p| - 1] && Reachable(n, s, p[0]) &&
        PathWeight(n, p) < 0.0;
      RelaxedBound(n, dist, p);
    }
  }

  /**
   * Without a negative cycle reachable from s, cutting the closed stretches
   * out of a path from s leaves a repeat-free path with the same ends that
   * weighs no more.
   */
  lemma {:induction false} ShortenPath(n: Net, s: int, p: seq<int>) returns (q: seq<int>)
    requires IsPath(n, p) && p[0] == s && !NegativeCycleFrom(n, s)
    ensures IsPath(n, q) && q[0] == s && q[|q| - 1] == p[|p| - 1] && Distinct(q)
    ensures PathWeight(n, q) <= PathWeight(n, p)
    decreases |p|
  {
    if Distinct(p) {
      return p;
    }
    var i, j :| 0 <= i < j < |p| && p[i] == p[j];
    var r := CutCycle(n, p, i, j);
    assert PathWeight(n, r) <= PathWeight(n, p) by {
      var c := p[i..j + 1];
      assert !(IsPath(n, c) && |c| > 1 && c[0] == c[|c| - 1] && Reachable(n, s, c[0]) &&
        PathWeight(n, c) < 0.0);
    }
    q := ShortenPath(n, s, r);
  }

  /**
   * Cutting the closed stretch p[i..j+1] out of a path leaves a shorter path
   * with the same ends, lighter by the weight of the stretch.
   */
  lemma CutCycle(n: Net, p: seq<int>, i: int, j: int) returns (r: seq<int>)
    requires IsPath(n, p) && 0 <= i < j < |p| && p[i] == p[j]
    ensures IsPath(n, r) && r[0] == p[0] && r[|r| - 1] == p[|p| - 1] && |r| < |p|
    ensures IsPath(n, p[i..j + 1]) && Walk(n, p[0], p[i], p[..i + 1])
    ensures PathWeight(n, p) == PathWeight(n, r) + PathWeight(n, p[i..j + 1])
  {
    var a, c, b := p[..i + 1], p[i..j + 1], p[j..];
    PathSlice(n, p, 0, i + 1);
    PathSlice(n, p, i, j + 1);
    PathSlice(n, p, j, |p|);
    assert p == a + c[1..] + b[1..];
    JoinAround(n, a, c, b);
    r := a + b[1..];
  }

  /**
   * Joining a path, a closed path and a path end to end weighs as much as
   * joining the two paths alone plus the closed one.
   */
  lemma JoinAround(n: Net, a: seq<int>, c: seq<int>, b: seq<int>)
    requires IsPath(n, a) && IsPath(n, c) && IsPath(n, b)
    requires a[|a| - 1] == c[0] == c[|c| - 1] == b[0]
    ensures IsPath(n, a + c[1..] + b[1..]) && IsPath(n, a + b[1..])
    ensures (a + b[1..])[|a + b[1..]| - 1] == b[|b| - 1]
    ensures PathWeight(n, a + c[1..] + b[1..]) == PathWeight(n, a + b[1..]) + PathWeight(n, c)
  {
    PathConcat(n, a, c);
    PathConcat(n, a + c[1..], b);
    PathConcat(n, a, b);
  }

  /** A repeat-free path has at most as many vertices as the graph. */
  lemma DistinctPathBounded(n: Net, q: seq<int>)
    requires IsPath(n, q) && Distinct(q)
    ensures |q| <= |Marked(n.present)|
  {
    DistinctCount(q);
    var inQ := set x | x in q;
    assert inQ <= Marked(n.present);
    assert Marked(n.present) == inQ + (Marked(n.present) - inQ);
  }

  // ---------------------------------------------------------------------
  // Counting ids

  /** The ids 0 .. c-1. */
  ghost function Ids(c: nat): (r: set<int>)
    ensures |r| == c && forall x :: x in r <==> 0 <= x < c
  {
    if c == 0 then {} else Ids(c - 1) + {c - 1}
  }

  /** A set of ids below c has at most c members. */
  lemma SubsetBounded(S: set<int>, c: nat)
    requires forall v :: v in S ==> 0 <= v < c
    ensures |S| <= c
  {
    var rest := Ids(c) - S;
    assert Ids(c) == S + rest && S * rest == {};
  }

  /** A repeat-free sequence of ids below c is at most c long. */
  lemma DistinctBounded(s: seq<int>, c: nat)
    requires Distinct(s) && forall i :: 0 <= i < |s| ==> 0 <= s[i] < c
    ensures |s| <= c
  {
    DistinctCount(s);
    SubsetBounded((set x | x in s), c);
  }

  /** Setting one clear flag adds its id to the marked set. */
  lemma MarkOne(flags: seq<bool>, v: int)
    requires 0 <= v < |flags| && !flags[v]
    ensures Marked(flags[v := true]) == Marked(flags) + {v}
    ensures |Marked(flags[v := true])| == |Marked(flags)| + 1
  {
    assert Marked(flags[v := true]) == Marked(flags) + {v};
  }
}
