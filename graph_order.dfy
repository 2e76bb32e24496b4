/**
 * graph_topological_sort (Kahn's algorithm) and graph_has_cycle of
 * graph_algorithms.c, with the cycles they are about.
 */
module Orderings {
  import opened Wrappers
  import opened ListSpec
  import opened GraphNets

  // ---------------------------------------------------------------------
  // Cycles

  /** A closed path over at least one arc. */
  ghost predicate Cycle(n: Net, p: seq<int>)
  {
    IsPath(n, p) && |p| >= 2 && p[0] == p[|p| - 1]
  }

  /** The arcs of the graph, read as directed, close a cycle somewhere. */
  ghost predicate DirectedCycle(n: Net)
  {
    exists p :: Cycle(n, p)
  }

  /** The ids in a sequence, as a set. */
  ghost function SetOf(s: seq<int>): set<int>
  {
    set x | x in s
  }

  /** Every member of R is a vertex with an arc into it from a member of R. */
  ghost predicate Fed(n: Net, R: set<int>)
  {
    forall t :: t in R ==> IsVertex(n, t) && Into(n, t, R) != {}
  }

  /** A member of R with an arc into t. */
  lemma PickPred(n: Net, R: set<int>, t: int) returns (u: int)
    requires Fed(n, R) && t in R
    ensures u in R && Arc(n, u, t) && IsVertex(n, u)
  {
    u :| u in Into(n, t, R);
  }

  /**
   * A nonempty set of vertices in which every member has an arc into it
   * from another member holds a cycle: walking arcs backwards inside it
   * must repeat a vertex.
   */
  lemma CycleFromPredecessors(n: Net, R: set<int>, x: int)
    requires x in R && Fed(n, R)
    ensures DirectedCycle(n)
  {
    var p := BackWalk(n, R, x, |n.present| + 1);
    assert !Distinct(p) by {
      if Distinct(p) {
        DistinctBounded(p, |n.present|);
      }
    }
    var i, j :| 0 <= i < j < |p| && p[i] == p[j];
    PathSlice(n, p, i, j + 1);
    var c := p[i..j + 1];
    assert |c| >= 2 && c[0] == p[i] && c[|c| - 1] == p[j];
    assert Cycle(n, c);
  }

  /** A path of k vertices of R ending at x, built by stepping back along arcs. */
  lemma {:induction false} BackWalk(n: Net, R: set<int>, x: int, k: int) returns (p: seq<int>)
    requires Fed(n, R) && x in R && k >= 1
    ensures |p| == k && IsPath(n, p) && p[0] in R
    ensures forall i :: 0 <= i < |p| ==> 0 <= p[i] < |n.present|
    decreases k
  {
    if k == 1 {
      p := [x];
    } else {
      var q := BackWalk(n, R, x, k - 1);
      var u := PickPred(n, R, q[0]);
      p := [u] + q;
      assert forall i :: 1 <= i < |p| ==> p[i] == q[i - 1];
      forall i | 0 <= i < |p| - 1
        ensures Arc(n, p[i], p[i + 1])
      {
        if i > 0 {
          assert Arc(n, q[i - 1], q[i]);
        }
      }
    }
  }

  /**
   * An order in which every arc goes forward leaves no cycle: positions
   * strictly grow along any path.
   */
  lemma ForwardOrderAcyclic(n: Net, order: seq<int>)
    requires Distinct(order) && forall v :: IsVertex(n, v) ==> v in order
    requires forall i, j :: 0 <= i < |order| && 0 <= j < |order| && Arc(n, order[i], order[j]) ==> i < j
    ensures !DirectedCycle(n)
  {
    forall p | Cycle(n, p)
      ensures false
    {
      var a, b := PositionsGrow(n, order, p);
    }
  }

  /** Along a path the position in a forward order grows by at least the path's length - 1. */
  lemma {:induction false} PositionsGrow(n: Net, order: seq<int>, p: seq<int>) returns (a: int, b: int)
    requires Distinct(order) && forall v :: IsVertex(n, v) ==> v in order
    requires forall i, j :: 0 <= i < |order| && 0 <= j < |order| && Arc(n, order[i], order[j]) ==> i < j
    requires IsPath(n, p)
    ensures 0 <= a < |order| && order[a] == p[0]
    ensures 0 <= b < |order| && order[b] == p[|p| - 1]
    ensures a + |p| - 1 <= b
    decreases |p|
  {
    assert IsVertex(n, p[0]);
    a :| 0 <= a < |order| && order[a] == p[0];
    if |p| == 1 {
      b := a;
    } else {
      PathSlice(n, p, 1, |p|);
      var c, d := PositionsGrow(n, order, p[1..]);
      assert Arc(n, p[0], p[1]);
      b := d;
    }
  }

  // ---------------------------------------------------------------------
  // Kahn's topological sort

  /** The vertices among S with an arc into t. */
  ghost function Into(n: Net, t: int, S: set<int>): set<int>
  {
    set u | u in S && IsVertex(n, u) && Arc(n, u, t)
  }

  /** Adding one id to S adds it to the arcs into t when it has one. */
  lemma IntoAdd(n: Net, t: int, S: set<int>, x: int)
    requires x !in S
    ensures |Into(n, t, S + {x})| == |Into(n, t, S)| + if IsVertex(n, x) && Arc(n, x, t) then 1 else 0
  {
    if IsVertex(n, x) && Arc(n, x, t) {
      assert Into(n, t, S + {x}) == Into(n, t, S) + {x};
    } else {
      assert Into(n, t, S + {x}) == Into(n, t, S);
    }
  }

  /** The arcs into t from ids below from + 1: one more when from has an arc to t. */
  lemma IntoNext(n: Net, from: int, t: int)
    requires 0 <= from
    ensures |Into(n, t, Ids(from + 1))| == |Into(n, t, Ids(from))| + if Arc(n, from, t) then 1 else 0
  {
    assert Ids(from + 1) == Ids(from) + {from};
    IntoAdd(n, t, Ids(from), from);
  }

  /** Removing one id from S removes it from the arcs into t when it has one. */
  lemma IntoRemove(n: Net, t: int, S: set<int>, x: int)
    requires x in S
    ensures |Into(n, t, S - {x})| == |Into(n, t, S)| - if IsVertex(n, x) && Arc(n, x, t) then 1 else 0
  {
    if IsVertex(n, x) && Arc(n, x, t) {
      assert Into(n, t, S) == Into(n, t, S - {x}) + {x};
    } else {
      assert Into(n, t, S - {x}) == Into(n, t, S);
    }
  }

  /** 1 when t is the target of one of the records es[i..], else 0. */
  ghost function Later(es: seq<Edge>, i: int, t: int): int
    requires 0 <= i <= |es|
  {
    if t in Targets(es[i..]) then 1 else 0
  }

  /** Passing record i leaves its target behind and no other. */
  lemma LaterStep(es: seq<Edge>, i: int, t: int)
    requires UniqueTargets(es) && 0 <= i < |es|
    ensures Later(es, i, t) == Later(es, i + 1, t) + if es[i].to == t then 1 else 0
  {
    assert es[i..] == [es[i]] + es[i + 1..];
    assert Targets(es[i..]) == [es[i].to] + Targets(es[i + 1..]);
    var rest := es[i + 1..];
    forall k | 0 <= k < |rest|
      ensures Targets(rest)[k] != es[i].to
    {
      assert Targets(rest)[k] == es[i + 1 + k].to;
    }
  }

  /** 1 when t is the target of one of the records es[..i], else 0. */
  ghost function Earlier(es: seq<Edge>, i: int, t: int): int
    requires 0 <= i <= |es|
  {
    if t in Targets(es[..i]) then 1 else 0
  }

  /** Passing record i counts its target and no other. */
  lemma EarlierStep(es: seq<Edge>, i: int, t: int)
    requires UniqueTargets(es) && 0 <= i < |es|
    ensures Earlier(es, i + 1, t) == Earlier(es, i, t) + if es[i].to == t then 1 else 0
  {
    assert es[..i + 1] == es[..i] + [es[i]];
    TargetsAppend(es[..i], es[i]);
    forall k | 0 <= k < i
      ensures Targets(es[..i])[k] != es[i].to
    {
      assert Targets(es[..i])[k] == es[k].to;
    }
  }

  /**
   * One vertex's share of the first loop of graph_topological_sort: every
   * record aimed at a present target adds one to its in-degree, so each
   * vertex's in-degree grows by one exactly when from has an arc to it.
   */
  method CountFrom(n: Net, from: int, indegree: seq<int>) returns (indegree': seq<int>)
    requires WellFormed(n) && IsVertex(n, from) && |indegree| == |n.present|
    ensures |indegree'| == |n.present|
    ensures forall t :: 0 <= t < |n.present| ==> indegree'[t] == indegree[t] + if Arc(n, from, t) then 1 else 0
  {
    var es := n.out[from];
    indegree' := indegree;
    var i := 0;
    while i < |es|
      invariant 0 <= i <= |es| && |indegree'| == |n.present|
      invariant forall t :: 0 <= t < |n.present| ==> indegree'[t] == indegree[t] + Earlier(es, i, t)
    {
      forall t | 0 <= t < |n.present|
        ensures Earlier(es, i + 1, t) == Earlier(es, i, t) + if es[i].to == t then 1 else 0
      {
        EarlierStep(es, i, t);
      }
      var to := es[i].to;
      RecordIsArc(n, from, i);
      if IsVertex(n, to) {
        indegree' := indegree'[to := indegree'[to] + 1];
      }
      i := i + 1;
    }
    TargetsAreArcs(n, from);
    assert es[..|es|] == es;
  }

  /**
   * The first loop of graph_topological_sort over every present vertex.
   * Afterwards each in-degree counts the vertices with an arc into it.
   */
  method CountIndegrees(n: Net) returns (indegree: seq<int>)
    requires WellFormed(n)
    ensures |indegree| == |n.present|
    ensures forall t :: 0 <= t < |n.present| ==> indegree[t] == |Into(n, t, Ids(|n.present|))|
  {
    var c := |n.present|;
    indegree := seq(c, _ => 0);
    var from := 0;
    while from < c
      invariant 0 <= from <= c && |indegree| == c
      invariant forall t :: 0 <= t < c ==> indegree[t] == |Into(n, t, Ids(from))|
    {
      if IsVertex(n, from) {
        indegree := CountFrom(n, from, indegree);
      }
      forall t | 0 <= t < c
        ensures indegree[t] == |Into(n, t, Ids(from + 1))|
      {
        IntoNext(n, from, t);
      }
      from := from + 1;
    }
  }

  /** The ids below the capacity not yet in the order. */
  ghost function Rem(n: Net, order: seq<int>): set<int>
  {
    Ids(|n.present|) - SetOf(order)
  }

  /** Every vertex with an arc into order[j] comes before it. */
  ghost predicate Forward(n: Net, order: seq<int>)
  {
    forall j, u :: 0 <= j < |order| && IsVertex(n, u) && Arc(n, u, order[j]) ==> u in order[..j]
  }

  /**
   * The state of Kahn's main loop: order and queue hold present vertices
   * without repeats, each in-degree counts the arcs into it from vertices
   * not yet ordered, a present vertex is ordered or queued exactly when
   * its in-degree is 0, and the order puts every arc forward.
   */
  ghost predicate Kahn(n: Net, indegree: seq<int>, order: seq<int>, queue: seq<int>)
  {
    |indegree| == |n.present| &&
    Distinct(order + queue) && (forall x :: x in order + queue ==> IsVertex(n, x)) &&
    (forall t :: 0 <= t < |n.present| ==> indegree[t] == |Into(n, t, Rem(n, order))|) &&
    (forall t :: IsVertex(n, t) ==> (t in order + queue <==> indegree[t] == 0)) &&
    Forward(n, order)
  }

  /**
   * The same state while the records of v, just ordered, are walked: the
   * targets of the records from i on still count v.
   */
  ghost predicate Releasing(n: Net, v: int, indegree: seq<int>, order: seq<int>, queue: seq<int>, i: int)
    requires WellFormed(n)
  {
    |indegree| == |n.present| && IsVertex(n, v) && 0 <= i <= |n.out[v]| &&
    Distinct(order + queue) && (forall x :: x in order + queue ==> IsVertex(n, x)) &&
    (forall t :: 0 <= t < |n.present| ==> indegree[t] == |Into(n, t, Rem(n, order))| + Later(n.out[v], i, t)) &&
    (forall t :: IsVertex(n, t) ==> (t in order + queue <==> indegree[t] == 0)) &&
    Forward(n, order)
  }

  /** Moving the head of the queue to the order starts the walk of its records. */
  lemma Dequeue(n: Net, indegree: seq<int>, order: seq<int>, queue: seq<int>)
    requires WellFormed(n) && Kahn(n, indegree, order, queue) && queue != []
    ensures Releasing(n, queue[0], indegree, order + [queue[0]], queue[1..], 0)
  {
    var v := queue[0];
    var order' := order + [v];
    assert order' + queue[1..] == order + queue;
    assert v in order + queue && v in queue;
    DistinctParts(order, queue);
    assert IsVertex(n, v) && v !in order;
    assert v in Rem(n, order);
    assert Rem(n, order') == Rem(n, order) - {v};
    TargetsAreArcs(n, v);
    assert n.out[v][0..] == n.out[v];
    forall t | 0 <= t < |n.present|
      ensures indegree[t] == |Into(n, t, Rem(n, order'))| + Later(n.out[v], 0, t)
    {
      IntoRemove(n, t, Rem(n, order), v);
    }
    assert indegree[v] == 0;
    forall j, u | 0 <= j < |order'| && IsVertex(n, u) && Arc(n, u, order'[j])
      ensures u in order'[..j]
    {
      if j < |order| {
        assert order'[j] == order[j] && order'[..j] == order[..j];
      } else {
        assert u !in Into(n, v, Rem(n, order));
        assert order'[..j] == order;
      }
    }
  }

  /** The target of record i of v, a vertex, has one less and is queued when that reaches 0. */
  ghost predicate Decremented(n: Net, v: int, i: int, indegree: seq<int>, queue: seq<int>,
                              indegree': seq<int>, queue': seq<int>)
    requires WellFormed(n) && IsVertex(n, v) && 0 <= i < |n.out[v]| && |indegree| == |n.present|
  {
    var to := n.out[v][i].to;
    IsVertex(n, to) &&
    indegree' == indegree[to := indegree[to] - 1] &&
    queue' == if indegree'[to] == 0 then queue + [to] else queue
  }

  /** Releasing record i: one less for its target, which is queued when that reaches 0. */
  lemma ReleaseStep(n: Net, v: int, indegree: seq<int>, order: seq<int>, queue: seq<int>, i: int,
                    indegree': seq<int>, queue': seq<int>)
    requires WellFormed(n) && Releasing(n, v, indegree, order, queue, i) && i < |n.out[v]|
    requires Decremented(n, v, i, indegree, queue, indegree', queue')
    ensures Releasing(n, v, indegree', order, queue', i + 1)
  {
    ReleaseCounts(n, v, indegree, order, queue, i, indegree');
    ReleaseQueue(n, v, indegree, order, queue, i, indegree', queue');
  }

  /** Releasing record i queues its target exactly when that target reaches 0. */
  lemma ReleaseQueue(n: Net, v: int, indegree: seq<int>, order: seq<int>, queue: seq<int>, i: int,
                     indegree': seq<int>, queue': seq<int>)
    requires WellFormed(n) && Releasing(n, v, indegree, order, queue, i) && i < |n.out[v]|
    requires Decremented(n, v, i, indegree, queue, indegree', queue')
    ensures Distinct(order + queue') && forall x :: x in order + queue' ==> IsVertex(n, x)
    ensures forall t :: IsVertex(n, t) ==> (t in order + queue' <==> indegree'[t] == 0)
  {
    ReleasedTarget(n, v, indegree, order, queue, i);
    var to := n.out[v][i].to;
    if indegree'[to] == 0 {
      DistinctAppend(order + queue, to);
      assert order + queue' == (order + queue) + [to];
    } else {
      assert queue' == queue;
    }
  }

  /** The in-degrees after record i count the records from i + 1 on. */
  lemma ReleaseCounts(n: Net, v: int, indegree: seq<int>, order: seq<int>, queue: seq<int>, i: int,
                      indegree': seq<int>)
    requires WellFormed(n) && Releasing(n, v, indegree, order, queue, i) && i < |n.out[v]|
    requires indegree' == indegree[n.out[v][i].to := indegree[n.out[v][i].to] - 1]
    ensures forall t :: 0 <= t < |n.present| ==>
      indegree'[t] == |Into(n, t, Rem(n, order))| + Later(n.out[v], i + 1, t)
  {
    ReleasedTarget(n, v, indegree, order, queue, i);
    forall t | 0 <= t < |n.present|
      ensures indegree'[t] == |Into(n, t, Rem(n, order))| + Later(n.out[v], i + 1, t)
    {
      LaterStep(n.out[v], i, t);
    }
  }

  /** The target of record i is a vertex still counting v, so neither ordered nor queued. */
  lemma ReleasedTarget(n: Net, v: int, indegree: seq<int>, order: seq<int>, queue: seq<int>, i: int)
    requires WellFormed(n) && Releasing(n, v, indegree, order, queue, i) && i < |n.out[v]|
    ensures IsVertex(n, n.out[v][i].to) && indegree[n.out[v][i].to] >= 1
    ensures n.out[v][i].to !in order + queue
  {
    var to := n.out[v][i].to;
    RecordIsArc(n, v, i);
    assert Targets(n.out[v][i..])[0] == to;
    assert Later(n.out[v], i, to) == 1;
  }

  /**
   * graph_topological_sort: none for an undirected graph. Otherwise the
   * in-degrees are counted, every present vertex of in-degree 0 is queued
   * in increasing id order, and each dequeued vertex is appended to the
   * order and releases its targets, queueing those that drop to 0. The
   * order is returned exactly when it holds vertex_count vertices, which
   * happens exactly when the graph has no cycle; it then lists every
   * vertex once and puts every arc forward.
   */
  method TopologicalSort(n: Net) returns (r: Option<seq<int>>)
    requires WellFormed(n)
    ensures r.None? <==> !n.directed || DirectedCycle(n)
    ensures r.Some? ==> Distinct(r.value) && forall v :: v in r.value <==> IsVertex(n, v)
    ensures r.Some? ==> forall i, j :: 0 <= i < |r.value| && 0 <= j < |r.value| && Arc(n, r.value[i], r.value[j]) ==> i < j
  {
    if !n.directed {
      return None;
    }
    var c := |n.present|;
    var indegree := CountIndegrees(n);
    var queue := ZeroQueue(n, indegree);
    var order := [];
    KahnStart(n, indegree, queue);
    while queue != []
      invariant Kahn(n, indegree, order, queue)
      decreases c - |order|
    {
      QueueBound(n, order, queue);
      Dequeue(n, indegree, order, queue);
      var w := queue[0];
      queue := queue[1..];
      order := order + [w];
      indegree, queue := Release(n, w, indegree, order, queue);
    }
    assert order + queue == order;
    if |order| == n.count {
      AllOrdered(n, order);
      ForwardRespected(n, order);
      ForwardOrderAcyclic(n, order);
      r := Some(order);
    } else {
      Stuck(n, indegree, order);
      r := None;
    }
  }

  /** The present vertices of in-degree 0, in increasing id order. */
  method ZeroQueue(n: Net, indegree: seq<int>) returns (queue: seq<int>)
    requires |indegree| == |n.present|
    ensures Distinct(queue)
    ensures forall x :: x in queue <==> IsVertex(n, x) && indegree[x] == 0
  {
    queue := [];
    var v := 0;
    while v < |n.present|
      invariant 0 <= v <= |n.present| && Distinct(queue)
      invariant forall x :: x in queue <==> 0 <= x < v && IsVertex(n, x) && indegree[x] == 0
    {
      if IsVertex(n, v) && indegree[v] == 0 {
        DistinctAppend(queue, v);
        queue := queue + [v];
      }
      v := v + 1;
    }
  }

  /** Before anything is ordered, the counted in-degrees and their zero queue form a Kahn state. */
  lemma KahnStart(n: Net, indegree: seq<int>, queue: seq<int>)
    requires |indegree| == |n.present|
    requires forall t :: 0 <= t < |n.present| ==> indegree[t] == |Into(n, t, Ids(|n.present|))|
    requires Distinct(queue) && forall x :: x in queue <==> IsVertex(n, x) && indegree[x] == 0
    ensures Kahn(n, indegree, [], queue)
  {
    assert [] + queue == queue;
    assert Rem(n, []) == Ids(|n.present|);
  }

  /** The records of v walked: each present target loses one, and is queued at 0. */
  method Release(n: Net, v: int, indegree: seq<int>, order: seq<int>, queue: seq<int>)
      returns (indegree': seq<int>, queue': seq<int>)
    requires WellFormed(n) && Releasing(n, v, indegree, order, queue, 0)
    ensures Kahn(n, indegree', order, queue')
  {
    indegree', queue' := indegree, queue;
    var i := 0;
    while i < |n.out[v]|
      invariant 0 <= i <= |n.out[v]| && Releasing(n, v, indegree', order, queue', i)
      decreases |n.out[v]| - i
    {
      indegree', queue' := ReleaseAt(n, v, indegree', order, queue', i);
      i := i + 1;
    }
    ReleaseDone(n, v, indegree', order, queue');
  }

  /** Record i of v released: the walk moves on to record i + 1. */
  method ReleaseAt(n: Net, v: int, indegree: seq<int>, order: seq<int>, queue: seq<int>, i: int)
      returns (indegree': seq<int>, queue': seq<int>)
    requires WellFormed(n) && Releasing(n, v, indegree, order, queue, i) && i < |n.out[v]|
    ensures Releasing(n, v, indegree', order, queue', i + 1)
  {
    indegree', queue' := ReleaseOne(n, v, indegree, queue, i);
    ReleaseStep(n, v, indegree, order, queue, i, indegree', queue');
  }

  /** Record i of v: its target, when present, loses one and is queued when that reaches 0. */
  method ReleaseOne(n: Net, v: int, indegree: seq<int>, queue: seq<int>, i: int)
      returns (indegree': seq<int>, queue': seq<int>)
    requires WellFormed(n) && IsVertex(n, v) && 0 <= i < |n.out[v]| && |indegree| == |n.present|
    ensures Decremented(n, v, i, indegree, queue, indegree', queue')
  {
    var to := n.out[v][i].to;
    RecordIsArc(n, v, i);
    indegree', queue' := indegree, queue;
    if IsVertex(n, to) {
      indegree' := indegree'[to := indegree'[to] - 1];
      if indegree'[to] == 0 {
        queue' := queue' + [to];
      }
    }
  }

  /** With every record of v walked, the state is Kahn's again. */
  lemma ReleaseDone(n: Net, v: int, indegree: seq<int>, order: seq<int>, queue: seq<int>)
    requires WellFormed(n) && IsVertex(n, v) && Releasing(n, v, indegree, order, queue, |n.out[v]|)
    ensures Kahn(n, indegree, order, queue)
  {
    assert forall t :: Later(n.out[v], |n.out[v]|, t) == 0;
  }

  /** The ordered and queued vertices number at most the capacity. */
  lemma QueueBound(n: Net, order: seq<int>, queue: seq<int>)
    requires Distinct(order + queue) && forall x :: x in order + queue ==> IsVertex(n, x)
    ensures |order| + |queue| <= |n.present|
  {
    var s := order + queue;
    assert forall i :: 0 <= i < |s| ==> s[i] in s;
    DistinctBounded(s, |n.present|);
  }

  /** An order of vertex_count present vertices without repeats holds every vertex. */
  lemma AllOrdered(n: Net, order: seq<int>)
    requires WellFormed(n) && Distinct(order) && (forall x :: x in order ==> IsVertex(n, x)) && |order| == n.count
    ensures forall v :: IsVertex(n, v) ==> v in order
  {
    DistinctCount(order);
    assert SetOf(order) <= Marked(n.present);
    assert |SetOf(order)| == |Marked(n.present)|;
    SubsetEqual(SetOf(order), Marked(n.present));
    forall v | IsVertex(n, v)
      ensures v in order
    {
      assert v in Marked(n.present);
      assert v in SetOf(order);
    }
  }

  /** A subset as large as its superset is the whole of it. */
  lemma SubsetEqual(A: set<int>, B: set<int>)
    requires A <= B && |A| == |B|
    ensures A == B
  {
    assert |B - A| == |B| - |A|;
  }

  /** Every arc into an order entry from an earlier entry goes forward. */
  lemma ForwardRespected(n: Net, order: seq<int>)
    requires Distinct(order) && Forward(n, order) && forall x :: x in order ==> IsVertex(n, x)
    ensures forall i, j :: 0 <= i < |order| && 0 <= j < |order| && Arc(n, order[i], order[j]) ==> i < j
  {
    forall i, j | 0 <= i < |order| && 0 <= j < |order| && Arc(n, order[i], order[j])
      ensures i < j
    {
      assert order[i] in order;
      assert order[i] in order[..j];
      var k :| 0 <= k < j && order[..j][k] == order[i];
      assert order[k] == order[i];
    }
  }

  /**
   * Kahn's loop ran dry before ordering vertex_count vertices: the
   * unordered vertices each keep an arc from another unordered vertex, so
   * the graph has a cycle.
   */
  lemma Stuck(n: Net, indegree: seq<int>, order: seq<int>)
    requires WellFormed(n) && Kahn(n, indegree, order, []) && |order| != n.count
    ensures DirectedCycle(n)
  {
    assert order + [] == order;
    DistinctCount(order);
    assert SetOf(order) <= Marked(n.present);
    assert SetOf(order) != Marked(n.present);
    var x :| x in Marked(n.present) && x !in SetOf(order);
    var R := set t | t in Rem(n, order) && IsVertex(n, t);
    assert x in Rem(n, order);
    StuckFed(n, indegree, order, R);
    CycleFromPredecessors(n, R, x);
  }

  /** Every unordered vertex of a dry Kahn state keeps an arc from another unordered vertex. */
  lemma StuckFed(n: Net, indegree: seq<int>, order: seq<int>, R: set<int>)
    requires WellFormed(n) && Kahn(n, indegree, order, [])
    requires R == set t | t in Rem(n, order) && IsVertex(n, t)
    ensures Fed(n, R)
  {
    assert order + [] == order;
    forall t | t in R
      ensures IsVertex(n, t) && Into(n, t, R) != {}
    {
      assert t in Rem(n, order) && t !in SetOf(order);
      assert t !in order + [];
      assert indegree[t] != 0;
      assert Into(n, t, R) == Into(n, t, Rem(n, order));
    }
  }
}
