/**
 * graph_connected_components and graph_strongly_connected_components of
 * graph_algorithms.c. Both hand back a list of vertex lists; here a
 * component is the sequence of its vertex ids in the order the C appends
 * them.
 */
module Components {
  import opened Wrappers
  import opened ListSpec
  import opened GraphNets
  import opened Traversals

  /** All components laid end to end. */
  ghost function Flatten(cs: seq<seq<int>>): seq<int>
  {
    if cs == [] then [] else Flatten(cs[..|cs| - 1]) + cs[|cs| - 1]
  }

  /** Every present vertex lies in exactly one component, and nothing else does. */
  ghost predicate Partition(n: Net, cs: seq<seq<int>>)
  {
    Distinct(Flatten(cs)) &&
    (forall v :: v in Flatten(cs) <==> IsVertex(n, v)) &&
    forall i :: 0 <= i < |cs| ==> cs[i] != []
  }

  /** Component c holds exactly the vertices reachable from its first vertex. */
  ghost predicate ReachClass(n: Net, c: seq<int>)
  {
    c != [] && forall v :: v in c <==> Reachable(n, c[0], v)
  }

  /** No arc leaves the vertices listed in vs. */
  ghost predicate Closed(n: Net, vs: seq<int>)
  {
    forall u, w :: u in vs && Arc(n, u, w) ==> w in vs
  }

  /** A vertex lies in the flattened components exactly when it lies in one of them. */
  lemma {:induction false} InFlatten(cs: seq<seq<int>>, v: int)
    ensures v in Flatten(cs) <==> exists i :: 0 <= i < |cs| && v in cs[i]
    decreases |cs|
  {
    if cs != [] {
      var init := cs[..|cs| - 1];
      InFlatten(init, v);
      assert Flatten(cs) == Flatten(init) + cs[|cs| - 1];
      if exists i :: 0 <= i < |cs| && v in cs[i] {
        var i :| 0 <= i < |cs| && v in cs[i];
        if i < |cs| - 1 {
          assert init[i] == cs[i];
        }
      }
      forall i | 0 <= i < |init|
        ensures init[i] == cs[i]
      {
      }
    }
  }

  /** Components that are each a reachability class together form a closed set. */
  lemma ClassesClosed(n: Net, cs: seq<seq<int>>)
    requires forall i :: 0 <= i < |cs| ==> ReachClass(n, cs[i])
    ensures Closed(n, Flatten(cs))
  {
    forall u, w | u in Flatten(cs) && Arc(n, u, w)
      ensures w in Flatten(cs)
    {
      InFlatten(cs, u);
      var i :| 0 <= i < |cs| && u in cs[i];
      ReachableStep(n, cs[i][0], u, w);
      InFlatten(cs, w);
    }
  }

  /**
   * The inner breadth-first search of graph_connected_components from an
   * unvisited present start: the queue is seeded with start, each dequeued
   * vertex is appended to the component, and its unvisited present
   * targets are marked and enqueued. The visited flags are shared with the
   * components found before, whose vertices form a closed set.
   */
  method Component(n: Net, start: int, visited: seq<bool>, ghost done: seq<int>)
      returns (comp: seq<int>, visited': seq<bool>)
    requires WellFormed(n) && !n.directed && IsVertex(n, start)
    requires |visited| == |n.present| && !visited[start]
    requires MarksExactly(visited, done) && Distinct(done) && Closed(n, done)
    ensures |visited'| == |n.present|
    ensures MarksExactly(visited', done + comp) && Distinct(done + comp)
    ensures ReachClass(n, comp) && comp[0] == start
  {
    comp := [];
    visited' := visited[start := true];
    var queue := [start];
    ReachableSelf(n, start);
    assert done + (comp + queue) == done + [start];
    DistinctAppend(done, start);
    while queue != []
      invariant |visited'| == |n.present|
      invariant MarksExactly(visited', done + (comp + queue))
      invariant FromStart(n, start, comp + queue)
      invariant Distinct(done + (comp + queue)) && |comp + queue| > 0 && (comp + queue)[0] == start
      invariant forall u, w :: u in comp && Arc(n, u, w) ==> w in comp + queue
      decreases |visited'| - |comp|
    {
      var v := queue[0];
      assert (comp + queue)[|comp|] == v;
      assert v in comp + queue;
      ghost var before := comp;
      assert comp + queue == (comp + [v]) + queue[1..];
      queue := queue[1..];
      comp := comp + [v];
      ComponentBound(n, start, done, comp + queue);
      DistinctParts(done, comp + queue);
      assert v in comp + queue;
      var i := 0;
      while i < |n.out[v]|
        invariant 0 <= i <= |n.out[v]|
        invariant |visited'| == |n.present|
        invariant MarksExactly(visited', done + (comp + queue))
        invariant FromStart(n, start, comp + queue)
        invariant Distinct(done + (comp + queue)) && (comp + queue)[0] == start
        invariant comp == before + [v] && v !in done
        invariant forall u, w :: u in before && Arc(n, u, w) ==> w in comp + queue
        invariant forall k :: 0 <= k < i ==> n.out[v][k].to in comp + queue
      {
        var w := n.out[v][i].to;
        RecordReachable(n, start, v, i);
        if IsVertex(n, w) && !visited'[w] {
          assert w !in done + (comp + queue);
          DistinctAppend(done + (comp + queue), w);
          assert (done + (comp + queue)) + [w] == done + (comp + (queue + [w]));
          visited' := visited'[w := true];
          queue := queue + [w];
          ComponentBound(n, start, done, comp + queue);
        } else if IsVertex(n, w) {
          RecordIsArc(n, v, i);
          OutsideDone(n, done, v, w);
          assert w in done + (comp + queue);
        }
        i := i + 1;
      }
      TargetsAreArcs(n, v);
      forall u, w | u in comp && Arc(n, u, w)
        ensures w in comp + queue
      {
        if u == v {
          assert w in Targets(n.out[v]);
        }
      }
    }
    assert comp + queue == comp;
    assert comp[0] == start;
    ClosedListing(n, start, comp);
  }

  /** A vertex with an arc to a vertex outside a closed set of a symmetric graph lies outside it too. */
  lemma OutsideDone(n: Net, done: seq<int>, v: int, w: int)
    requires WellFormed(n) && !n.directed && Closed(n, done) && v !in done && Arc(n, v, w)
    ensures w !in done
  {
    assert Symmetric(n);
    assert EdgeWeight(n, w, v) == EdgeWeight(n, v, w);
    if w in done {
      assert Arc(n, w, v);
    }
  }

  /** The listed vertices number at most the capacity. */
  lemma ComponentBound(n: Net, start: int, done: seq<int>, vs: seq<int>)
    requires FromStart(n, start, vs) && Distinct(done + vs)
    ensures |vs| <= |n.present|
  {
    DistinctParts(done, vs);
    ListingBounded(n, start, vs);
  }

  /**
   * graph_connected_components: none for a directed graph. Otherwise one
   * component per unvisited present start in increasing id order; the
   * components partition the present vertices and each holds exactly the
   * vertices reachable from its first one.
   */
  method ConnectedComponents(n: Net) returns (r: Option<seq<seq<int>>>)
    requires WellFormed(n)
    ensures r.None? <==> n.directed
    ensures r.Some? ==> Partition(n, r.value)
    ensures r.Some? ==> forall i :: 0 <= i < |r.value| ==> ReachClass(n, r.value[i])
  {
    if n.directed {
      return None;
    }
    var comps: seq<seq<int>> := [];
    var visited := seq(|n.present|, _ => false);
    var start := 0;
    while start < |n.present|
      invariant 0 <= start <= |n.present| && |visited| == |n.present|
      invariant MarksExactly(visited, Flatten(comps)) && Distinct(Flatten(comps))
      invariant forall i :: 0 <= i < |comps| ==> ReachClass(n, comps[i])
      invariant forall v :: 0 <= v < start && IsVertex(n, v) ==> v in Flatten(comps)
    {
      if IsVertex(n, start) && !visited[start] {
        ClassesClosed(n, comps);
        var comp;
        comp, visited := Component(n, start, visited, Flatten(comps));
        assert Flatten(comps + [comp]) == Flatten(comps) + comp;
        assert (comps + [comp])[..|comps|] == comps;
        comps := comps + [comp];
      }
      start := start + 1;
    }
    forall v
      ensures v in Flatten(comps) <==> IsVertex(n, v)
    {
      if v in Flatten(comps) {
        InFlatten(comps, v);
        var i :| 0 <= i < |comps| && v in comps[i];
        var p :| Walk(n, comps[i][0], v, p);
        assert p[|p| - 1] == v;
      }
    }
    r := Some(comps);
  }

  // ---------------------------------------------------------------------
  // Tarjan's strongly connected components

  /**
   * The state tarjan_dfs threads through its calls: the next index, the
   * index and lowlink of every id (-1 before it is visited), the on-stack
   * flags, the stack, and the components emitted so far.
   */
  datatype TarjanState = TarjanState(
    counter: int, index: seq<int>, low: seq<int>, onStack: seq<bool>,
    stack: seq<int>, comps: seq<seq<int>>)

  /** The last vertex of a nonempty component: the root that emitted it. */
  function Root(c: seq<int>): int
    requires c != []
  {
    c[|c| - 1]
  }

  /** Each component is nonempty and everything in it is reachable from its root. */
  ghost predicate RootedComponents(n: Net, cs: seq<seq<int>>)
  {
    forall i :: 0 <= i < |cs| ==> cs[i] != [] && forall x :: x in cs[i] ==> Reachable(n, Root(cs[i]), x)
  }

  /**
   * What the state keeps: the emitted vertices and the stack are present
   * vertices without repeats and apart from each other, they are exactly
   * the ids with an index, the on-stack flags mark the stack, and the
   * counter is how many ids got an index.
   */
  ghost predicate Inv(n: Net, st: TarjanState)
  {
    |st.index| == |n.present| && |st.low| == |n.present| && |st.onStack| == |n.present| &&
    Distinct(Flatten(st.comps)) && Distinct(st.stack) &&
    (forall x :: x in st.stack ==> x !in Flatten(st.comps)) &&
    (forall x :: x in st.stack ==> IsVertex(n, x)) &&
    (forall x :: x in Flatten(st.comps) ==> IsVertex(n, x)) &&
    (forall u :: 0 <= u < |n.present| ==> (st.index[u] != -1 <==> u in Flatten(st.comps) || u in st.stack)) &&
    (forall u :: 0 <= u < |n.present| ==> (st.onStack[u] <==> u in st.stack)) &&
    st.counter == |Flatten(st.comps)| + |st.stack| &&
    RootedComponents(n, st.comps)
  }

  /**
   * Since the current top-level call began at index base, everything on
   * the stack got an index at least base, and its lowlink lies between
   * base and its index.
   */
  ghost predicate Above(st: TarjanState, base: int)
  {
    base <= st.counter &&
    forall x :: x in st.stack && 0 <= x < |st.index| && 0 <= x < |st.low| ==>
      base <= st.low[x] <= st.index[x]
  }

  /** Entry x of an index or lowlink table, -1 outside it. */
  function At(table: seq<int>, x: int): int
  {
    if 0 <= x < |table| then table[x] else -1
  }

  /** Index numbers lie below the counter and increase up the stack. */
  ghost predicate Numbered(st: TarjanState)
  {
    (forall u :: 0 <= u < |st.index| ==> st.index[u] < st.counter) &&
    (forall i, j :: 0 <= i < j < |st.stack| ==> At(st.index, st.stack[i]) < At(st.index, st.stack[j]))
  }

  /** x reaches a vertex on the stack whose index is x's lowlink. */
  ghost predicate LowReach(n: Net, st: TarjanState, x: int)
  {
    exists y :: y in st.stack && At(st.index, y) == At(st.low, x) && Reachable(n, x, y)
  }

  /** The arc y -> z is accounted for: z is emitted, or on the stack with an index at least y's lowlink. */
  ghost predicate TargetSettled(st: TarjanState, y: int, z: int)
  {
    z in Flatten(st.comps) || (z in st.stack && At(st.low, y) <= At(st.index, z))
  }

  /** Every arc out of y is accounted for. */
  ghost predicate Settled(n: Net, st: TarjanState, y: int)
  {
    forall z :: Arc(n, y, z) ==> TargetSettled(st, y, z)
  }

  /** No arc leaves a component for a later one: arcs out of component i end in components 0..i. */
  ghost predicate DownClosed(n: Net, cs: seq<seq<int>>)
  {
    forall i, x, z :: 0 <= i < |cs| && x in cs[i] && Arc(n, x, z) ==> z in Flatten(cs[..i + 1])
  }

  /** Everything in a component reaches its root. */
  ghost predicate ReachRoot(n: Net, cs: seq<seq<int>>)
  {
    forall i, x :: 0 <= i < |cs| && x in cs[i] ==> Reachable(n, x, Root(cs[i]))
  }

  /** The facts behind the correctness of the emitted components. */
  ghost predicate Sound(n: Net, st: TarjanState)
  {
    Numbered(st) && (forall x {:trigger LowReach(n, st, x)} :: x in st.stack ==> LowReach(n, st, x)) &&
    DownClosed(n, st.comps) && ReachRoot(n, st.comps)
  }

  /** From st to st' nothing emitted is lost, and a stacked vertex stays with its index or is emitted. */
  ghost predicate Kept(st: TarjanState, st': TarjanState)
  {
    (forall z :: z in Flatten(st.comps) ==> z in Flatten(st'.comps)) &&
    (forall z :: z in st.stack ==> z in Flatten(st'.comps) || (z in st'.stack && At(st'.index, z) == At(st.index, z)))
  }

  /** The vertices on st's stack keep their lowlinks in st'. */
  ghost predicate LowsKept(st: TarjanState, st': TarjanState)
  {
    forall u :: u in st.stack ==> At(st'.low, u) == At(st.low, u)
  }

  /** The stack entries from position from on have finished calls: lowlink below index, every arc accounted for. */
  ghost predicate Finished(n: Net, st: TarjanState, from: int)
  {
    forall j :: 0 <= j < |st.stack| && from <= j ==> At(st.low, st.stack[j]) < At(st.index, st.stack[j]) && Settled(n, st, st.stack[j])
  }

  /** v's lowlink is at most that of every stack entry from position from on. */
  ghost predicate MinAbove(st: TarjanState, v: int, from: int)
  {
    forall j :: 0 <= j < |st.stack| && from <= j ==> At(st.low, v) <= At(st.low, st.stack[j])
  }

  /** The first i records of v are accounted for. */
  ghost predicate Partial(n: Net, st: TarjanState, v: int, i: int)
  {
    0 <= v < |n.out| && 0 <= i <= |n.out[v]| &&
    forall k :: 0 <= k < i ==> TargetSettled(st, v, n.out[v][k].to)
  }

  /** A witness for LowReach. */
  lemma LowWitness(n: Net, st: TarjanState, x: int, y: int)
    requires y in st.stack && At(st.index, y) == At(st.low, x) && Reachable(n, x, y)
    ensures LowReach(n, st, x)
  {
  }

  /** Kept composes. */
  lemma KeptTrans(a: TarjanState, b: TarjanState, c: TarjanState)
    requires Kept(a, b) && Kept(b, c)
    ensures Kept(a, c)
  {
  }

  /** An accounted arc stays accounted when nothing is lost and y's lowlink does not grow. */
  lemma SettledKept(n: Net, st: TarjanState, st': TarjanState, y: int)
    requires Kept(st, st') && At(st'.low, y) <= At(st.low, y) && Settled(n, st, y)
    ensures Settled(n, st', y)
  {
    forall z | Arc(n, y, z)
      ensures TargetSettled(st', y, z)
    {
      assert TargetSettled(st, y, z);
    }
  }

  /** A stack entry whose index is at least that of the entry at top sits at or above top. */
  lemma AtOrAbove(st: TarjanState, top: int, k: int)
    requires Numbered(st) && 0 <= top < |st.stack| && 0 <= k < |st.stack|
    requires At(st.index, st.stack[top]) <= At(st.index, st.stack[k])
    ensures top <= k
  {
  }

  /** Ids with an index number at most the capacity, one more when another id has none. */
  lemma CounterBound(n: Net, st: TarjanState, v: int)
    requires Inv(n, st)
    ensures st.counter <= |n.present|
    ensures IsVertex(n, v) && st.index[v] == -1 ==> st.counter < |n.present|
  {
    var all := Flatten(st.comps) + st.stack;
    forall i, j | 0 <= i < j < |all|
      ensures all[i] != all[j]
    {
      if j < |Flatten(st.comps)| {
      } else if i >= |Flatten(st.comps)| {
        assert all[i] == st.stack[i - |Flatten(st.comps)|] && all[j] == st.stack[j - |Flatten(st.comps)|];
      } else {
        assert all[i] in Flatten(st.comps) && all[j] in st.stack;
      }
    }
    assert forall i :: 0 <= i < |all| ==> all[i] in Flatten(st.comps) || all[i] in st.stack;
    if IsVertex(n, v) && st.index[v] == -1 {
      DistinctAppend(all, v);
      DistinctBounded(all + [v], |n.present|);
    } else {
      DistinctBounded(all, |n.present|);
    }
  }

  /**
   * The state of tarjan_dfs(v) while it walks v's records: st is the state
   * it was called with, v sits on the stack just above what st had, its
   * index is st's counter, and everything above it is reachable from v.
   */
  ghost predicate Exploring(n: Net, st: TarjanState, cur: TarjanState, v: int, base: int)
  {
    Inv(n, cur) && Above(cur, base) && IsVertex(n, v) &&
    |cur.stack| > |st.stack| && cur.stack[..|st.stack|] == st.stack && cur.stack[|st.stack|] == v &&
    cur.index[v] == st.counter && cur.counter > st.counter &&
    |st.index| == |n.present| &&
    (forall j :: |st.stack| <= j < |cur.stack| ==> Reachable(n, v, cur.stack[j])) &&
    (forall u :: 0 <= u < |n.present| && st.index[u] != -1 ==> cur.index[u] == st.index[u])
  }

  /**
   * What a call tarjan_dfs(v) made from state st hands back in st': v got
   * st's counter as its index; nothing st had indexed changes index; the
   * stack grows from st's and everything above st's part is reachable
   * from v; v is popped with its component exactly when its lowlink is
   * its index; the stack entries the call leaves behind are finished,
   * with lowlinks at least v's.
   */
  ghost predicate Returned(n: Net, st: TarjanState, st': TarjanState, v: int, base: int)
  {
    Inv(n, st') && Above(st', base) && Sound(n, st') &&
    At(st'.index, v) == st.counter && base <= At(st'.low, v) <= At(st'.index, v) && st'.counter > st.counter &&
    |st'.stack| >= |st.stack| && st'.stack[..|st.stack|] == st.stack &&
    (At(st'.low, v) == At(st'.index, v) ==> st'.stack == st.stack) &&
    (At(st'.low, v) < At(st'.index, v) ==> |st'.stack| > |st.stack| && st'.stack[|st.stack|] == v) &&
    (forall j :: |st.stack| <= j < |st'.stack| ==> Reachable(n, v, st'.stack[j])) &&
    (forall u :: 0 <= u < |st.index| && st.index[u] != -1 ==> At(st'.index, u) == st.index[u]) &&
    Kept(st, st') && LowsKept(st, st') && Finished(n, st', |st.stack|) && MinAbove(st', v, |st.stack|)
  }

  /**
   * The soundness side of tarjan_dfs(v) after its first i records: the
   * state is sound, keeps what st had, the entries above v are finished,
   * v's lowlink bounds theirs, and the first i records are accounted for.
   */
  ghost predicate Progress(n: Net, st: TarjanState, cur: TarjanState, v: int, i: int)
  {
    Sound(n, cur) && Kept(st, cur) && LowsKept(st, cur) &&
    Finished(n, cur, |st.stack| + 1) && MinAbove(cur, v, |st.stack| + 1) && Partial(n, cur, v, i)
  }

  /**
   * tarjan_dfs: give v the next index and lowlink, push it, then walk its
   * records (TarjanRecord). When v's lowlink is still its index, pop the
   * stack down to v as one component.
   */
  method TarjanVisit(n: Net, v: int, st: TarjanState, ghost base: int) returns (st': TarjanState)
    requires WellFormed(n) && Inv(n, st) && Above(st, base) && Sound(n, st)
    requires IsVertex(n, v) && st.index[v] == -1
    ensures Returned(n, st, st', v, base)
    decreases |n.present| - st.counter, 0
  {
    CounterBound(n, st, v);
    var cur := Push(n, st, v, base);
    var i := 0;
    while i < |n.out[v]|
      invariant 0 <= i <= |n.out[v]|
      invariant Exploring(n, st, cur, v, base) && Progress(n, st, cur, v, i)
    {
      cur := TarjanRecord(n, st, cur, v, i, base);
      i := i + 1;
    }
    PartialSettled(n, cur, v);
    if cur.low[v] == cur.index[v] {
      st' := PopComponent(n, cur, v, |st.stack|, base);
      PoppedReturned(n, st, cur, st', v, base);
    } else {
      st' := cur;
      UnpoppedReturned(n, st, cur, v, base);
    }
  }

  /**
   * One record of v in tarjan_dfs: recurse into an unvisited present
   * target and take the smaller lowlink, or take the target's index when
   * it is on the stack; a target already in a component changes nothing.
   */
  method TarjanRecord(n: Net, ghost st: TarjanState, cur: TarjanState, v: int, i: int, ghost base: int)
      returns (next: TarjanState)
    requires WellFormed(n) && Exploring(n, st, cur, v, base) && Progress(n, st, cur, v, i)
    requires 0 <= i < |n.out[v]|
    ensures Exploring(n, st, next, v, base) && Progress(n, st, next, v, i + 1)
    decreases |n.present| - cur.counter, 1
  {
    var to := n.out[v][i].to;
    RecordIsArc(n, v, i);
    next := cur;
    if IsVertex(n, to) {
      if cur.index[to] == -1 {
        CounterBound(n, cur, to);
        var mid := TarjanVisit(n, to, cur, base);
        next := mid;
        if mid.low[to] < mid.low[v] {
          next := mid.(low := mid.low[v := mid.low[to]]);
        }
        ChildDone(n, st, cur, mid, next, v, to, base);
        ChildProgress(n, st, cur, mid, next, v, i, base);
      } else if cur.onStack[to] {
        if cur.index[to] < cur.low[v] {
          next := cur.(low := cur.low[v := cur.index[to]]);
          OnStackDone(n, st, cur, next, v, to, base);
        }
        OnStackProgress(n, st, cur, next, v, i, base);
      } else {
        assert to in Flatten(cur.comps);
      }
    }
  }

  /** The first step of tarjan_dfs: index, lowlink and stack entry for v. */
  method Push(n: Net, st: TarjanState, v: int, ghost base: int) returns (cur: TarjanState)
    requires WellFormed(n) && Inv(n, st) && Above(st, base) && Sound(n, st) && IsVertex(n, v) && st.index[v] == -1
    ensures Exploring(n, st, cur, v, base) && Progress(n, st, cur, v, 0)
    ensures cur.low[v] == cur.index[v]
  {
    cur := TarjanState(st.counter + 1, st.index[v := st.counter], st.low[v := st.counter],
      st.onStack[v := true], st.stack + [v], st.comps);
    assert v !in st.stack && v !in Flatten(st.comps);
    DistinctAppend(st.stack, v);
    assert cur.stack[..|st.stack|] == st.stack;
    ReachableSelf(n, v);
    forall x | x in cur.stack && 0 <= x < |cur.index| && 0 <= x < |cur.low|
      ensures base <= cur.low[x] <= cur.index[x]
    {
      if x != v {
        assert x in st.stack;
      }
    }
    forall j | |st.stack| <= j < |cur.stack|
      ensures Reachable(n, v, cur.stack[j])
    {
      assert j == |st.stack|;
    }
    PushedSound(n, st, cur, v);
  }

  /** Pushing v with the counter as index and lowlink keeps the state sound. */
  lemma PushedSound(n: Net, st: TarjanState, cur: TarjanState, v: int)
    requires Sound(n, st) && IsVertex(n, v) && v !in st.stack && 0 <= st.counter
    requires 0 <= v < |st.index| && 0 <= v < |st.low| && 0 <= v < |st.onStack|
    requires cur == TarjanState(st.counter + 1, st.index[v := st.counter], st.low[v := st.counter],
      st.onStack[v := true], st.stack + [v], st.comps)
    ensures Sound(n, cur) && Kept(st, cur) && LowsKept(st, cur)
  {
    PushedLows(n, st, cur, v);
    PushedNumbered(st, cur, v);
    forall z | z in st.stack
      ensures z in cur.stack && At(cur.index, z) == At(st.index, z) && At(cur.low, z) == At(st.low, z)
    {
      assert z != v;
    }
  }

  /** Pushing v with the counter as its index keeps the index numbers increasing up the stack. */
  lemma PushedNumbered(st: TarjanState, cur: TarjanState, v: int)
    requires Numbered(st) && v !in st.stack && 0 <= st.counter && 0 <= v < |st.index|
    requires cur.stack == st.stack + [v] && cur.index == st.index[v := st.counter] && cur.counter == st.counter + 1
    ensures Numbered(cur)
  {
    forall i, j | 0 <= i < j < |cur.stack|
      ensures At(cur.index, cur.stack[i]) < At(cur.index, cur.stack[j])
    {
      assert cur.stack[i] == st.stack[i] && cur.stack[i] != v;
      if j < |st.stack| {
        assert cur.stack[j] == st.stack[j] && cur.stack[j] != v;
      }
    }
  }

  /** After pushing v every stacked vertex still reaches one whose index is its lowlink. */
  lemma PushedLows(n: Net, st: TarjanState, cur: TarjanState, v: int)
    requires Sound(n, st) && IsVertex(n, v) && v !in st.stack
    requires 0 <= v < |st.index| && 0 <= v < |st.low|
    requires cur.stack == st.stack + [v] && cur.index == st.index[v := st.counter] && cur.low == st.low[v := st.counter]
    ensures forall x :: x in cur.stack ==> LowReach(n, cur, x)
  {
    forall x | x in cur.stack
      ensures LowReach(n, cur, x)
    {
      if x == v {
        ReachableSelf(n, v);
        LowWitness(n, cur, v, v);
      } else {
        assert x in st.stack && LowReach(n, st, x);
        var y :| y in st.stack && At(st.index, y) == At(st.low, x) && Reachable(n, x, y);
        LowWitness(n, cur, x, y);
      }
    }
  }

  /** An accounted arc y -> z stays accounted when nothing is lost and y's lowlink does not grow. */
  lemma TargetKept(st: TarjanState, st': TarjanState, y: int, z: int)
    requires Kept(st, st') && At(st'.low, y) <= At(st.low, y) && TargetSettled(st, y, z)
    ensures TargetSettled(st', y, z)
  {
  }

  /** When all of v's records are accounted for, every arc out of v is. */
  lemma PartialSettled(n: Net, cur: TarjanState, v: int)
    requires WellFormed(n) && IsVertex(n, v) && Partial(n, cur, v, |n.out[v]|)
    ensures Settled(n, cur, v)
  {
    forall z | Arc(n, v, z)
      ensures TargetSettled(cur, v, z)
    {
      var k := ArcHasRecord(n, v, z);
      RecordIsArc(n, v, k);
    }
  }

  /** After recursing into an unvisited target and taking its lowlink the state goes on exploring v. */
  lemma ChildDone(n: Net, st: TarjanState, cur: TarjanState, mid: TarjanState, next: TarjanState, v: int, to: int, base: int)
    requires Exploring(n, st, cur, v, base) && Arc(n, v, to) && IsVertex(n, to) && cur.index[to] == -1
    requires Returned(n, cur, mid, to, base)
    requires next == if mid.low[to] < mid.low[v] then mid.(low := mid.low[v := mid.low[to]]) else mid
    ensures Exploring(n, st, next, v, base)
  {
    assert mid.stack[..|st.stack|] == st.stack by {
      assert mid.stack[..|st.stack|] == mid.stack[..|cur.stack|][..|st.stack|];
    }
    assert mid.stack[|st.stack|] == v by {
      assert mid.stack[..|cur.stack|][|st.stack|] == v;
    }
    assert v in mid.stack;
    ReachableStep(n, v, v, to) by {
      ReachableSelf(n, v);
    }
    forall j | |st.stack| <= j < |mid.stack|
      ensures Reachable(n, v, mid.stack[j])
    {
      if j < |cur.stack| {
        assert mid.stack[j] == mid.stack[..|cur.stack|][j];
      } else {
        ReachableTrans(n, v, to, mid.stack[j]);
      }
    }
    assert mid.index[v] == st.counter;
    if next != mid {
      assert Above(next, base) by {
        forall x | x in next.stack && 0 <= x < |next.index| && 0 <= x < |next.low|
          ensures base <= next.low[x] <= next.index[x]
        {
          if x != v {
            assert next.low[x] == mid.low[x];
          }
        }
      }
    }
  }

  /** After the recursive call on record i's target, the soundness facts extend to record i + 1. */
  lemma ChildProgress(n: Net, st: TarjanState, cur: TarjanState, mid: TarjanState, next: TarjanState, v: int, i: int, base: int)
    requires WellFormed(n) && Exploring(n, st, cur, v, base) && Progress(n, st, cur, v, i)
    requires 0 <= i < |n.out[v]| && IsVertex(n, n.out[v][i].to) && Arc(n, v, n.out[v][i].to)
    requires cur.index[n.out[v][i].to] == -1
    requires Returned(n, cur, mid, n.out[v][i].to, base)
    requires next == if mid.low[n.out[v][i].to] < mid.low[v] then mid.(low := mid.low[v := mid.low[n.out[v][i].to]]) else mid
    ensures Progress(n, st, next, v, i + 1)
  {
    var to := n.out[v][i].to;
    var b := |st.stack|;
    assert v == cur.stack[b] && v == mid.stack[b] by {
      assert mid.stack[..|cur.stack|][b] == v;
    }
    assert v !in st.stack by {
      assert Distinct(cur.stack) && cur.stack[..b] == st.stack;
    }
    assert At(mid.index, v) == At(cur.index, v) && At(mid.low, v) == At(cur.low, v);
    assert At(next.low, v) <= At(mid.low, v) && At(next.low, v) <= At(mid.low, to);
    ChildSound(n, cur, mid, next, v, to);
    ChildFinished(n, st, cur, mid, next, v, to, base);
    forall k | 0 <= k < i + 1 && IsVertex(n, n.out[v][k].to)
      ensures TargetSettled(next, v, n.out[v][k].to)
    {
      if k < i {
        TargetKept(cur, next, v, n.out[v][k].to);
      } else if to !in Flatten(mid.comps) {
        assert to in mid.stack;
      }
    }
    forall u | u in st.stack
      ensures At(next.low, u) == At(st.low, u)
    {
      assert u in cur.stack;
    }
  }

  /** Taking the child's lowlink keeps the state sound. */
  lemma ChildSound(n: Net, cur: TarjanState, mid: TarjanState, next: TarjanState, v: int, to: int)
    requires Sound(n, mid) && Arc(n, v, to) && IsVertex(n, v)
    requires 0 <= v < |mid.low| && 0 <= to < |mid.low|
    requires At(mid.index, to) == cur.counter && At(mid.index, v) < cur.counter && v in mid.stack
    requires At(mid.low, v) <= At(mid.index, v)
    requires At(mid.low, to) < At(mid.index, to) ==> to in mid.stack
    requires Kept(cur, mid)
    requires next == if mid.low[to] < mid.low[v] then mid.(low := mid.low[v := mid.low[to]]) else mid
    ensures Sound(n, next) && Kept(cur, next)
  {
    if next != mid {
      assert to in mid.stack && LowReach(n, mid, to);
      var y :| y in mid.stack && At(mid.index, y) == At(mid.low, to) && Reachable(n, to, y);
      ReachableStep(n, v, v, to) by {
        ReachableSelf(n, v);
      }
      ReachableTrans(n, v, to, y);
      Lowered(n, mid, next, v, y);
    }
  }

  /** Lowering v's lowlink to the index of a stacked vertex v reaches keeps the state sound. */
  lemma Lowered(n: Net, st: TarjanState, next: TarjanState, v: int, y: int)
    requires Sound(n, st) && v in st.stack && 0 <= v < |st.low|
    requires y in st.stack && Reachable(n, v, y)
    requires next == st.(low := st.low[v := At(st.index, y)])
    ensures Sound(n, next)
  {
    forall x | x in next.stack
      ensures LowReach(n, next, x)
    {
      if x == v {
        LowWitness(n, next, v, y);
      } else {
        assert LowReach(n, st, x);
        var z :| z in st.stack && At(st.index, z) == At(st.low, x) && Reachable(n, x, z);
        LowWitness(n, next, x, z);
      }
    }
  }

  /** The entries above v stay finished, with lowlinks at least v's, across the recursive call. */
  lemma ChildFinished(n: Net, st: TarjanState, cur: TarjanState, mid: TarjanState, next: TarjanState, v: int, to: int, base: int)
    requires Finished(n, cur, |st.stack| + 1) && MinAbove(cur, v, |st.stack| + 1) && Distinct(cur.stack)
    requires |cur.stack| > |st.stack| && cur.stack[|st.stack|] == v
    requires Returned(n, cur, mid, to, base)
    requires next == mid.(low := next.low) && |next.low| == |mid.low|
    requires forall u :: u != v ==> At(next.low, u) == At(mid.low, u)
    requires At(next.low, v) <= At(cur.low, v) && At(next.low, v) <= At(mid.low, to)
    ensures Finished(n, next, |st.stack| + 1) && MinAbove(next, v, |st.stack| + 1)
  {
    var b := |st.stack|;
    forall j | 0 <= j < |next.stack| && b + 1 <= j
      ensures At(next.low, next.stack[j]) < At(next.index, next.stack[j]) && Settled(n, next, next.stack[j])
      ensures At(next.low, v) <= At(next.low, next.stack[j])
    {
      var y := next.stack[j];
      if j < |cur.stack| {
        assert y == cur.stack[j] && y != v;
        assert y in mid.stack;
        SettledKept(n, cur, next, y);
      } else {
        assert y != v by {
          assert v == mid.stack[b];
        }
        SettledKept(n, mid, next, y);
      }
    }
  }

  /** Taking an on-stack target's index as v's lowlink keeps the state exploring v. */
  lemma OnStackDone(n: Net, st: TarjanState, cur: TarjanState, next: TarjanState, v: int, to: int, base: int)
    requires Exploring(n, st, cur, v, base) && IsVertex(n, to) && cur.onStack[to] && cur.index[to] < cur.low[v]
    requires next == cur.(low := cur.low[v := cur.index[to]])
    ensures Exploring(n, st, next, v, base)
  {
    assert to in cur.stack;
    assert v in cur.stack;
    forall x | x in next.stack && 0 <= x < |next.index| && 0 <= x < |next.low|
      ensures base <= next.low[x] <= next.index[x]
    {
      if x != v {
        assert next.low[x] == cur.low[x];
      }
    }
  }

  /** Meeting an on-stack target extends the soundness facts to record i + 1. */
  lemma OnStackProgress(n: Net, st: TarjanState, cur: TarjanState, next: TarjanState, v: int, i: int, base: int)
    requires Exploring(n, st, cur, v, base) && Progress(n, st, cur, v, i)
    requires 0 <= i < |n.out[v]| && IsVertex(n, n.out[v][i].to) && Arc(n, v, n.out[v][i].to)
    requires cur.onStack[n.out[v][i].to]
    requires next == if cur.index[n.out[v][i].to] < cur.low[v] then cur.(low := cur.low[v := cur.index[n.out[v][i].to]]) else cur
    ensures Progress(n, st, next, v, i + 1)
  {
    var to := n.out[v][i].to;
    var b := |st.stack|;
    assert to in cur.stack && v in cur.stack;
    assert v !in st.stack by {
      assert Distinct(cur.stack) && cur.stack[..b] == st.stack && cur.stack[b] == v;
    }
    if next != cur {
      ReachableStep(n, v, v, to) by {
        ReachableSelf(n, v);
      }
      Lowered(n, cur, next, v, to);
      LoweredKeeps(n, st, cur, next, v, i);
    }
  }

  /** Lowering v's lowlink keeps everything else Progress says about the first i records. */
  lemma LoweredKeeps(n: Net, st: TarjanState, cur: TarjanState, next: TarjanState, v: int, i: int)
    requires Progress(n, st, cur, v, i) && Distinct(cur.stack)
    requires |cur.stack| > |st.stack| && cur.stack[|st.stack|] == v && cur.stack[..|st.stack|] == st.stack
    requires 0 <= v < |cur.low| == |next.low| && next == cur.(low := cur.low[v := next.low[v]])
    requires At(next.low, v) <= At(cur.low, v)
    ensures Kept(st, next) && LowsKept(st, next) && Finished(n, next, |st.stack| + 1)
    ensures MinAbove(next, v, |st.stack| + 1) && Partial(n, next, v, i)
  {
    var b := |st.stack|;
    forall j | 0 <= j < |next.stack| && b + 1 <= j
      ensures At(next.low, next.stack[j]) < At(next.index, next.stack[j]) && Settled(n, next, next.stack[j])
    {
      assert next.stack[j] != v;
      SettledKept(n, cur, next, next.stack[j]);
    }
    forall k | 0 <= k < i && IsVertex(n, n.out[v][k].to)
      ensures TargetSettled(next, v, n.out[v][k].to)
    {
      TargetKept(cur, next, v, n.out[v][k].to);
    }
    forall u | u in st.stack
      ensures At(next.low, u) == At(st.low, u)
    {
      assert u != v;
    }
  }

  /**
   * The end of tarjan_dfs when v's lowlink is its index: pop the stack down
   * to v (PopLoop) and add the popped vertices to the output as one
   * component.
   */
  method PopComponent(n: Net, cur: TarjanState, v: int, ghost top: int, ghost base: int) returns (st': TarjanState)
    requires Inv(n, cur) && Above(cur, base) && Sound(n, cur)
    requires 0 <= top < |cur.stack| && cur.stack[top] == v
    requires forall j :: top <= j < |cur.stack| ==> Reachable(n, v, cur.stack[j])
    requires Finished(n, cur, top + 1) && MinAbove(cur, v, top + 1) && Settled(n, cur, v)
    requires At(cur.low, v) == At(cur.index, v)
    ensures Inv(n, st') && Above(st', base) && Sound(n, st') && Kept(cur, st')
    ensures st'.stack == cur.stack[..top] && st'.index == cur.index && st'.low == cur.low
    ensures st'.counter == cur.counter
  {
    var stack, onStack, comp := PopLoop(n, cur, v, top);
    st' := cur.(onStack := onStack, stack := stack, comps := cur.comps + [comp]);
    PoppedInv(n, cur, st', comp, top, v, base);
    PoppedSound(n, cur, st', comp, top, v, base);
  }

  /**
   * The popping loop of tarjan_dfs: pop vertices, clearing their on-stack
   * flags and appending them to a new component, until v is popped.
   */
  method PopLoop(n: Net, cur: TarjanState, v: int, ghost top: int)
      returns (stack: seq<int>, onStack: seq<bool>, comp: seq<int>)
    requires Inv(n, cur) && 0 <= top < |cur.stack| && cur.stack[top] == v
    requires forall j :: top <= j < |cur.stack| ==> Reachable(n, v, cur.stack[j])
    ensures stack == cur.stack[..top]
    ensures |onStack| == |n.present| && forall u :: 0 <= u < |n.present| ==> (onStack[u] <==> u in stack)
    ensures Distinct(comp) && comp != [] && Root(comp) == v && |comp| == |cur.stack| - top
    ensures forall x :: x in comp <==> x in cur.stack[top..]
    ensures forall x :: x in comp ==> Reachable(n, v, x)
  {
    stack, onStack, comp := cur.stack, cur.onStack, [];
    while stack != []
      invariant |stack| > top && stack == cur.stack[..|stack|] && |onStack| == |n.present|
      invariant Distinct(comp) && forall x :: x in comp ==> x !in Flatten(cur.comps) && x !in stack
      invariant forall x :: x in comp <==> x in cur.stack[|stack|..]
      invariant |comp| == |cur.stack| - |stack|
      invariant forall u :: 0 <= u < |n.present| ==> (onStack[u] <==> u in stack)
      invariant forall x :: x in comp ==> Reachable(n, v, x)
      decreases |stack|
    {
      var w := stack[|stack| - 1];
      ghost var before := stack;
      stack := stack[..|stack| - 1];
      assert w in before && w in cur.stack;
      assert w !in stack by {
        assert Distinct(cur.stack);
        assert before == cur.stack[..|before|];
      }
      onStack := onStack[w := false];
      assert w !in comp;
      DistinctAppend(comp, w);
      comp := comp + [w];
      assert cur.stack[|stack|..] == [w] + cur.stack[|before|..];
      assert Reachable(n, v, cur.stack[|stack|]);
      assert Distinct(cur.stack) && cur.stack[|stack|] == w;
      if w == v {
        assert |stack| == top;
        return;
      }
      assert |stack| != top;
    }
  }

  /** Moving the stack above top into a new component keeps the state's shape. */
  lemma PoppedInv(n: Net, cur: TarjanState, st': TarjanState, comp: seq<int>, top: int, v: int, base: int)
    requires Inv(n, cur) && Above(cur, base)
    requires 0 <= top < |cur.stack| && cur.stack[top] == v
    requires |st'.onStack| == |n.present| && forall u :: 0 <= u < |n.present| ==> (st'.onStack[u] <==> u in cur.stack[..top])
    requires st' == cur.(onStack := st'.onStack, stack := cur.stack[..top], comps := cur.comps + [comp])
    requires Distinct(comp) && comp != [] && Root(comp) == v && |comp| == |cur.stack| - top
    requires forall x :: x in comp <==> x in cur.stack[top..]
    requires forall x :: x in comp ==> Reachable(n, v, x)
    ensures Inv(n, st') && Above(st', base)
  {
    var rest := cur.stack[..top];
    assert cur.stack == rest + cur.stack[top..];
    DistinctParts(rest, cur.stack[top..]);
    assert Distinct(rest) by {
      forall i, j | 0 <= i < j < |rest|
        ensures rest[i] != rest[j]
      {
        assert rest[i] == cur.stack[i] && rest[j] == cur.stack[j];
      }
    }
    assert Flatten(st'.comps) == Flatten(cur.comps) + comp by {
      assert st'.comps[..|cur.comps|] == cur.comps;
    }
    DistinctConcat(Flatten(cur.comps), comp);
    forall x | x in rest
      ensures x !in Flatten(st'.comps)
    {
      assert x in cur.stack;
    }
    forall x | x in Flatten(st'.comps)
      ensures IsVertex(n, x)
    {
      if x !in Flatten(cur.comps) {
        assert x in cur.stack[top..];
      }
    }
    forall u | 0 <= u < |n.present|
      ensures st'.index[u] != -1 <==> u in Flatten(st'.comps) || u in st'.stack
    {
      if u in cur.stack {
        var j :| 0 <= j < |cur.stack| && cur.stack[j] == u;
        if j < top {
          assert rest[j] == u;
        } else {
          assert cur.stack[top..][j - top] == u;
        }
      }
    }
    assert RootedComponents(n, st'.comps) by {
      forall i | 0 <= i < |st'.comps|
        ensures st'.comps[i] != [] && forall x :: x in st'.comps[i] ==> Reachable(n, Root(st'.comps[i]), x)
      {
        if i < |cur.comps| {
          assert st'.comps[i] == cur.comps[i];
        }
      }
    }
    forall x | x in rest
      ensures x in cur.stack
    {
    }
  }

  /**
   * The entry at position p at or above v, the root, reaches v: its
   * lowlink names a vertex it reaches lower on the stack but not below v.
   */
  lemma {:induction false} ReachDown(n: Net, cur: TarjanState, top: int, v: int, p: int)
    requires Sound(n, cur) && IsVertex(n, v)
    requires 0 <= top <= p < |cur.stack| && cur.stack[top] == v
    requires Finished(n, cur, top + 1) && MinAbove(cur, v, top + 1) && At(cur.low, v) == At(cur.index, v)
    ensures Reachable(n, cur.stack[p], v)
    decreases p
  {
    if p == top {
      ReachableSelf(n, v);
    } else {
      var x := cur.stack[p];
      assert LowReach(n, cur, x);
      var y :| y in cur.stack && At(cur.index, y) == At(cur.low, x) && Reachable(n, x, y);
      var k :| 0 <= k < |cur.stack| && cur.stack[k] == y;
      AtOrAbove(cur, top, k);
      if p <= k {
        AtOrAbove(cur, k, p);
      }
      ReachDown(n, cur, top, v, k);
      ReachableTrans(n, x, y, v);
    }
  }

  /** An arc out of an entry at or above v ends in an emitted component or at or above v. */
  lemma CompClosed(n: Net, cur: TarjanState, top: int, v: int, p: int, z: int)
    requires Numbered(cur) && 0 <= top <= p < |cur.stack| && cur.stack[top] == v
    requires Finished(n, cur, top + 1) && MinAbove(cur, v, top + 1) && Settled(n, cur, v)
    requires At(cur.low, v) == At(cur.index, v) && Arc(n, cur.stack[p], z)
    ensures z in Flatten(cur.comps) || z in cur.stack[top..]
  {
    var x := cur.stack[p];
    assert TargetSettled(cur, x, z);
    if z !in Flatten(cur.comps) {
      var k :| 0 <= k < |cur.stack| && cur.stack[k] == z;
      AtOrAbove(cur, top, k);
      assert cur.stack[top..][k - top] == z;
    }
  }

  /** Emitting the stack above top as a component keeps the state sound and loses nothing. */
  lemma PoppedSound(n: Net, cur: TarjanState, st': TarjanState, comp: seq<int>, top: int, v: int, base: int)
    requires Inv(n, cur) && Above(cur, base) && Sound(n, cur)
    requires 0 <= top < |cur.stack| && cur.stack[top] == v
    requires Finished(n, cur, top + 1) && MinAbove(cur, v, top + 1) && Settled(n, cur, v)
    requires At(cur.low, v) == At(cur.index, v)
    requires st' == cur.(onStack := st'.onStack, stack := cur.stack[..top], comps := cur.comps + [comp])
    requires comp != [] && Root(comp) == v
    requires forall x :: x in comp <==> x in cur.stack[top..]
    ensures Sound(n, st') && Kept(cur, st')
  {
    assert Flatten(st'.comps) == Flatten(cur.comps) + comp by {
      assert st'.comps[..|cur.comps|] == cur.comps;
    }
    PoppedLows(n, cur, st', top, base);
    PoppedClosed(n, cur, st'.comps, comp, top, v);
    PoppedRoots(n, cur, st'.comps, comp, top, v);
    PoppedKept(cur, st', comp, top);
  }

  /** Popping loses nothing: the stack above top moves into the new component. */
  lemma PoppedKept(cur: TarjanState, st': TarjanState, comp: seq<int>, top: int)
    requires 0 <= top < |cur.stack| && st'.stack == cur.stack[..top] && st'.index == cur.index
    requires Flatten(st'.comps) == Flatten(cur.comps) + comp
    requires forall x :: x in comp <==> x in cur.stack[top..]
    ensures Kept(cur, st')
  {
    forall z | z in cur.stack
      ensures z in Flatten(st'.comps) || (z in st'.stack && At(st'.index, z) == At(cur.index, z))
    {
      var p :| 0 <= p < |cur.stack| && cur.stack[p] == z;
      if p < top {
        assert st'.stack[p] == z;
      } else {
        assert cur.stack[top..][p - top] == z;
      }
    }
  }

  /** The entries left below top still reach a vertex, left below top too, whose index is their lowlink. */
  lemma PoppedLows(n: Net, cur: TarjanState, st': TarjanState, top: int, base: int)
    requires Inv(n, cur) && Above(cur, base) && Sound(n, cur) && 0 <= top < |cur.stack|
    requires st'.stack == cur.stack[..top] && st'.index == cur.index && st'.low == cur.low
    ensures forall x :: x in st'.stack ==> LowReach(n, st', x)
  {
    forall x | x in st'.stack
      ensures LowReach(n, st', x)
    {
      var p :| 0 <= p < top && st'.stack[p] == x;
      assert x == cur.stack[p] && x in cur.stack;
      assert LowReach(n, cur, x);
      var y :| y in cur.stack && At(cur.index, y) == At(cur.low, x) && Reachable(n, x, y);
      var k :| 0 <= k < |cur.stack| && cur.stack[k] == y;
      assert k < top;
      assert st'.stack[k] == y;
      LowWitness(n, st', x, y);
    }
  }

  /** With the new component appended, no arc leads from a component to a later one. */
  lemma PoppedClosed(n: Net, cur: TarjanState, comps: seq<seq<int>>, comp: seq<int>, top: int, v: int)
    requires Numbered(cur) && DownClosed(n, cur.comps)
    requires 0 <= top < |cur.stack| && cur.stack[top] == v
    requires Finished(n, cur, top + 1) && MinAbove(cur, v, top + 1) && Settled(n, cur, v)
    requires At(cur.low, v) == At(cur.index, v)
    requires comps == cur.comps + [comp] && Flatten(comps) == Flatten(cur.comps) + comp
    requires forall x :: x in comp <==> x in cur.stack[top..]
    ensures DownClosed(n, comps)
  {
    forall i, x, z | 0 <= i < |comps| && x in comps[i] && Arc(n, x, z)
      ensures z in Flatten(comps[..i + 1])
    {
      if i < |cur.comps| {
        assert comps[..i + 1] == cur.comps[..i + 1];
        assert comps[i] == cur.comps[i];
      } else {
        assert comps[..i + 1] == comps;
        var p :| top <= p < |cur.stack| && cur.stack[p] == x;
        CompClosed(n, cur, top, v, p, z);
      }
    }
  }

  /** With the new component appended, every member of a component reaches its root. */
  lemma PoppedRoots(n: Net, cur: TarjanState, comps: seq<seq<int>>, comp: seq<int>, top: int, v: int)
    requires Sound(n, cur) && IsVertex(n, v)
    requires 0 <= top < |cur.stack| && cur.stack[top] == v
    requires Finished(n, cur, top + 1) && MinAbove(cur, v, top + 1) && At(cur.low, v) == At(cur.index, v)
    requires comps == cur.comps + [comp] && comp != [] && Root(comp) == v
    requires forall x :: x in comp <==> x in cur.stack[top..]
    ensures ReachRoot(n, comps)
  {
    forall i, x | 0 <= i < |comps| && x in comps[i]
      ensures Reachable(n, x, Root(comps[i]))
    {
      if i == |cur.comps| {
        var p :| top <= p < |cur.stack| && cur.stack[p] == x;
        ReachDown(n, cur, top, v, p);
      } else {
        assert comps[i] == cur.comps[i];
      }
    }
  }

  /** A call whose root v was popped returns with the stack it was given. */
  lemma PoppedReturned(n: Net, st: TarjanState, cur: TarjanState, st': TarjanState, v: int, base: int)
    requires Exploring(n, st, cur, v, base) && Progress(n, st, cur, v, 0)
    requires Inv(n, st') && Above(st', base) && Sound(n, st') && Kept(cur, st')
    requires st'.stack == cur.stack[..|st.stack|] && st'.index == cur.index && st'.low == cur.low
    requires st'.counter == cur.counter && At(cur.low, v) == At(cur.index, v)
    ensures Returned(n, st, st', v, base)
  {
    KeptTrans(st, cur, st');
    assert v in cur.stack;
  }

  /** A call whose root v stays on the stack returns with v finished above the stack it was given. */
  lemma UnpoppedReturned(n: Net, st: TarjanState, cur: TarjanState, v: int, base: int)
    requires Exploring(n, st, cur, v, base) && Progress(n, st, cur, v, 0)
    requires Settled(n, cur, v) && At(cur.low, v) != At(cur.index, v)
    ensures Returned(n, st, cur, v, base)
  {
    assert v in cur.stack;
  }

  /** The emitted vertices of one component lie in no other. */
  lemma OnlyOne(cs: seq<seq<int>>, x: int, j: int, k: int)
    requires Distinct(Flatten(cs)) && 0 <= j < |cs| && 0 <= k < |cs| && x in cs[j] && x in cs[k]
    ensures j == k
  {
    if j <= k {
      NotLater(cs, x, j, k);
    } else {
      NotLater(cs, x, k, j);
    }
  }

  /** A vertex of component lo is in no later component hi. */
  lemma NotLater(cs: seq<seq<int>>, x: int, lo: int, hi: int)
    requires Distinct(Flatten(cs)) && 0 <= lo <= hi < |cs| && x in cs[lo] && x in cs[hi]
    ensures lo == hi
  {
    if lo < hi {
      FlattenSnoc(cs, hi);
      FlattenPrefix(cs, hi + 1);
      InEarlier(cs, x, lo, hi);
      DistinctPrefix(Flatten(cs), Flatten(cs[..hi]) + cs[hi]);
      DistinctParts(Flatten(cs[..hi]), cs[hi]);
    }
  }

  /** The first hi + 1 components flatten to the first hi followed by component hi. */
  lemma FlattenSnoc(cs: seq<seq<int>>, hi: int)
    requires 0 <= hi < |cs|
    ensures Flatten(cs[..hi + 1]) == Flatten(cs[..hi]) + cs[hi]
  {
    assert cs[..hi + 1][..hi] == cs[..hi];
  }

  /** A member of component lo lies in the flattening of the components before hi > lo. */
  lemma InEarlier(cs: seq<seq<int>>, x: int, lo: int, hi: int)
    requires 0 <= lo < hi <= |cs| && x in cs[lo]
    ensures x in Flatten(cs[..hi])
  {
    InFlatten(cs[..hi], x);
    assert cs[..hi][lo] == cs[lo];
  }

  /** A prefix of a sequence without repeats has none. */
  lemma DistinctPrefix(s: seq<int>, p: seq<int>)
    requires Distinct(s) && p <= s
    ensures Distinct(p)
  {
    forall a, b | 0 <= a < b < |p|
      ensures p[a] != p[b]
    {
      assert p[a] == s[a] && p[b] == s[b];
    }
  }

  /** The first m components, flattened, begin the flattening of all of them. */
  lemma {:induction false} FlattenPrefix(cs: seq<seq<int>>, m: int)
    requires 0 <= m <= |cs|
    ensures Flatten(cs[..m]) <= Flatten(cs)
    decreases |cs|
  {
    if m == |cs| {
      assert cs[..m] == cs;
    } else {
      var init := cs[..|cs| - 1];
      FlattenPrefix(init, m);
      assert init[..m] == cs[..m];
      assert Flatten(cs) == Flatten(init) + cs[|cs| - 1];
    }
  }

  /** What a vertex in component i reaches lies in components 0..i. */
  lemma ReachStaysBelow(n: Net, cs: seq<seq<int>>, i: int, u: int, w: int)
    requires DownClosed(n, cs) && 0 <= i < |cs| && u in cs[i] && Reachable(n, u, w)
    ensures w in Flatten(cs[..i + 1])
  {
    var below := cs[..i + 1];
    var S := set x | x in Flatten(below);
    forall x, z | x in S && Arc(n, x, z)
      ensures z in S
    {
      InFlatten(below, x);
      var j :| 0 <= j < |below| && x in below[j];
      assert below[j] == cs[j];
      InFlatten(cs[..j + 1], z);
      var k :| 0 <= k < j + 1 && z in cs[..j + 1][k];
      assert below[k] == cs[k] == cs[..j + 1][k];
      InFlatten(below, z);
    }
    InFlatten(below, u);
    assert below[i] == cs[i];
    ClosedHoldsReachable(n, S, u, w);
  }

  /** u and w share a component. */
  ghost predicate SameComponent(cs: seq<seq<int>>, u: int, w: int)
  {
    exists i :: 0 <= i < |cs| && u in cs[i] && w in cs[i]
  }

  /**
   * Components that partition the vertices, whose members reach their
   * root and are reached from it, and from which no arc leads to a later
   * component, are exactly the strongly connected components.
   */
  lemma StrongComponents(n: Net, cs: seq<seq<int>>)
    requires Partition(n, cs) && RootedComponents(n, cs) && DownClosed(n, cs) && ReachRoot(n, cs)
    ensures forall u, w :: SameComponent(cs, u, w) <==>
      IsVertex(n, u) && IsVertex(n, w) && Reachable(n, u, w) && Reachable(n, w, u)
  {
    forall u, w
      ensures SameComponent(cs, u, w) <==>
        IsVertex(n, u) && IsVertex(n, w) && Reachable(n, u, w) && Reachable(n, w, u)
    {
      if SameComponent(cs, u, w) {
        SharedMutual(n, cs, u, w);
      }
      if IsVertex(n, u) && IsVertex(n, w) && Reachable(n, u, w) && Reachable(n, w, u) {
        MutualShared(n, cs, u, w);
      }
    }
  }

  /** Two members of one component reach each other through its root. */
  lemma SharedMutual(n: Net, cs: seq<seq<int>>, u: int, w: int)
    requires Partition(n, cs) && RootedComponents(n, cs) && ReachRoot(n, cs) && SameComponent(cs, u, w)
    ensures IsVertex(n, u) && IsVertex(n, w) && Reachable(n, u, w) && Reachable(n, w, u)
  {
    var i :| 0 <= i < |cs| && u in cs[i] && w in cs[i];
    InFlatten(cs, u);
    InFlatten(cs, w);
    ReachableTrans(n, u, Root(cs[i]), w);
    ReachableTrans(n, w, Root(cs[i]), u);
  }

  /** Vertices that reach each other cannot sit in different components: each would come no later than the other. */
  lemma MutualShared(n: Net, cs: seq<seq<int>>, u: int, w: int)
    requires Partition(n, cs) && DownClosed(n, cs)
    requires IsVertex(n, u) && IsVertex(n, w) && Reachable(n, u, w) && Reachable(n, w, u)
    ensures SameComponent(cs, u, w)
  {
    InFlatten(cs, u);
    InFlatten(cs, w);
    var i :| 0 <= i < |cs| && u in cs[i];
    var j :| 0 <= j < |cs| && w in cs[j];
    ReachStaysBelow(n, cs, i, u, w);
    ReachStaysBelow(n, cs, j, w, u);
    InFlatten(cs[..i + 1], w);
    InFlatten(cs[..j + 1], u);
    var j' :| 0 <= j' < i + 1 && w in cs[..i + 1][j'];
    var i' :| 0 <= i' < j + 1 && u in cs[..j + 1][i'];
    OnlyOne(cs, w, j, j');
    OnlyOne(cs, u, i, i');
    assert w in cs[i];
  }

  /**
   * graph_strongly_connected_components: none for an undirected graph.
   * Otherwise every present id without an index starts a tarjan_dfs, in
   * increasing id order. The components partition the present vertices;
   * two vertices share one exactly when each reaches the other; no arc
   * leads from a component to a later one (reverse topological order);
   * and everything in a component is reachable from its root, the vertex
   * popped last.
   */
  method StronglyConnectedComponents(n: Net) returns (r: Option<seq<seq<int>>>)
    requires WellFormed(n)
    ensures r.None? <==> !n.directed
    ensures r.Some? ==> Partition(n, r.value) && RootedComponents(n, r.value) && DownClosed(n, r.value)
    ensures r.Some? ==> forall u, w :: SameComponent(r.value, u, w) <==>
      IsVertex(n, u) && IsVertex(n, w) && Reachable(n, u, w) && Reachable(n, w, u)
  {
    if !n.directed {
      return None;
    }
    var c := |n.present|;
    var st := TarjanState(0, seq(c, _ => -1), seq(c, _ => -1), seq(c, _ => false), [], []);
    var v := 0;
    while v < c
      invariant 0 <= v <= c && Inv(n, st) && Sound(n, st) && st.stack == []
      invariant forall u :: 0 <= u < v && IsVertex(n, u) ==> st.index[u] != -1
    {
      if IsVertex(n, v) && st.index[v] == -1 {
        var next := TarjanVisit(n, v, st, st.counter);
        assert next.stack == [];
        st := next;
      }
      v := v + 1;
    }
    forall u
      ensures u in Flatten(st.comps) <==> IsVertex(n, u)
    {
      if IsVertex(n, u) {
        assert st.index[u] != -1;
      }
    }
    StrongComponents(n, st.comps);
    r := Some(st.comps);
  }
}
