/**
 * graph_has_cycle of graph_algorithms.c: a colouring depth-first search
 * for directed graphs and a parent-tracking depth-first search for
 * undirected ones. The search state the C code keeps in its colour and
 * visited buffers is threaded through as sequences; the gray path, the
 * finish order, the discovery order and the search-tree parents, which
 * the C code keeps only on its call stack, are ghost.
 */
module CycleSearch {
  import opened ListSpec
  import opened GraphNets
  import opened Orderings

  // ---------------------------------------------------------------------
  // Directed graphs

  /** Every arc from done[i] ends at a vertex listed after it (finished before it). */
  ghost predicate Finished(n: Net, done: seq<int>)
  {
    forall i, t :: 0 <= i < |done| && Arc(n, done[i], t) ==> t in done[i + 1..]
  }

  /**
   * The colours of has_cycle_directed_dfs: every colour is 0, 1 or 2; 1
   * marks exactly the vertices of the gray path being explored and 2
   * exactly the finished ones, most recently finished first.
   */
  ghost predicate Colouring(n: Net, color: seq<int>, gray: seq<int>, done: seq<int>)
  {
    |color| == |n.present| &&
    (forall x :: 0 <= x < |color| ==> 0 <= color[x] <= 2) &&
    (forall x :: 0 <= x < |color| ==> (color[x] == 1 <==> x in gray)) &&
    (forall x :: 0 <= x < |color| ==> (color[x] == 2 <==> x in done)) &&
    (forall x :: x in gray + done ==> IsVertex(n, x)) &&
    Distinct(gray + done) && Finished(n, done) &&
    (gray != [] ==> IsPath(n, gray))
  }

  /** Colouring a white vertex at the end of the gray path gray. */
  lemma EnterGray(n: Net, color: seq<int>, gray: seq<int>, done: seq<int>, v: int)
    requires Colouring(n, color, gray, done) && IsVertex(n, v) && color[v] == 0
    requires gray != [] ==> Arc(n, gray[|gray| - 1], v)
    ensures Colouring(n, color[v := 1], gray + [v], done)
  {
    DistinctParts(gray, done);
    assert Distinct(gray) by {
      forall i, j | 0 <= i < j < |gray| ensures gray[i] != gray[j] {
        assert gray[i] == (gray + done)[i] && gray[j] == (gray + done)[j];
      }
    }
    assert v !in gray && v !in done;
    DistinctAppend(gray, v);
    DistinctConcat(gray + [v], done);
    if gray != [] {
      PathExtend(n, gray, v);
    }
    assert (gray + [v]) + done == gray + [v] + done;
  }

  /** A white vertex leaves room for one more gray or finished vertex. */
  lemma DfsRoom(n: Net, color: seq<int>, gray: seq<int>, done: seq<int>, t: int)
    requires Colouring(n, color, gray, done) && IsVertex(n, t) && color[t] == 0
    ensures |gray| + |done| < |n.present|
  {
    var s := gray + done;
    assert t !in s;
    DistinctAppend(s, t);
    assert forall i :: 0 <= i < |s + [t]| ==> (s + [t])[i] in s + [t];
    DistinctBounded(s + [t], |n.present|);
  }

  /** An arc from the end of the gray path back into it closes a cycle. */
  lemma GrayCycle(n: Net, path: seq<int>, t: int)
    requires IsPath(n, path) && t in path && Arc(n, path[|path| - 1], t)
    ensures DirectedCycle(n)
  {
    var k :| 0 <= k < |path| && path[k] == t;
    PathSlice(n, path, k, |path|);
    var q := path[k..];
    PathExtend(n, q, t);
    assert Cycle(n, q + [t]);
  }

  /** Finishing the last gray vertex v once all its targets are finished. */
  lemma FinishGray(n: Net, color: seq<int>, gray: seq<int>, v: int, done: seq<int>)
    requires WellFormed(n) && IsVertex(n, v) && Colouring(n, color, gray + [v], done)
    requires forall k :: 0 <= k < |n.out[v]| ==> n.out[v][k].to in done
    ensures Colouring(n, color[v := 2], gray, [v] + done)
  {
    FinishOne(n, v, done);
    var done' := [v] + done;
    assert (gray + [v]) + done == gray + done';
    DistinctParts(gray + [v], done);
    assert v !in done;
    assert Distinct(gray) by {
      forall i, j | 0 <= i < j < |gray| ensures gray[i] != gray[j] {
        assert gray[i] == (gray + done')[i] && gray[j] == (gray + done')[j];
      }
    }
    assert v !in gray by {
      forall i | 0 <= i < |gray| ensures gray[i] != v {
        assert gray[i] == (gray + done')[i] && v == (gray + done')[|gray|];
      }
    }
    if gray != [] {
      PathSlice(n, gray + [v], 0, |gray|);
      assert (gray + [v])[0..|gray|] == gray;
    }
  }

  /** Putting v in front of a finish order once all its targets are in it. */
  lemma FinishOne(n: Net, v: int, done: seq<int>)
    requires WellFormed(n) && IsVertex(n, v) && Finished(n, done)
    requires forall k :: 0 <= k < |n.out[v]| ==> n.out[v][k].to in done
    ensures Finished(n, [v] + done)
  {
    TargetsAreArcs(n, v);
    var done' := [v] + done;
    forall i, t | 0 <= i < |done'| && Arc(n, done'[i], t)
      ensures t in done'[i + 1..]
    {
      if i == 0 {
        assert t in Targets(n.out[v]);
        var k :| 0 <= k < |n.out[v]| && Targets(n.out[v])[k] == t;
        assert done'[1..] == done;
      } else {
        assert done'[i] == done[i - 1] && done'[i + 1..] == done[i..];
      }
    }
  }

  /**
   * has_cycle_directed_dfs(v): v turns gray, each target of its records
   * that is gray reports a cycle and each white one is searched in turn;
   * v then turns black. A report means the graph has a cycle; otherwise v
   * and everything finished before are black, and the colouring still
   * describes the gray path and a finish order.
   */
  method DirectedDfs(n: Net, v: int, color: seq<int>, ghost gray: seq<int>, ghost done: seq<int>)
      returns (found: bool, color': seq<int>, ghost done': seq<int>)
    requires WellFormed(n) && Colouring(n, color, gray, done)
    requires IsVertex(n, v) && color[v] == 0
    requires gray != [] ==> Arc(n, gray[|gray| - 1], v)
    ensures found ==> DirectedCycle(n)
    ensures !found ==> Colouring(n, color', gray, done') && v in done'
    ensures !found ==> |done'| > |done| && forall x :: x in done ==> x in done'
    decreases |n.present| - |gray| - |done|
  {
    ghost var path := gray + [v];
    EnterGray(n, color, gray, done, v);
    color' := color[v := 1];
    done' := done;
    var i := 0;
    while i < |n.out[v]|
      invariant 0 <= i <= |n.out[v]|
      invariant Colouring(n, color', path, done') && |done'| >= |done|
      invariant forall x :: x in done ==> x in done'
      invariant forall k :: 0 <= k < i ==> n.out[v][k].to in done'
      decreases |n.out[v]| - i
    {
      var to := n.out[v][i].to;
      RecordIsArc(n, v, i);
      if IsVertex(n, to) {
        if color'[to] == 1 {
          GrayCycle(n, path, to);
          return true, color', done';
        }
        if color'[to] == 0 {
          ghost var before := done';
          DfsRoom(n, color', path, done', to);
          found, color', done' := DirectedDfs(n, to, color', path, done');
          if found {
            return;
          }
          assert forall k :: 0 <= k < i ==> n.out[v][k].to in before;
        } else {
          assert to in done';
        }
      }
      i := i + 1;
    }
    FinishGray(n, color', gray, v, done');
    color' := color'[v := 2];
    done' := [v] + done';
    found := false;
  }

  /** A finish order holding every vertex leaves no cycle: read backwards, every arc goes forward. */
  lemma FinishedAcyclic(n: Net, done: seq<int>)
    requires Distinct(done) && Finished(n, done) && forall v :: IsVertex(n, v) ==> v in done
    ensures !DirectedCycle(n)
  {
    forall i, j | 0 <= i < |done| && 0 <= j < |done| && Arc(n, done[i], done[j])
      ensures i < j
    {
      var rest := done[i + 1..];
      assert done[j] in rest;
      var k :| 0 <= k < |rest| && rest[k] == done[j];
      assert done[i + 1 + k] == done[j];
    }
    ForwardOrderAcyclic(n, done);
  }

  /** The directed half of graph_has_cycle: search from every white vertex in id order. */
  method DirectedHasCycle(n: Net) returns (b: bool)
    requires WellFormed(n)
    ensures b <==> DirectedCycle(n)
  {
    var c := |n.present|;
    var color := seq(c, _ => 0);
    ghost var done: seq<int> := [];
    assert [] + done == done;
    var v := 0;
    while v < c
      invariant 0 <= v <= c && Colouring(n, color, [], done)
      invariant forall x :: 0 <= x < v && IsVertex(n, x) ==> x in done
    {
      if IsVertex(n, v) && color[v] == 0 {
        var found;
        found, color, done := DirectedDfs(n, v, color, [], done);
        if found {
          return true;
        }
      }
      v := v + 1;
    }
    assert [] + done == done;
    FinishedAcyclic(n, done);
    return false;
  }

  // ---------------------------------------------------------------------
  // Undirected graphs

  /** A closed path through at least three distinct vertices. */
  ghost predicate SimpleCycle(n: Net, p: seq<int>)
  {
    Cycle(n, p) && |p| >= 4 && Distinct(p[..|p| - 1])
  }

  /** An undirected graph has a cycle: a self-loop or a simple cycle. */
  ghost predicate UndirectedCycle(n: Net)
  {
    (exists v :: Arc(n, v, v)) || exists p :: SimpleCycle(n, p)
  }

  /**
   * The state of has_cycle_undirected_dfs: visited marks exactly the
   * vertices in seen (discovery order); path is the chain of active calls,
   * each the search-tree child of the one before; every discovered vertex
   * has parent -1 or one discovered before it; and every edge at a
   * finished vertex leads to a discovered vertex and is a tree edge (to
   * its parent or from its child).
   */
  ghost predicate Forest(n: Net, visited: seq<bool>, path: seq<int>, seen: seq<int>, par: seq<int>)
  {
    |visited| == |n.present| && |par| == |n.present| &&
    (forall x :: 0 <= x < |visited| ==> (visited[x] <==> x in seen)) &&
    (forall x :: x in seen ==> IsVertex(n, x)) && Distinct(seen) &&
    (forall x :: x in path ==> x in seen) && Distinct(path) &&
    (forall k :: 0 < k < |path| ==> Arc(n, path[k - 1], path[k]) && par[path[k]] == path[k - 1]) &&
    (forall j :: 0 <= j < |seen| ==> IsVertex(n, seen[j]) && (par[seen[j]] == -1 || par[seen[j]] in seen[..j])) &&
    (forall u, w :: u in seen && u !in path && Arc(n, u, w) ==> w in seen && (w == par[u] || par[w] == u))
  }

  /**
   * One call's effect: seen grows by v first and then by vertices whose
   * parents were discovered in the same call, and older parents stay.
   */
  ghost predicate Extends(n: Net, seen: seq<int>, seen': seq<int>, par: seq<int>, par': seq<int>, v: int, parent: int)
  {
    |par| == |n.present| && |par'| == |n.present| &&
    |seen| < |seen'| && (forall j :: 0 <= j < |seen'| ==> IsVertex(n, seen'[j])) &&
    seen'[..|seen|] == seen && seen'[|seen|] == v && par'[v] == parent &&
    (forall j :: 0 <= j < |seen| ==> par'[seen'[j]] == par[seen'[j]]) &&
    (forall j :: |seen| < j < |seen'| ==> par'[seen'[j]] in seen'[|seen|..j])
  }

  /** Discovering v from the end of path. */
  lemma Discover(n: Net, visited: seq<bool>, path: seq<int>, seen: seq<int>, par: seq<int>, v: int, parent: int)
    requires Forest(n, visited, path, seen, par) && IsVertex(n, v) && !visited[v]
    requires parent == if path == [] then -1 else path[|path| - 1]
    requires path != [] ==> Arc(n, path[|path| - 1], v)
    ensures Forest(n, visited[v := true], path + [v], seen + [v], par[v := parent])
    ensures Extends(n, seen, seen + [v], par, par[v := parent], v, parent)
  {
    var seen', par', path' := seen + [v], par[v := parent], path + [v];
    assert v !in seen;
    DistinctAppend(seen, v);
    DistinctAppend(path, v);
    assert seen'[..|seen|] == seen;
    forall j | 0 <= j < |seen'|
      ensures par'[seen'[j]] == -1 || par'[seen'[j]] in seen'[..j]
    {
      if j < |seen| {
        assert seen'[j] == seen[j] && seen'[..j] == seen[..j];
      }
    }
    forall k | 0 < k < |path'|
      ensures Arc(n, path'[k - 1], path'[k]) && par'[path'[k]] == path'[k - 1]
    {
      if k < |path| {
        assert path'[k] == path[k] && path'[k - 1] == path[k - 1];
      }
    }
  }

  /** Two calls in a row: the effect of the inner one on to folds into the outer one on v. */
  lemma ExtendsTrans(n: Net, seen0: seq<int>, s1: seq<int>, s2: seq<int>,
                     par0: seq<int>, p1: seq<int>, p2: seq<int>, v: int, parent: int, to: int)
    requires Extends(n, seen0, s1, par0, p1, v, parent) && Extends(n, s1, s2, p1, p2, to, v)
    ensures Extends(n, seen0, s2, par0, p2, v, parent)
  {
    assert s2[..|seen0|] == s1[..|seen0|];
    assert s2[|seen0|] == s1[|seen0|];
    forall j | 0 <= j < |seen0|
      ensures p2[s2[j]] == par0[s2[j]]
    {
      assert s2[j] == s1[j];
    }
    forall j | |seen0| < j < |s2|
      ensures p2[s2[j]] in s2[|seen0|..j]
    {
      if j < |s1| {
        assert s2[j] == s1[j] && s1[|seen0|..j] == s2[|seen0|..j];
      } else if j == |s1| {
        assert s2[|seen0|..j][0] == v;
      } else {
        var x := p2[s2[j]];
        var k :| 0 <= k < j - |s1| && s2[|s1|..j][k] == x;
        assert s2[|seen0|..j][|s1| + k - |seen0|] == x;
      }
    }
  }

  /** The vertices discovered by the call on a child of v do not have v as parent. */
  lemma Grandchildren(n: Net, seen0: seq<int>, s1: seq<int>, s2: seq<int>,
                      par0: seq<int>, p1: seq<int>, p2: seq<int>, v: int, parent: int, to: int)
    requires Distinct(s2)
    requires Extends(n, seen0, s1, par0, p1, v, parent) && Extends(n, s1, s2, p1, p2, to, v)
    ensures forall j :: |s1| < j < |s2| ==> p2[s2[j]] != v
  {
    assert s2[|seen0|] == s1[|seen0|] == v;
    forall j | |s1| < j < |s2|
      ensures p2[s2[j]] != v
    {
      var k :| 0 <= k < j - |s1| && s2[|s1|..j][k] == p2[s2[j]];
      assert s2[|s1| + k] != s2[|seen0|];
    }
  }

  /** Records 0..i of v lead to discovered vertices, each by a tree edge in one direction or the other. */
  ghost predicate Scanned(n: Net, v: int, parent: int, i: int, seen: seq<int>, par: seq<int>)
  {
    0 <= v < |n.out| && 0 <= i <= |n.out[v]| &&
    forall k :: 0 <= k < i ==>
      n.out[v][k].to in seen && (n.out[v][k].to == parent || (0 <= n.out[v][k].to < |par| && par[n.out[v][k].to] == v))
  }

  /** Every discovered child of v is the target of one of records 0..i of v. */
  ghost predicate Claimed(n: Net, v: int, i: int, seen: seq<int>, par: seq<int>)
  {
    0 <= v < |n.out| && 0 <= i <= |n.out[v]| &&
    forall w :: w in seen && 0 <= w < |par| && par[w] == v ==> w in Targets(n.out[v][..i])
  }

  /** After the call on the child of record i, records 0..i lead to discovered vertices by tree edges. */
  lemma ChildRecords(n: Net, v: int, parent: int, i: int, s1: seq<int>, s2: seq<int>, p1: seq<int>, p2: seq<int>)
    requires WellFormed(n) && IsVertex(n, v) && 0 <= i < |n.out[v]|
    requires Extends(n, s1, s2, p1, p2, n.out[v][i].to, v)
    requires Scanned(n, v, parent, i, s1, p1)
    ensures Scanned(n, v, parent, i + 1, s2, p2)
  {
    forall w | w in s1
      ensures w in s2 && p2[w] == p1[w]
    {
      var j :| 0 <= j < |s1| && s1[j] == w;
      assert s2[..|s1|][j] == w;
    }
  }

  /** After the call on the child of record i, v's children all come from records 0..i. */
  lemma ChildParents(n: Net, v: int, parent: int, i: int,
                     seen0: seq<int>, s1: seq<int>, s2: seq<int>, par0: seq<int>, p1: seq<int>, p2: seq<int>)
    requires WellFormed(n) && IsVertex(n, v) && 0 <= i < |n.out[v]|
    requires Distinct(s2) && Extends(n, seen0, s1, par0, p1, v, parent)
    requires Extends(n, s1, s2, p1, p2, n.out[v][i].to, v)
    requires Claimed(n, v, i, s1, p1)
    ensures Claimed(n, v, i + 1, s2, p2)
  {
    Grandchildren(n, seen0, s1, s2, par0, p1, p2, v, parent, n.out[v][i].to);
    assert n.out[v][..i + 1] == n.out[v][..i] + [n.out[v][i]];
    TargetsAppend(n.out[v][..i], n.out[v][i]);
    forall w | w in s2 && p2[w] == v
      ensures w in Targets(n.out[v][..i + 1])
    {
      var j :| 0 <= j < |s2| && s2[j] == w;
      if j < |s1| {
        assert s2[..|s1|][j] == w;
        assert p2[s2[j]] == p1[s2[j]];
      }
    }
  }

  /** A record of v to a discovered vertex other than its parent closes a cycle. */
  lemma BackEdge(n: Net, visited: seq<bool>, here: seq<int>, seen: seq<int>, par: seq<int>,
                 v: int, parent: int, to: int, i: int)
    requires WellFormed(n) && !n.directed && Forest(n, visited, here, seen, par)
    requires here != [] && here[|here| - 1] == v && IsVertex(n, v) && par[v] == parent
    requires 0 <= i < |n.out[v]| && n.out[v][i].to == to && to in seen && to != parent
    requires Claimed(n, v, i, seen, par)
    ensures UndirectedCycle(n)
  {
    OnPath(n, visited, here, seen, par, v, parent, to, i);
    RecordIsArc(n, v, i);
    assert IsPath(n, here);
    assert |here| >= 2 ==> here[|here| - 2] == parent;
    ActiveCycle(n, here, v, parent, to);
  }

  /**
   * A record of v to a discovered vertex other than its parent points into
   * the active path: a finished vertex only has tree edges, and the
   * record is neither v's parent nor one of v's children, all of which
   * came from earlier records.
   */
  lemma OnPath(n: Net, visited: seq<bool>, here: seq<int>, seen: seq<int>, par: seq<int>,
               v: int, parent: int, to: int, i: int)
    requires WellFormed(n) && !n.directed && Forest(n, visited, here, seen, par)
    requires IsVertex(n, v) && v in here && par[v] == parent
    requires 0 <= i < |n.out[v]| && n.out[v][i].to == to && to in seen && to != parent
    requires forall w :: w in seen && par[w] == v ==> w in Targets(n.out[v][..i])
    ensures to in here
  {
    RecordIsArc(n, v, i);
    assert UniqueTargets(n.out[v]);
    var before := Targets(n.out[v][..i]);
    forall k | 0 <= k < i
      ensures before[k] != to
    {
      assert before[k] == n.out[v][k].to;
    }
    assert par[to] != v;
    assert Symmetric(n);
    assert EdgeWeight(n, to, v) == EdgeWeight(n, v, to);
    assert Arc(n, to, v);
  }

  /** An arc from the end v of the active path to a vertex on it, not v's parent, is a self-loop or closes a simple cycle. */
  lemma ActiveCycle(n: Net, here: seq<int>, v: int, parent: int, to: int)
    requires IsPath(n, here) && Distinct(here) && here[|here| - 1] == v
    requires |here| >= 2 ==> here[|here| - 2] == parent
    requires Arc(n, v, to) && to in here && to != parent
    ensures UndirectedCycle(n)
  {
    var k :| 0 <= k < |here| && here[k] == to;
    if k == |here| - 1 {
      assert Arc(n, v, v);
    } else {
      assert k < |here| - 2;
      PathSlice(n, here, k, |here|);
      var q := here[k..];
      PathExtend(n, q, to);
      var c := q + [to];
      assert c[..|c| - 1] == q;
      assert Distinct(q) by {
        forall a, b | 0 <= a < b < |q| ensures q[a] != q[b] {
          assert q[a] == here[k + a] && q[b] == here[k + b];
        }
      }
      assert SimpleCycle(n, c);
    }
  }

  /** An unvisited vertex leaves room for one more discovery. */
  lemma SeenRoom(n: Net, visited: seq<bool>, path: seq<int>, seen: seq<int>, par: seq<int>, t: int)
    requires Forest(n, visited, path, seen, par) && IsVertex(n, t) && !visited[t]
    ensures |seen| < |n.present|
  {
    assert t !in seen;
    DistinctAppend(seen, t);
    assert forall i :: 0 <= i < |seen + [t]| ==> (seen + [t])[i] in seen + [t];
    DistinctBounded(seen + [t], |n.present|);
  }

  /** Leaving v once every record of v leads to a discovered vertex by a tree edge. */
  lemma Retire(n: Net, visited: seq<bool>, path: seq<int>, v: int, seen: seq<int>, par: seq<int>, parent: int)
    requires WellFormed(n) && IsVertex(n, v) && Forest(n, visited, path + [v], seen, par) && par[v] == parent
    requires Scanned(n, v, parent, |n.out[v]|, seen, par)
    ensures Forest(n, visited, path, seen, par)
  {
    TargetsAreArcs(n, v);
    var here := path + [v];
    forall u, w | u in seen && u !in path && Arc(n, u, w)
      ensures w in seen && (w == par[u] || par[w] == u)
    {
      if u == v {
        assert w in Targets(n.out[v]);
        var k :| 0 <= k < |n.out[v]| && Targets(n.out[v])[k] == w;
      } else {
        assert u !in here;
      }
    }
    assert Distinct(path) by {
      forall a, b | 0 <= a < b < |path| ensures path[a] != path[b] {
        assert path[a] == here[a] && path[b] == here[b];
      }
    }
    forall k | 0 < k < |path|
      ensures Arc(n, path[k - 1], path[k]) && par[path[k]] == path[k - 1]
    {
      assert path[k] == here[k] && path[k - 1] == here[k - 1];
    }
  }

  /** The targets of a longer prefix of records include those of a shorter one. */
  lemma TargetsGrow(es: seq<Edge>, i: int)
    requires 0 <= i < |es|
    ensures forall w :: w in Targets(es[..i]) ==> w in Targets(es[..i + 1])
  {
    assert es[..i + 1] == es[..i] + [es[i]];
    TargetsAppend(es[..i], es[i]);
  }

  /** Record i of v leads back to v's discovered parent: records 0..i keep leading to tree edges. */
  lemma ParentRecord(n: Net, v: int, parent: int, i: int, seen: seq<int>, par: seq<int>)
    requires WellFormed(n) && IsVertex(n, v) && forall x :: x in seen ==> 0 <= x < |par|
    requires 0 <= i < |n.out[v]| && n.out[v][i].to == parent && parent in seen
    requires Scanned(n, v, parent, i, seen, par) && Claimed(n, v, i, seen, par)
    ensures Scanned(n, v, parent, i + 1, seen, par) && Claimed(n, v, i + 1, seen, par)
  {
    TargetsGrow(n.out[v], i);
  }

  /**
   * has_cycle_undirected_dfs(v, parent): v is marked, and each target of
   * its records is searched when unvisited, or reports a cycle when visited
   * and not parent. A report means the graph has a cycle; otherwise v and
   * the vertices found under it are discovered and every edge at them is a
   * tree edge.
   */
  method UndirectedDfs(n: Net, v: int, parent: int, visited: seq<bool>,
                       ghost path: seq<int>, ghost seen: seq<int>, ghost par: seq<int>)
      returns (found: bool, visited': seq<bool>, ghost seen': seq<int>, ghost par': seq<int>)
    requires WellFormed(n) && !n.directed && Forest(n, visited, path, seen, par)
    requires IsVertex(n, v) && !visited[v]
    requires parent == if path == [] then -1 else path[|path| - 1]
    requires path != [] ==> Arc(n, path[|path| - 1], v)
    ensures found ==> UndirectedCycle(n)
    ensures !found ==> Forest(n, visited', path, seen', par') && Extends(n, seen, seen', par, par', v, parent)
    decreases |n.present| - |seen|
  {
    ghost var here := path + [v];
    Discover(n, visited, path, seen, par, v, parent);
    visited' := visited[v := true];
    seen' := seen + [v];
    par' := par[v := parent];
    var i := 0;
    while i < |n.out[v]|
      invariant 0 <= i <= |n.out[v]|
      invariant Forest(n, visited', here, seen', par') && Extends(n, seen, seen', par, par', v, parent)
      invariant Scanned(n, v, parent, i, seen', par') && Claimed(n, v, i, seen', par')
      decreases |n.out[v]| - i
    {
      var to := n.out[v][i].to;
      RecordIsArc(n, v, i);
      TargetsGrow(n.out[v], i);
      if IsVertex(n, to) {
        if !visited'[to] {
          ghost var s1, p1 := seen', par';
          SeenRoom(n, visited', here, seen', par', to);
          found, visited', seen', par' := UndirectedDfs(n, to, v, visited', here, seen', par');
          if found {
            return;
          }
          ExtendsTrans(n, seen, s1, seen', par, p1, par', v, parent, to);
          ChildRecords(n, v, parent, i, s1, seen', p1, par');
          ChildParents(n, v, parent, i, seen, s1, seen', par, p1, par');
        } else if to != parent {
          BackEdge(n, visited', here, seen', par', v, parent, to, i);
          return true, visited', seen', par';
        } else {
          ParentRecord(n, v, parent, i, seen', par');
        }
      }
      i := i + 1;
    }
    Retire(n, visited', path, v, seen', par', parent);
    found := false;
  }

  /** A discovered vertex is not its own parent. */
  lemma ParentNotSelf(n: Net, visited: seq<bool>, seen: seq<int>, par: seq<int>, j: int)
    requires Forest(n, visited, [], seen, par) && 0 <= j < |seen|
    ensures par[seen[j]] != seen[j]
  {
    forall k | 0 <= k < j
      ensures seen[..j][k] != seen[j]
    {
      assert seen[..j][k] == seen[k];
    }
  }

  /**
   * After the whole search, an edge from seen[t] to a vertex discovered no
   * later is the edge to seen[t]'s parent.
   */
  lemma NeighbourIsParent(n: Net, visited: seq<bool>, seen: seq<int>, par: seq<int>, t: int, y: int)
    requires Forest(n, visited, [], seen, par) && 0 <= t < |seen|
    requires y in seen[..t + 1] && y != seen[t] && Arc(n, seen[t], y)
    ensures y == par[seen[t]]
  {
    var r :| 0 <= r < t + 1 && seen[..t + 1][r] == y;
    assert seen[r] == y && r < t;
    forall k | 0 <= k < r
      ensures seen[..r][k] != seen[t]
    {
      assert seen[..r][k] == seen[k];
    }
    assert par[y] != seen[t];
    assert seen[t] in seen;
  }

  /** Some member of q discovered last: every member of q is among seen[..t + 1]. */
  lemma {:induction false} LastSeen(seen: seq<int>, q: seq<int>) returns (a: int, t: int)
    requires q != [] && forall k :: 0 <= k < |q| ==> q[k] in seen
    ensures 0 <= a < |q| && 0 <= t < |seen| && seen[t] == q[a]
    ensures forall k :: 0 <= k < |q| ==> q[k] in seen[..t + 1]
    decreases |q|
  {
    var y := q[|q| - 1];
    var ty :| 0 <= ty < |seen| && seen[ty] == y;
    if |q| == 1 {
      a, t := 0, ty;
      assert seen[..t + 1][t] == y;
    } else {
      var front := q[..|q| - 1];
      assert forall k :: 0 <= k < |front| ==> front[k] == q[k];
      var a', t' := LastSeen(seen, front);
      if ty > t' {
        a, t := |q| - 1, ty;
      } else {
        a, t := a', t';
      }
      forall k | 0 <= k < |q|
        ensures q[k] in seen[..t + 1]
      {
        if k < |q| - 1 {
          var r :| 0 <= r < t' + 1 && seen[..t' + 1][r] == front[k];
          assert seen[..t + 1][r] == q[k];
        } else {
          assert seen[..t + 1][ty] == y;
        }
      }
    }
  }

  /** The two cycle neighbours of p[a], as positions in p[..|p| - 1]: distinct from each other and from a. */
  lemma CycleNeighbours(n: Net, p: seq<int>, a: int) returns (i: int, j: int)
    requires SimpleCycle(n, p) && 0 <= a < |p| - 1
    ensures 0 <= i < |p| - 1 && 0 <= j < |p| - 1 && i != j && i != a && j != a
    ensures Arc(n, p[i], p[a]) && Arc(n, p[a], p[j])
  {
    var m := |p| - 1;
    i := if a == 0 then m - 1 else a - 1;
    j := if a + 1 < m then a + 1 else 0;
    assert Arc(n, p[a], p[a + 1]);
    if a == 0 {
      assert Arc(n, p[m - 1], p[m]);
    } else {
      assert Arc(n, p[a - 1], p[a]);
    }
  }

  /**
   * When the search has discovered every vertex without a report, the
   * edges all are tree edges and the graph has neither a self-loop nor a
   * simple cycle: the last discovered vertex of a simple cycle would need
   * both of its cycle neighbours to be its one parent.
   */
  lemma ForestAcyclic(n: Net, visited: seq<bool>, seen: seq<int>, par: seq<int>)
    requires WellFormed(n) && !n.directed && Forest(n, visited, [], seen, par)
    requires forall x :: IsVertex(n, x) ==> x in seen
    ensures !UndirectedCycle(n)
  {
    forall v | Arc(n, v, v)
      ensures false
    {
      assert v in seen;
      var j :| 0 <= j < |seen| && seen[j] == v;
      ParentNotSelf(n, visited, seen, par, j);
    }
    forall p | SimpleCycle(n, p)
      ensures false
    {
      var q := p[..|p| - 1];
      forall k | 0 <= k < |q|
        ensures q[k] in seen
      {
        assert q[k] == p[k] && IsVertex(n, p[k]);
      }
      var a, t := LastSeen(seen, q);
      var i, j := CycleNeighbours(n, p, a);
      assert q[a] == p[a] && q[i] == p[i] && q[j] == p[j] && q[i] != q[j];
      assert Symmetric(n);
      assert EdgeWeight(n, p[a], p[i]) == EdgeWeight(n, p[i], p[a]);
      NeighbourIsParent(n, visited, seen, par, t, p[j]);
      NeighbourIsParent(n, visited, seen, par, t, p[i]);
    }
  }

  /** The undirected half of graph_has_cycle: search from every unvisited vertex in id order. */
  method UndirectedHasCycle(n: Net) returns (b: bool)
    requires WellFormed(n) && !n.directed
    ensures b <==> UndirectedCycle(n)
  {
    var c := |n.present|;
    var visited := seq(c, _ => false);
    ghost var seen: seq<int> := [];
    ghost var par := seq(c, _ => -1);
    var v := 0;
    while v < c
      invariant 0 <= v <= c && Forest(n, visited, [], seen, par)
      invariant forall x :: 0 <= x < v && IsVertex(n, x) ==> x in seen
    {
      if IsVertex(n, v) && !visited[v] {
        ghost var s0 := seen;
        var found;
        found, visited, seen, par := UndirectedDfs(n, v, -1, visited, [], seen, par);
        if found {
          return true;
        }
        forall x | x in s0
          ensures x in seen
        {
          var j :| 0 <= j < |s0| && s0[j] == x;
          assert seen[..|s0|][j] == x;
        }
      }
      v := v + 1;
    }
    ForestAcyclic(n, visited, seen, par);
    return false;
  }

  /**
   * graph_has_cycle: the colouring search for a directed graph, the
   * parent-tracking search for an undirected one. It reports exactly the
   * graphs with a cycle: a directed cycle in the first case; a self-loop
   * or a cycle through three or more distinct vertices in the second.
   */
  method HasCycle(n: Net) returns (b: bool)
    requires WellFormed(n)
    ensures n.directed ==> (b <==> DirectedCycle(n))
    ensures !n.directed ==> (b <==> UndirectedCycle(n))
  {
    if n.directed {
      b := DirectedHasCycle(n);
    } else {
      b := UndirectedHasCycle(n);
    }
  }
}
