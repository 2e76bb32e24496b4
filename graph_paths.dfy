/**
 * The shortest-path algorithms of graph_algorithms.c: Dijkstra with a
 * binary min-heap of (vertex, distance) entries and lazy deletion of stale
 * entries, Bellman-Ford with early exit and a negative-cycle check, and
 * Floyd-Warshall over a capacity x capacity table. Distances are exact
 * reals; GRAPH_NO_EDGE (Infinite) marks an unreached entry.
 */
module ShortestPaths {
  import opened Wrappers
  import opened ListSpec
  import opened GraphNets

  /** pq_node: a heap entry. */
  datatype PqNode = PqNode(vertex: int, dist: real)

  /** Every edge weight is at least zero. */
  ghost predicate NonNegative(n: Net)
  {
    forall u, v :: Arc(n, u, v) ==> EdgeWeight(n, u, v).value >= 0.0
  }

  /** Every arc out of the reached vertex u is relaxed in the table. */
  ghost predicate SettledAt(n: Net, dist: seq<Weight>, u: int)
  {
    0 <= u < |dist| && dist[u].Finite? &&
    forall v :: Arc(n, u, v) && 0 <= v < |dist| ==>
      dist[v].Finite? && dist[v].value <= dist[u].value + EdgeWeight(n, u, v).value
  }

  /**
   * The answer both single-source algorithms promise on success: one entry
   * per id, 0 at the start, a weight exactly at the ids reachable from the
   * start, and there the least weight of a path.
   */
  ghost predicate ShortestTable(n: Net, s: int, dist: seq<Weight>)
  {
    |dist| == |n.present| && 0 <= s < |dist| && dist[s] == Finite(0.0) &&
    (forall v :: 0 <= v < |dist| ==> (dist[v].Finite? <==> Reachable(n, s, v))) &&
    forall v :: 0 <= v < |dist| && dist[v].Finite? ==> Shortest(n, s, v, dist[v].value)
  }

  /** The start alone is a path of weight 0. */
  lemma StartWitnessed(n: Net, s: int)
    requires IsVertex(n, s)
    ensures Witnessed(n, s, seq(|n.present|, _ => NoEdge)[s := Finite(0.0)])
  {
    assert Walk(n, s, s, [s]) && PathWeight(n, [s]) == 0.0;
  }

  /**
   * Lowering the entry of v's target to the entry of v plus the weight of
   * the record keeps every reached entry a path weight.
   */
  lemma WitnessedStep(n: Net, s: int, dist: seq<Weight>, v: int, i: int)
    requires WellFormed(n) && |dist| == |n.present| && Witnessed(n, s, dist)
    requires IsVertex(n, v) && dist[v].Finite? && 0 <= i < |n.out[v]|
    ensures IsVertex(n, n.out[v][i].to) && EdgeWeight(n, v, n.out[v][i].to) == Finite(n.out[v][i].weight)
    ensures Witnessed(n, s, dist[n.out[v][i].to := Finite(dist[v].value + n.out[v][i].weight)])
  {
    var e := n.out[v][i];
    RecordIsArc(n, v, i);
    var p :| Walk(n, s, v, p) && PathWeight(n, p) == dist[v].value;
    PathExtend(n, p, e.to);
    assert Walk(n, s, e.to, p + [e.to]);
  }

  /** The arcs out of v are its records: one record per target, with the arc's weight. */
  lemma ArcRecord(n: Net, v: int, w: int) returns (k: int)
    requires WellFormed(n) && Arc(n, v, w)
    ensures 0 <= k < |n.out[v]| && n.out[v][k].to == w && EdgeWeight(n, v, w) == Finite(n.out[v][k].weight)
  {
    k := ArcHasRecord(n, v, w);
    RecordIsArc(n, v, k);
  }

  /** The relaxation test `nd < entry`: any weight is below GRAPH_NO_EDGE. */
  predicate Lowers(nd: real, entry: Weight)
  {
    entry.Infinite? || nd < entry.value
  }

  /** The first i records of u cannot improve the table. */
  ghost predicate RecordsRelaxed(n: Net, dist: seq<Weight>, u: int, i: int)
    requires 0 <= u < |n.out| && 0 <= u < |dist| && dist[u].Finite? && 0 <= i <= |n.out[u]|
  {
    forall k :: 0 <= k < i && 0 <= n.out[u][k].to < |dist| ==>
      !Lowers(dist[u].value + n.out[u][k].weight, dist[n.out[u][k].to])
  }

  /** A reached vertex whose records are all relaxed has all its arcs relaxed. */
  lemma RelaxedAt(n: Net, dist: seq<Weight>, u: int)
    requires WellFormed(n) && IsVertex(n, u) && |dist| == |n.present| && dist[u].Finite?
    requires RecordsRelaxed(n, dist, u, |n.out[u]|)
    ensures SettledAt(n, dist, u)
  {
    forall w | Arc(n, u, w) && 0 <= w < |dist|
      ensures dist[w].Finite? && dist[w].value <= dist[u].value + EdgeWeight(n, u, w).value
    {
      var k := ArcRecord(n, u, w);
    }
  }

  /** Lowering the entry of a target other than u keeps every relaxed record of u relaxed. */
  lemma RecordsRelaxedLower(n: Net, dist: seq<Weight>, u: int, i: int, t: int, nd: real)
    requires 0 <= u < |n.out| && 0 <= u < |dist| && dist[u].Finite? && 0 <= i <= |n.out[u]|
    requires RecordsRelaxed(n, dist, u, i) && 0 <= t < |dist| && t != u && Lowers(nd, dist[t])
    ensures RecordsRelaxed(n, dist[t := Finite(nd)], u, i)
  {
  }

  /** A record that cannot improve the table extends the relaxed prefix by one. */
  lemma RecordsRelaxedNext(n: Net, dist: seq<Weight>, u: int, i: int)
    requires 0 <= u < |n.out| && 0 <= u < |dist| && dist[u].Finite? && 0 <= i < |n.out[u]|
    requires RecordsRelaxed(n, dist, u, i)
    requires 0 <= n.out[u][i].to < |dist| ==> !Lowers(dist[u].value + n.out[u][i].weight, dist[n.out[u][i].to])
    ensures RecordsRelaxed(n, dist, u, i + 1)
  {
  }

  /** The heap's pop: the position of a least-distance entry (the first one). */
  method MinEntry(heap: seq<PqNode>) returns (m: int)
    requires heap != []
    ensures 0 <= m < |heap|
    ensures forall x :: x in heap ==> heap[m].dist <= x.dist
  {
    m := 0;
    var k := 1;
    while k < |heap|
      invariant 0 <= m < |heap| && 1 <= k <= |heap|
      invariant forall j :: 0 <= j < k ==> heap[m].dist <= heap[j].dist
    {
      if heap[k].dist < heap[m].dist {
        m := k;
      }
      k := k + 1;
    }
  }

  /** The table part of Dijkstra's state: sized, 0 at the start, non-negative, every entry a path weight. */
  ghost predicate TableOk(n: Net, s: int, dist: seq<Weight>)
  {
    |dist| == |n.present| && 0 <= s < |dist| && dist[s] == Finite(0.0) &&
    (forall x :: 0 <= x < |dist| && dist[x].Finite? ==> dist[x].value >= 0.0) &&
    Witnessed(n, s, dist)
  }

  /**
   * The heap part: no entry twice, every entry at least the table value of
   * its vertex and at least the last popped distance, and strictly above
   * the table value for a vertex already processed.
   */
  ghost predicate HeapOk(dist: seq<Weight>, heap: seq<PqNode>, done: set<int>, low: real)
  {
    Distinct(heap) &&
    forall e :: e in heap ==>
      0 <= e.vertex < |dist| && dist[e.vertex].Finite? && dist[e.vertex].value <= e.dist && low <= e.dist &&
      (e.vertex in done ==> dist[e.vertex].value < e.dist)
  }

  /** Every reached vertex not yet processed has an entry carrying its table value. */
  ghost predicate PendingOk(dist: seq<Weight>, heap: seq<PqNode>, done: set<int>)
  {
    forall x :: 0 <= x < |dist| && dist[x].Finite? && x !in done ==> PqNode(x, dist[x].value) in heap
  }

  /** Every processed vertex has all its arcs relaxed and a value no larger than low. */
  ghost predicate DoneOk(n: Net, dist: seq<Weight>, done: set<int>, low: real)
  {
    forall x :: x in done ==> SettledAt(n, dist, x) && dist[x].value <= low
  }

  /**
   * Lowering the entry of a record's target keeps the table part of
   * Dijkstra's state, and the target is neither v nor a processed vertex,
   * since weights are non-negative.
   */
  lemma LowerTable(n: Net, s: int, dist: seq<Weight>, v: int, d: real, i: int, done: set<int>)
    requires WellFormed(n) && NonNegative(n) && IsVertex(n, v) && 0 <= i < |n.out[v]|
    requires TableOk(n, s, dist) && dist[v] == Finite(d) && v !in done && DoneOk(n, dist, done, d)
    requires dist[n.out[v][i].to].Infinite? || d + n.out[v][i].weight < dist[n.out[v][i].to].value
    ensures n.out[v][i].to != v && n.out[v][i].to !in done && n.out[v][i].weight >= 0.0
    ensures TableOk(n, s, dist[n.out[v][i].to := Finite(d + n.out[v][i].weight)])
    ensures DoneOk(n, dist[n.out[v][i].to := Finite(d + n.out[v][i].weight)], done, d)
  {
    var t, w := n.out[v][i].to, n.out[v][i].weight;
    WitnessedStep(n, s, dist, v, i);
    assert w >= 0.0;
    DoneLower(n, dist, done, d, t, d + w);
  }

  /** Lowering the entry of an unprocessed vertex keeps the processed part. */
  lemma DoneLower(n: Net, dist: seq<Weight>, done: set<int>, low: real, t: int, nd: real)
    requires DoneOk(n, dist, done, low) && 0 <= t < |dist| && t !in done && Lowers(nd, dist[t])
    ensures DoneOk(n, dist[t := Finite(nd)], done, low)
  {
    forall x | x in done
      ensures SettledAt(n, dist[t := Finite(nd)], x) && dist[t := Finite(nd)][x].value <= low
    {
      assert SettledAt(n, dist, x);
    }
  }

  /**
   * Pushing the lowered entry of a vertex other than v and the processed
   * ones keeps the heap part of Dijkstra's state.
   */
  lemma LowerHeap(dist: seq<Weight>, heap: seq<PqNode>, v: int, d: real, t: int, nd: real, done: set<int>)
    requires 0 <= t < |dist| && t != v && t !in done && d <= nd
    requires dist[t].Infinite? || nd < dist[t].value
    requires HeapOk(dist, heap, done + {v}, d) && PendingOk(dist, heap, done + {v})
    ensures HeapOk(dist[t := Finite(nd)], heap + [PqNode(t, nd)], done + {v}, d)
    ensures PendingOk(dist[t := Finite(nd)], heap + [PqNode(t, nd)], done + {v})
  {
    var dist', heap' := dist[t := Finite(nd)], heap + [PqNode(t, nd)];
    assert PqNode(t, nd) !in heap;
    DistinctAppend(heap, PqNode(t, nd));
    forall e | e in heap'
      ensures 0 <= e.vertex < |dist'| && dist'[e.vertex].Finite? && dist'[e.vertex].value <= e.dist && d <= e.dist &&
        (e.vertex in done + {v} ==> dist'[e.vertex].value < e.dist)
    {
      if e != PqNode(t, nd) {
        assert e in heap;
      }
    }
    forall x | 0 <= x < |dist'| && dist'[x].Finite? && x !in done + {v}
      ensures PqNode(x, dist'[x].value) in heap'
    {
      if x != t {
        assert PqNode(x, dist[x].value) in heap;
      }
    }
  }

  /** Adding a settled vertex whose value is at most low keeps the processed part. */
  lemma DoneAdd(n: Net, dist: seq<Weight>, done: set<int>, v: int, low: real)
    requires DoneOk(n, dist, done, low) && SettledAt(n, dist, v) && dist[v].value <= low
    ensures DoneOk(n, dist, done + {v}, low)
  {
  }

  /**
   * The state of graph_dijkstra's inner loop over the records of a popped
   * vertex v with distance d, after the first i records: Dijkstra's state
   * with v counted in the heap part, and those i records relaxed.
   */
  ghost predicate Relaxing(n: Net, s: int, dist: seq<Weight>, heap: seq<PqNode>, v: int, d: real, done: set<int>, i: int)
  {
    WellFormed(n) && NonNegative(n) && IsVertex(n, v) && 0 <= i <= |n.out[v]| && v !in done &&
    TableOk(n, s, dist) && dist[v] == Finite(d) &&
    HeapOk(dist, heap, done + {v}, d) && PendingOk(dist, heap, done + {v}) && DoneOk(n, dist, done, d) &&
    RecordsRelaxed(n, dist, v, i)
  }

  /** Once every record of v is relaxed, v counts as processed. */
  lemma RelaxDone(n: Net, s: int, dist: seq<Weight>, heap: seq<PqNode>, v: int, d: real, done: set<int>)
    requires 0 <= v < |n.out| && Relaxing(n, s, dist, heap, v, d, done, |n.out[v]|)
    ensures Frontier(n, s, dist, heap, done + {v}, d)
  {
    RelaxedAt(n, dist, v);
    DoneAdd(n, dist, done, v, d);
  }

  /** A record that does not improve its target's entry leaves it relaxed. */
  lemma RelaxKept(n: Net, s: int, dist: seq<Weight>, heap: seq<PqNode>, v: int, d: real, done: set<int>, i: int)
    requires Relaxing(n, s, dist, heap, v, d, done, i) && i < |n.out[v]|
    requires IsVertex(n, n.out[v][i].to) ==>
      dist[n.out[v][i].to].Finite? && d + n.out[v][i].weight >= dist[n.out[v][i].to].value
    ensures Relaxing(n, s, dist, heap, v, d, done, i + 1)
  {
    RecordsRelaxedNext(n, dist, v, i);
  }

  /** A record that improves its target's entry is relaxed once the entry is lowered and pushed. */
  lemma RelaxLowered(n: Net, s: int, dist: seq<Weight>, heap: seq<PqNode>, v: int, d: real, done: set<int>, i: int,
                     dist': seq<Weight>, heap': seq<PqNode>)
    requires Relaxing(n, s, dist, heap, v, d, done, i) && i < |n.out[v]| && IsVertex(n, n.out[v][i].to)
    requires dist[n.out[v][i].to].Infinite? || d + n.out[v][i].weight < dist[n.out[v][i].to].value
    requires dist' == dist[n.out[v][i].to := Finite(d + n.out[v][i].weight)]
    requires heap' == heap + [PqNode(n.out[v][i].to, d + n.out[v][i].weight)]
    ensures Relaxing(n, s, dist', heap', v, d, done, i + 1)
  {
    var t, nd := n.out[v][i].to, d + n.out[v][i].weight;
    LowerTable(n, s, dist, v, d, i, done);
    LowerHeap(dist, heap, v, d, t, nd, done);
    RecordsRelaxedLower(n, dist, v, i, t, nd);
    RecordsRelaxedNext(n, dist', v, i);
    assert dist'[v] == Finite(d);
  }

  /**
   * The body of graph_dijkstra's loop for a popped entry (v, d) that is
   * not stale: each record of v to a present target whose entry d plus the
   * weight improves lowers that entry and pushes it. Afterwards v counts
   * as processed.
   */
  method RelaxFrom(n: Net, ghost s: int, dist: seq<Weight>, heap: seq<PqNode>, v: int, d: real, ghost done: set<int>)
      returns (dist': seq<Weight>, heap': seq<PqNode>)
    requires Relaxing(n, s, dist, heap, v, d, done, 0)
    ensures Frontier(n, s, dist', heap', done + {v}, d)
  {
    dist', heap' := dist, heap;
    var i := 0;
    while i < |n.out[v]|
      invariant Relaxing(n, s, dist', heap', v, d, done, i)
      decreases |n.out[v]| - i
    {
      var e := n.out[v][i];
      var nd := dist'[v].value + e.weight;
      if IsVertex(n, e.to) && Lowers(nd, dist'[e.to]) {
        var lowered, pushed := dist'[e.to := Finite(nd)], heap' + [PqNode(e.to, nd)];
        RelaxLowered(n, s, dist', heap', v, d, done, i, lowered, pushed);
        dist', heap' := lowered, pushed;
      } else {
        RelaxKept(n, s, dist', heap', v, d, done, i);
      }
      i := i + 1;
    }
    RelaxDone(n, s, dist', heap', v, d, done);
  }

  /** Dijkstra's whole state between two pops. */
  ghost predicate Frontier(n: Net, s: int, dist: seq<Weight>, heap: seq<PqNode>, done: set<int>, last: real)
  {
    TableOk(n, s, dist) && HeapOk(dist, heap, done, last) && PendingOk(dist, heap, done) && DoneOk(n, dist, done, last)
  }

  /** Dropping a stale entry keeps the heap and pending parts. */
  lemma PopStale(dist: seq<Weight>, heap: seq<PqNode>, m: int, done: set<int>, last: real)
    requires 0 <= m < |heap| && HeapOk(dist, heap, done, last) && PendingOk(dist, heap, done)
    requires heap[m].dist > dist[heap[m].vertex].value
    ensures HeapOk(dist, RemoveAt(heap, m), done, last) && PendingOk(dist, RemoveAt(heap, m), done)
  {
    DistinctRemove(heap, m);
    assert heap[m] in heap;
  }

  /**
   * Popping a least entry that is not stale: its vertex is not processed
   * yet, and the rest of the heap lies at or above its distance.
   */
  lemma PopFresh(n: Net, s: int, dist: seq<Weight>, heap: seq<PqNode>, m: int, done: set<int>, last: real)
    requires 0 <= m < |heap| && Frontier(n, s, dist, heap, done, last)
    requires forall x :: x in heap ==> heap[m].dist <= x.dist
    requires heap[m].dist <= dist[heap[m].vertex].value
    requires WellFormed(n) && NonNegative(n)
    ensures Relaxing(n, s, dist, RemoveAt(heap, m), heap[m].vertex, heap[m].dist, done, 0)
  {
    var cur := heap[m];
    assert cur in heap;
    DistinctRemove(heap, m);
  }

  /**
   * One round of graph_dijkstra's loop: pop a least entry; skip it when
   * stale, otherwise relax the records of its vertex, which then counts as
   * processed. Either the heap shrinks or one more vertex is processed.
   */
  method DijkstraStep(n: Net, ghost s: int, dist: seq<Weight>, heap: seq<PqNode>, ghost done: set<int>, ghost last: real)
      returns (dist': seq<Weight>, heap': seq<PqNode>, ghost done': set<int>, ghost last': real)
    requires WellFormed(n) && NonNegative(n) && heap != [] && Frontier(n, s, dist, heap, done, last)
    ensures Frontier(n, s, dist', heap', done', last')
    ensures (done' == done && |heap'| < |heap|) || |done| < |done'| <= |n.present|
  {
    var m := MinEntry(heap);
    var v, d := heap[m].vertex, heap[m].dist;
    heap' := RemoveAt(heap, m);
    if d > dist[v].value {
      PopStale(dist, heap, m, done, last);
      dist', done', last' := dist, done, last;
      return;
    }
    PopFresh(n, s, dist, heap, m, done, last);
    SubsetBounded(done + {v}, |dist|);
    dist', heap' := RelaxFrom(n, s, dist, heap', v, d, done);
    done', last' := done + {v}, d;
  }

  /**
   * graph_dijkstra: for an absent start, no table; otherwise, with
   * non-negative weights, the table of shortest path weights. Entries are
   * popped least distance first; an entry larger than the current table
   * value is stale and skipped; every record of a popped vertex to a
   * present target that improves the target's entry lowers it and pushes
   * a new entry.
   */
  method Dijkstra(n: Net, s: int) returns (r: Option<seq<Weight>>)
    requires WellFormed(n) && NonNegative(n)
    ensures r.None? <==> !IsVertex(n, s)
    ensures r.Some? ==> ShortestTable(n, s, r.value)
  {
    if !IsVertex(n, s) {
      return None;
    }
    var dist := seq(|n.present|, _ => NoEdge)[s := Finite(0.0)];
    StartWitnessed(n, s);
    var heap := [PqNode(s, 0.0)];
    ghost var done: set<int> := {};
    ghost var last := 0.0;
    while heap != []
      invariant Frontier(n, s, dist, heap, done, last) && |done| <= |n.present|
      decreases |n.present| - |done|, |heap|
    {
      dist, heap, done, last := DijkstraStep(n, s, dist, heap, done, last);
    }
    forall u, w | Arc(n, u, w) && u < |dist| && w < |dist| && dist[u].Finite?
      ensures dist[w].Finite? && dist[w].value <= dist[u].value + EdgeWeight(n, u, w).value
    {
      assert SettledAt(n, dist, u);
    }
    RelaxedIsShortest(n, s, dist);
    r := Some(dist);
  }

  // ---------------------------------------------------------------------
  // Bellman-Ford

  /**
   * What Bellman-Ford's table keeps: one entry per id, the start reached
   * at weight at most 0, and every reached entry the weight of a path.
   */
  ghost predicate Sound(n: Net, s: int, dist: seq<Weight>)
  {
    |dist| == |n.present| && 0 <= s < |dist| && dist[s].Finite? && dist[s].value <= 0.0 &&
    Witnessed(n, s, dist)
  }

  /**
   * The inner loop of one Bellman-Ford pass for a reached vertex u: every
   * record to a present target that improves the target's entry, read
   * afresh each time, lowers it. The table stays sound; when nothing was
   * lowered, every record of u was already relaxed.
   */
  method RelaxRecords(n: Net, ghost s: int, dist: seq<Weight>, u: int) returns (dist': seq<Weight>, updated: bool)
    requires WellFormed(n) && Sound(n, s, dist) && IsVertex(n, u) && dist[u].Finite?
    ensures Sound(n, s, dist') && dist'[u].Finite?
    ensures NoHigher(dist, dist') && RelaxedInto(n, dist, dist', u)
    ensures !updated ==> dist' == dist && RecordsRelaxed(n, dist, u, |n.out[u]|)
  {
    dist', updated := dist, false;
    var i := 0;
    while i < |n.out[u]|
      invariant 0 <= i <= |n.out[u]|
      invariant Sound(n, s, dist') && dist'[u].Finite?
      invariant NoHigher(dist, dist') && RecordsInto(n, dist, dist', u, i)
      invariant !updated ==> dist' == dist && RecordsRelaxed(n, dist, u, i)
    {
      var e := n.out[u][i];
      if IsVertex(n, e.to) {
        var nd := dist'[u].value + e.weight;
        if Lowers(nd, dist'[e.to]) {
          WitnessedStep(n, s, dist', u, i);
          RecordsIntoLower(n, dist, dist', u, i, nd);
          dist' := dist'[e.to := Finite(nd)];
          updated := true;
        } else {
          RecordsIntoKept(n, dist, dist', u, i);
        }
      } else {
        RecordsIntoKept(n, dist, dist', u, i);
      }
      i := i + 1;
    }
    RecordsIntoDone(n, dist, dist', u);
  }

  /** No entry of b is above the entry of a, and an entry reached in a stays reached. */
  ghost predicate NoHigher(a: seq<Weight>, b: seq<Weight>)
  {
    |a| == |b| &&
    forall v :: 0 <= v < |a| && a[v].Finite? ==> b[v].Finite? && b[v].value <= a[v].value
  }

  /** Every arc out of u, when u is reached in dist, is relaxed against dist in dist'. */
  ghost predicate RelaxedInto(n: Net, dist: seq<Weight>, dist': seq<Weight>, u: int)
  {
    0 <= u < |dist| && dist[u].Finite? ==>
      forall v :: Arc(n, u, v) && 0 <= v < |dist'| ==>
        dist'[v].Finite? && dist'[v].value <= dist[u].value + EdgeWeight(n, u, v).value
  }

  /** The first i records of u, u reached in dist, are relaxed against dist in dist'. */
  ghost predicate RecordsInto(n: Net, dist: seq<Weight>, dist': seq<Weight>, u: int, i: int)
    requires 0 <= u < |n.out| && 0 <= u < |dist| && dist[u].Finite? && 0 <= i <= |n.out[u]|
  {
    forall k :: 0 <= k < i && IsVertex(n, n.out[u][k].to) && n.out[u][k].to < |dist'| ==>
      dist'[n.out[u][k].to].Finite? &&
      dist'[n.out[u][k].to].value <= dist[u].value + n.out[u][k].weight
  }

  /** Lowering the target of record i to the current entry of u plus its weight relaxes record i. */
  lemma RecordsIntoLower(n: Net, dist: seq<Weight>, dist': seq<Weight>, u: int, i: int, nd: real)
    requires WellFormed(n) && IsVertex(n, u) && |dist| == |n.present| && dist[u].Finite? && 0 <= i < |n.out[u]|
    requires NoHigher(dist, dist') && RecordsInto(n, dist, dist', u, i)
    requires IsVertex(n, n.out[u][i].to) && dist'[u].Finite? && nd == dist'[u].value + n.out[u][i].weight
    requires Lowers(nd, dist'[n.out[u][i].to])
    ensures NoHigher(dist, dist'[n.out[u][i].to := Finite(nd)])
    ensures RecordsInto(n, dist, dist'[n.out[u][i].to := Finite(nd)], u, i + 1)
  {
  }

  /** A record whose target is absent, or whose target cannot be lowered, is already relaxed. */
  lemma RecordsIntoKept(n: Net, dist: seq<Weight>, dist': seq<Weight>, u: int, i: int)
    requires WellFormed(n) && IsVertex(n, u) && |dist| == |n.present| && dist[u].Finite? && 0 <= i < |n.out[u]|
    requires NoHigher(dist, dist') && RecordsInto(n, dist, dist', u, i)
    requires IsVertex(n, n.out[u][i].to) ==>
      dist'[u].Finite? && !Lowers(dist'[u].value + n.out[u][i].weight, dist'[n.out[u][i].to])
    ensures RecordsInto(n, dist, dist', u, i + 1)
  {
  }

  /** With every record relaxed, every arc out of u is. */
  lemma RecordsIntoDone(n: Net, dist: seq<Weight>, dist': seq<Weight>, u: int)
    requires WellFormed(n) && IsVertex(n, u) && |dist| == |n.present| && dist[u].Finite?
    requires |dist'| == |dist| && RecordsInto(n, dist, dist', u, |n.out[u]|)
    ensures RelaxedInto(n, dist, dist', u)
  {
    forall v | Arc(n, u, v) && 0 <= v < |dist'|
      ensures dist'[v].Finite? && dist'[v].value <= dist[u].value + EdgeWeight(n, u, v).value
    {
      var k := ArcRecord(n, u, v);
    }
  }

  /** Every reached vertex below `below` has all its arcs relaxed. */
  ghost predicate SettledBelow(n: Net, dist: seq<Weight>, below: int)
  {
    forall u :: 0 <= u < below && IsVertex(n, u) && 0 <= u < |dist| && dist[u].Finite? ==> SettledAt(n, dist, u)
  }

  /** One more id: settled when it is a reached vertex. */
  lemma SettledBelowStep(n: Net, dist: seq<Weight>, below: int)
    requires SettledBelow(n, dist, below)
    requires IsVertex(n, below) && 0 <= below < |dist| && dist[below].Finite? ==> SettledAt(n, dist, below)
    ensures SettledBelow(n, dist, below + 1)
  {
  }

  /** A table settled at every reached vertex is relaxed. */
  lemma SettledRelaxed(n: Net, dist: seq<Weight>)
    requires |dist| == |n.present| && SettledBelow(n, dist, |dist|)
    ensures Relaxed(n, dist)
  {
    forall u, v | Arc(n, u, v) && u < |dist| && v < |dist| && dist[u].Finite?
      ensures dist[v].Finite? && dist[v].value <= dist[u].value + EdgeWeight(n, u, v).value
    {
      assert SettledAt(n, dist, u);
    }
  }

  /**
   * One pass of graph_bellman_ford: the records of every reached vertex,
   * by increasing id. The table stays sound; a pass that lowers nothing
   * leaves a table that is relaxed.
   */
  method Pass(n: Net, ghost s: int, dist: seq<Weight>) returns (dist': seq<Weight>, updated: bool)
    requires WellFormed(n) && Sound(n, s, dist)
    ensures Sound(n, s, dist')
    ensures PassedBelow(n, dist, dist', |dist|)
    ensures !updated ==> dist' == dist && Relaxed(n, dist)
  {
    dist', updated := dist, false;
    var from := 0;
    while from < |n.present|
      invariant 0 <= from <= |n.present|
      invariant Sound(n, s, dist') && PassedBelow(n, dist, dist', from)
      invariant !updated ==> dist' == dist && SettledBelow(n, dist, from)
    {
      if IsVertex(n, from) && dist'[from].Finite? {
        var next, up := RelaxRecords(n, s, dist', from);
        PassedStep(n, dist, dist', next, from);
        if !updated && !up {
          RelaxedAt(n, dist, from);
          SettledBelowStep(n, dist, from);
        }
        dist', updated := next, updated || up;
      } else {
        PassedSkip(n, dist, dist', from);
        if !updated {
          SettledBelowStep(n, dist, from);
        }
      }
      from := from + 1;
    }
    if !updated {
      SettledRelaxed(n, dist);
    }
  }

  /** The table lowered from dist to dist' relaxes against dist every arc out of an id below `below`. */
  ghost predicate PassedBelow(n: Net, dist: seq<Weight>, dist': seq<Weight>, below: int)
  {
    NoHigher(dist, dist') && forall u :: 0 <= u < below ==> RelaxedInto(n, dist, dist', u)
  }

  /** Relaxing the records of `from` in the lowered table extends the pass by one id. */
  lemma PassedStep(n: Net, dist: seq<Weight>, d1: seq<Weight>, d2: seq<Weight>, from: int)
    requires PassedBelow(n, dist, d1, from) && 0 <= from < |dist|
    requires NoHigher(d1, d2) && RelaxedInto(n, d1, d2, from)
    ensures PassedBelow(n, dist, d2, from + 1)
  {
    forall u | 0 <= u < from + 1
      ensures RelaxedInto(n, dist, d2, u)
    {
      if u < from {
        assert RelaxedInto(n, dist, d1, u);
      }
    }
  }

  /** An id that is no vertex, or is not reached, has nothing to relax. */
  lemma PassedSkip(n: Net, dist: seq<Weight>, d1: seq<Weight>, from: int)
    requires PassedBelow(n, dist, d1, from) && 0 <= from < |dist|
    requires !IsVertex(n, from) || d1[from].Infinite?
    ensures PassedBelow(n, dist, d1, from + 1)
  {
  }

  /**
   * Every path from s with at most k arcs ends at a reached id whose entry
   * is at most the path's weight.
   */
  ghost predicate BoundsPaths(n: Net, s: int, dist: seq<Weight>, k: int)
  {
    forall p :: IsPath(n, p) && p[0] == s && |p| <= k + 1 ==>
      0 <= p[|p| - 1] < |dist| && dist[p[|p| - 1]].Finite? && dist[p[|p| - 1]].value <= PathWeight(n, p)
  }

  /** Before the first pass only the start is bounded, by its entry 0. */
  lemma BoundsStart(n: Net, s: int)
    requires IsVertex(n, s)
    ensures BoundsPaths(n, s, seq(|n.present|, _ => NoEdge)[s := Finite(0.0)], 0)
  {
  }

  /** A pass bounds the paths with one arc more. */
  lemma {:induction false} BoundsStep(n: Net, s: int, dist: seq<Weight>, dist': seq<Weight>, k: int)
    requires Sound(n, s, dist) && BoundsPaths(n, s, dist, k) && PassedBelow(n, dist, dist', |dist|)
    ensures BoundsPaths(n, s, dist', k + 1)
  {
    forall p | IsPath(n, p) && p[0] == s && |p| <= k + 2
      ensures 0 <= p[|p| - 1] < |dist'| && dist'[p[|p| - 1]].Finite? && dist'[p[|p| - 1]].value <= PathWeight(n, p)
    {
      if |p| == 1 {
        assert p[|p| - 1] == s;
      } else {
        var q := p[..|p| - 1];
        assert forall i :: 0 <= i < |q| ==> q[i] == p[i];
        assert IsPath(n, q);
        var u, v := p[|p| - 2], p[|p| - 1];
        assert Arc(n, u, v);
        assert RelaxedInto(n, dist, dist', u);
      }
    }
  }

  /** A relaxed sound table bounds every path from s. */
  lemma RelaxedBoundsPaths(n: Net, s: int, dist: seq<Weight>, k: int)
    requires Sound(n, s, dist) && Relaxed(n, dist)
    ensures BoundsPaths(n, s, dist, k)
  {
    forall p | IsPath(n, p) && p[0] == s && |p| <= k + 1
      ensures 0 <= p[|p| - 1] < |dist| && dist[p[|p| - 1]].Finite? && dist[p[|p| - 1]].value <= PathWeight(n, p)
    {
      RelaxedBound(n, dist, p);
    }
  }

  /**
   * After vertex_count - 1 passes, a table with no negative cycle reachable
   * from s is relaxed: a path that extends a reached entry by an arc can be
   * cut down to a repeat-free path, which has at most vertex_count - 1 arcs.
   */
  lemma PassesSettle(n: Net, s: int, dist: seq<Weight>)
    requires WellFormed(n) && Sound(n, s, dist) && BoundsPaths(n, s, dist, n.count - 1)
    ensures !NegativeCycleFrom(n, s) ==> Relaxed(n, dist)
  {
    if !NegativeCycleFrom(n, s) {
      forall u, v | Arc(n, u, v) && u < |dist| && v < |dist| && dist[u].Finite?
        ensures dist[v].Finite? && dist[v].value <= dist[u].value + EdgeWeight(n, u, v).value
      {
        assert WeighedPath(n, s, u, dist[u].value);
        var p :| Walk(n, s, u, p) && PathWeight(n, p) == dist[u].value;
        PathExtend(n, p, v);
        var q := ShortenPath(n, s, p + [v]);
        DistinctPathBounded(n, q);
      }
    }
  }

  /**
   * The negative-cycle check of graph_bellman_ford: it fails exactly when
   * some record of a reached vertex to a present target would still lower
   * the target's entry, that is, exactly when the table is not relaxed.
   */
  method CheckRelaxed(n: Net, dist: seq<Weight>) returns (ok: bool)
    requires WellFormed(n) && |dist| == |n.present|
    ensures ok <==> Relaxed(n, dist)
  {
    var from := 0;
    while from < |n.present|
      invariant 0 <= from <= |n.present|
      invariant forall u :: 0 <= u < from && IsVertex(n, u) && dist[u].Finite? ==> SettledAt(n, dist, u)
    {
      if IsVertex(n, from) && dist[from].Finite? {
        var i := 0;
        while i < |n.out[from]|
          invariant 0 <= i <= |n.out[from]|
          invariant RecordsRelaxed(n, dist, from, i)
        {
          var e := n.out[from][i];
          if IsVertex(n, e.to) && Lowers(dist[from].value + e.weight, dist[e.to]) {
            RecordIsArc(n, from, i);
            return false;
          }
          i := i + 1;
        }
        RelaxedAt(n, dist, from);
      }
      from := from + 1;
    }
    forall u, v | Arc(n, u, v) && u < |dist| && v < |dist| && dist[u].Finite?
      ensures dist[v].Finite? && dist[v].value <= dist[u].value + EdgeWeight(n, u, v).value
    {
      assert SettledAt(n, dist, u);
    }
    return true;
  }

  /**
   * graph_bellman_ford: for an absent start, no table. Otherwise at most
   * vertex_count - 1 passes, stopping after a pass that lowers nothing,
   * then the negative-cycle check. A table it returns holds the shortest
   * path weights, and then no negative cycle is reachable from the start;
   * so with a reachable negative cycle there is no table.
   */
  method BellmanFord(n: Net, s: int) returns (r: Option<seq<Weight>>)
    requires WellFormed(n)
    ensures !IsVertex(n, s) ==> r.None?
    ensures r.Some? ==> ShortestTable(n, s, r.value) && !NegativeCycleFrom(n, s)
    ensures IsVertex(n, s) && NegativeCycleFrom(n, s) ==> r.None?
    ensures IsVertex(n, s) && !NegativeCycleFrom(n, s) ==> r.Some?
  {
    if !IsVertex(n, s) {
      return None;
    }
    var dist := seq(|n.present|, _ => NoEdge)[s := Finite(0.0)];
    StartWitnessed(n, s);
    BoundsStart(n, s);
    var iter := 0;
    while iter < n.count - 1
      invariant Sound(n, s, dist) && BoundsPaths(n, s, dist, iter)
      decreases n.count - 1 - iter
    {
      var next, updated := Pass(n, s, dist);
      BoundsStep(n, s, dist, next, iter);
      dist := next;
      if !updated {
        RelaxedBoundsPaths(n, s, dist, n.count - 1);
        break;
      }
      iter := iter + 1;
    }
    assert BoundsPaths(n, s, dist, n.count - 1);
    PassesSettle(n, s, dist);
    var ok := CheckRelaxed(n, dist);
    if !ok {
      return None;
    }
    RelaxedIsShortest(n, s, dist);
    r := Some(dist);
  }

  // ---------------------------------------------------------------------
  // Floyd-Warshall

  /** Every vertex strictly inside p has an id below k. */
  ghost predicate InnerBelow(p: seq<int>, k: int)
  {
    forall t :: 0 < t < |p| - 1 ==> p[t] < k
  }

  /** Some path from i to j passes only through ids below k on the way. */
  ghost predicate Via(n: Net, i: int, j: int, k: int)
  {
    exists p :: Walk(n, i, j, p) && InnerBelow(p, k)
  }

  /**
   * A path through ids below k + 1 either avoids k, or splits at k into a
   * path to k and a path from k, both through ids below k.
   */
  lemma SplitVia(n: Net, i: int, j: int, k: int)
    requires Via(n, i, j, k + 1)
    ensures Via(n, i, j, k) || (IsVertex(n, k) && Via(n, i, k, k) && Via(n, k, j, k))
  {
    var p :| Walk(n, i, j, p) && InnerBelow(p, k + 1);
    if !InnerBelow(p, k) {
      var a := 1;
      while p[a] != k
        invariant 1 <= a < |p| - 1
        invariant forall t :: 0 < t < a ==> p[t] != k
        invariant exists t :: a <= t < |p| - 1 && p[t] == k
        decreases |p| - a
      {
        a := a + 1;
      }
      var b := |p| - 2;
      while p[b] != k
        invariant a <= b < |p| - 1
        invariant forall t :: b < t < |p| - 1 ==> p[t] != k
        decreases b
      {
        b := b - 1;
      }
      ViaPrefix(n, p, a, k);
      ViaSuffix(n, p, b, k);
    }
  }

  /** The part of a path up to the first inner k passes only through ids below k. */
  lemma ViaPrefix(n: Net, p: seq<int>, a: int, k: int)
    requires IsPath(n, p) && InnerBelow(p, k + 1) && 0 < a < |p| && p[a] == k
    requires forall t :: 0 < t < a ==> p[t] != k
    ensures IsVertex(n, k) && Via(n, p[0], k, k)
  {
    PathSlice(n, p, 0, a + 1);
    var pre := p[0..a + 1];
    forall t | 0 < t < |pre| - 1
      ensures pre[t] < k
    {
      assert pre[t] == p[t];
    }
    assert Walk(n, p[0], k, pre);
  }

  /** The part of a path from the last inner k passes only through ids below k. */
  lemma ViaSuffix(n: Net, p: seq<int>, b: int, k: int)
    requires IsPath(n, p) && InnerBelow(p, k + 1) && 0 <= b < |p| - 1 && p[b] == k
    requires forall t :: b < t < |p| - 1 ==> p[t] != k
    ensures Via(n, k, p[|p| - 1], k)
  {
    PathSlice(n, p, b, |p|);
    var suf := p[b..|p|];
    forall t | 0 < t < |suf| - 1
      ensures suf[t] < k
    {
      assert suf[t] == p[b + t];
    }
    assert Walk(n, k, p[|p| - 1], suf);
  }

  /** The entries of a table buffer, row by row. */
  ghost function Rows(m: array2<Weight>): (t: seq<seq<Weight>>)
    reads m
    ensures |t| == m.Length0
    ensures forall i :: 0 <= i < m.Length0 ==> |t[i]| == m.Length1
    ensures forall i, j :: 0 <= i < m.Length0 && 0 <= j < m.Length1 ==> t[i][j] == m[i, j]
  {
    seq(m.Length0, i requires 0 <= i < m.Length0 reads m =>
      seq(m.Length1, j requires 0 <= j < m.Length1 reads m => m[i, j]))
  }

  /** A square table with one row and one column per id. */
  ghost predicate Square(n: Net, t: seq<seq<Weight>>)
  {
    |t| == |n.present| && forall i :: 0 <= i < |t| ==> |t[i]| == |n.present|
  }

  /**
   * What the table keeps throughout: every reached entry is the weight of
   * a path from its row to its column, and the diagonal of every vertex is
   * reached at weight at most 0.
   */
  ghost predicate PairsSound(n: Net, t: seq<seq<Weight>>)
  {
    Square(n, t) &&
    (forall i, j :: 0 <= i < |t| && 0 <= j < |t[i]| && t[i][j].Finite? ==>
      WeighedPath(n, i, j, t[i][j].value)) &&
    (forall v :: IsVertex(n, v) ==> t[v][v].Finite? && t[v][v].value <= 0.0)
  }

  /** Every pair joined by a path through ids below k is reached. */
  ghost predicate CoversBelow(n: Net, t: seq<seq<Weight>>, k: int)
    requires Square(n, t)
  {
    forall i, j :: 0 <= i < |t| && 0 <= j < |t| && Via(n, i, j, k) ==> t[i][j].Finite?
  }

  /** Entry by entry t1 is at most t0: reached entries stay reached and never rise. */
  ghost predicate Lowered(n: Net, t0: seq<seq<Weight>>, t1: seq<seq<Weight>>)
    requires Square(n, t0) && Square(n, t1)
  {
    forall i, j :: 0 <= i < |t0| && 0 <= j < |t0| && t0[i][j].Finite? ==>
      t1[i][j].Finite? && t1[i][j].value <= t0[i][j].value
  }

  /**
   * Every repeat-free path whose inner vertices have ids below k weighs at
   * least the entry of its pair.
   */
  ghost predicate BoundsBelow(n: Net, t: seq<seq<Weight>>, k: int)
    requires Square(n, t)
  {
    forall i, j, p :: 0 <= i < |t| && 0 <= j < |t| && Walk(n, i, j, p) && Distinct(p) && InnerBelow(p, k) ==>
      t[i][j].Finite? && t[i][j].value <= PathWeight(n, p)
  }

  /** Lowering one entry to the weight of a path keeps the table sound and lowers it. */
  lemma SetSound(n: Net, t: seq<seq<Weight>>, i: int, j: int, w: real)
    requires PairsSound(n, t) && 0 <= i < |t| && 0 <= j < |t| && Lowers(w, t[i][j])
    requires WeighedPath(n, i, j, w)
    ensures PairsSound(n, t[i := t[i][j := Finite(w)]]) && Lowered(n, t, t[i := t[i][j := Finite(w)]])
  {
    var t': seq<seq<Weight>> := t[i := t[i][j := Finite(w)]];
    assert Square(n, t');
    forall u, v | 0 <= u < |t'| && 0 <= v < |t'[u]| && t'[u][v].Finite?
      ensures WeighedPath(n, u, v, t'[u][v].value)
    {
      if u != i || v != j {
        assert t'[u][v] == t[u][v];
      }
    }
    forall v | IsVertex(n, v)
      ensures t'[v][v].Finite? && t'[v][v].value <= 0.0
    {
      assert t[v][v].Finite? && t[v][v].value <= 0.0;
      if v != i || v != j {
        assert t'[v][v] == t[v][v];
      }
    }
    forall u, v | 0 <= u < |t| && 0 <= v < |t| && t[u][v].Finite?
      ensures t'[u][v].Finite? && t'[u][v].value <= t[u][v].value
    {
      if u != i || v != j {
        assert t'[u][v] == t[u][v];
      }
    }
  }

  /** A path with an inner vertex has an inner id of at least 0. */
  lemma ShortWhenNothingInside(n: Net, p: seq<int>)
    requires IsPath(n, p)
    ensures InnerBelow(p, 0) ==> |p| <= 2
  {
    if |p| > 2 {
      assert IsVertex(n, p[1]);
    }
  }

  /** A path through no id below 0 is a single vertex or a single arc. */
  lemma ViaNothing(n: Net, i: int, j: int)
    requires Via(n, i, j, 0)
    ensures (i == j && IsVertex(n, i)) || Arc(n, i, j)
  {
    var p :| Walk(n, i, j, p) && InnerBelow(p, 0);
    ShortWhenNothingInside(n, p);
    if |p| == 2 {
      assert Arc(n, p[0], p[1]);
    }
  }

  /** An arc on its own is a path of its weight. */
  lemma SingleArc(n: Net, u: int, v: int)
    requires Arc(n, u, v)
    ensures Walk(n, u, v, [u, v]) && PathWeight(n, [u, v]) == EdgeWeight(n, u, v).value
  {
    assert [u, v][..1] == [u];
  }

  /** The sum of two reached entries (i, k) and (k, j) is the weight of a path from i to j. */
  lemma JoinWitness(n: Net, t: seq<seq<Weight>>, i: int, k: int, j: int)
    requires PairsSound(n, t) && 0 <= i < |t| && 0 <= k < |t| && 0 <= j < |t|
    requires t[i][k].Finite? && t[k][j].Finite?
    ensures WeighedPath(n, i, j, t[i][k].value + t[k][j].value)
  {
    var p :| Walk(n, i, k, p) && PathWeight(n, p) == t[i][k].value;
    var q :| Walk(n, k, j, q) && PathWeight(n, q) == t[k][j].value;
    PathConcat(n, p, q);
    assert Walk(n, i, j, p + q[1..]);
  }

  /** The entry (i, j) set to the weight of a path from i to j that lowers it. */
  method LowerEntry(ghost n: Net, m: array2<Weight>, i: int, j: int, w: real)
    requires PairsSound(n, Rows(m)) && 0 <= i < m.Length0 && 0 <= j < m.Length1 && Lowers(w, m[i, j])
    requires WeighedPath(n, i, j, w)
    modifies m
    ensures Rows(m) == old(Rows(m))[i := old(Rows(m))[i][j := Finite(w)]]
    ensures PairsSound(n, Rows(m)) && Lowered(n, old(Rows(m)), Rows(m))
  {
    ghost var before := Rows(m);
    SetSound(n, before, i, j, w);
    m[i, j] := Finite(w);
    ghost var after := before[i := before[i][j := Finite(w)]];
    forall u | 0 <= u < m.Length0
      ensures Rows(m)[u] == after[u]
    {
      assert |Rows(m)[u]| == |after[u]|;
    }
    assert Rows(m) == after;
  }

  /**
   * The start of graph_floyd_warshall: a capacity x capacity table of
   * GRAPH_NO_EDGE, 0 on the diagonal of every vertex, then for each record
   * to a present target the record's weight where it lowers the entry.
   */
  method PairsInit(n: Net) returns (m: array2<Weight>)
    requires WellFormed(n)
    ensures fresh(m) && PairsSound(n, Rows(m)) && CoversBelow(n, Rows(m), 0) && BoundsBelow(n, Rows(m), 0)
  {
    var c := |n.present|;
    m := new Weight[c, c]((i, j) => NoEdge);
    var v := 0;
    while v < c
      invariant 0 <= v <= c
      invariant forall i, j :: 0 <= i < c && 0 <= j < c ==>
        m[i, j] == if i == j && i < v && IsVertex(n, i) then Finite(0.0) else NoEdge
    {
      if IsVertex(n, v) {
        m[v, v] := Finite(0.0);
      }
      v := v + 1;
    }
    forall i | IsVertex(n, i)
      ensures WeighedPath(n, i, i, 0.0)
    {
      assert Walk(n, i, i, [i]) && PathWeight(n, [i]) == 0.0;
    }
    var from := 0;
    while from < c
      invariant 0 <= from <= c
      invariant PairsSound(n, Rows(m)) && ArcsIn(n, Rows(m), from)
    {
      ghost var before := Rows(m);
      if IsVertex(n, from) {
        RecordsIntoRow(n, m, from);
      } else {
        LoweredSelf(n, Rows(m));
      }
      ArcsInStep(n, before, Rows(m), from);
      from := from + 1;
    }
    ArcsCover(n, Rows(m));
  }

  /** Every arc out of an id below `below` bounds its entry. */
  ghost predicate ArcsIn(n: Net, t: seq<seq<Weight>>, below: int)
    requires Square(n, t)
  {
    forall u, v :: 0 <= u < below && 0 <= u < |t| && 0 <= v < |t| && Arc(n, u, v) ==>
      t[u][v].Finite? && t[u][v].value <= EdgeWeight(n, u, v).value
  }

  /** Lowering the table and bounding the arcs out of `below` adds `below`. */
  lemma ArcsInStep(n: Net, t0: seq<seq<Weight>>, t1: seq<seq<Weight>>, below: int)
    requires Square(n, t0) && Square(n, t1) && ArcsIn(n, t0, below) && Lowered(n, t0, t1)
    requires 0 <= below < |t1| && IsVertex(n, below) ==>
      forall v :: 0 <= v < |t1| && Arc(n, below, v) ==>
        t1[below][v].Finite? && t1[below][v].value <= EdgeWeight(n, below, v).value
    ensures ArcsIn(n, t1, below + 1)
  {
    forall u, v | 0 <= u < below + 1 && 0 <= u < |t1| && 0 <= v < |t1| && Arc(n, u, v)
      ensures t1[u][v].Finite? && t1[u][v].value <= EdgeWeight(n, u, v).value
    {
      if u < below {
        assert t0[u][v].Finite?;
      }
    }
  }

  /** With every arc bounded, the paths without inner vertices are covered and bounded. */
  lemma ArcsCover(n: Net, t: seq<seq<Weight>>)
    requires PairsSound(n, t) && ArcsIn(n, t, |t|)
    ensures CoversBelow(n, t, 0) && BoundsBelow(n, t, 0)
  {
    forall i, j | 0 <= i < |t| && 0 <= j < |t| && Via(n, i, j, 0)
      ensures t[i][j].Finite?
    {
      ViaNothing(n, i, j);
    }
    forall i, j, p | 0 <= i < |t| && 0 <= j < |t| && Walk(n, i, j, p) && Distinct(p) && InnerBelow(p, 0)
      ensures t[i][j].Finite? && t[i][j].value <= PathWeight(n, p)
    {
      ShortWhenNothingInside(n, p);
      if |p| == 2 {
        assert Arc(n, p[0], p[1]);
        SingleArc(n, i, j);
        assert [i, j] == p;
      }
    }
  }

  /**
   * The state of the record loop of graph_floyd_warshall for vertex
   * `from` after its first i records: the table t is sound, lowered from
   * t0, and the entry of each of those records' targets is at most the
   * record's weight.
   */
  ghost predicate Filling(n: Net, t0: seq<seq<Weight>>, t: seq<seq<Weight>>, from: int, i: int)
  {
    WellFormed(n) && IsVertex(n, from) && 0 <= i <= |n.out[from]| &&
    PairsSound(n, t0) && PairsSound(n, t) && Lowered(n, t0, t) &&
    forall k :: 0 <= k < i && IsVertex(n, n.out[from][k].to) ==>
      t[from][n.out[from][k].to].Finite? && t[from][n.out[from][k].to].value <= n.out[from][k].weight
  }

  /** Record i bounded in a lowered table extends the state by one record. */
  lemma FillingStep(n: Net, t0: seq<seq<Weight>>, t: seq<seq<Weight>>, t': seq<seq<Weight>>, from: int, i: int)
    requires Filling(n, t0, t, from, i) && i < |n.out[from]|
    requires PairsSound(n, t') && Lowered(n, t, t')
    requires IsVertex(n, n.out[from][i].to) ==>
      t'[from][n.out[from][i].to].Finite? && t'[from][n.out[from][i].to].value <= n.out[from][i].weight
    ensures Filling(n, t0, t', from, i + 1)
  {
    LoweredTrans(n, t0, t, t');
    forall k | 0 <= k < i + 1 && IsVertex(n, n.out[from][k].to)
      ensures t'[from][n.out[from][k].to].Finite? && t'[from][n.out[from][k].to].value <= n.out[from][k].weight
    {
      if k < i {
        assert t[from][n.out[from][k].to].Finite?;
      }
    }
  }

  /** At the end of the records, every arc out of `from` bounds its entry. */
  lemma FillingDone(n: Net, t0: seq<seq<Weight>>, t: seq<seq<Weight>>, from: int)
    requires WellFormed(n) && IsVertex(n, from) && Filling(n, t0, t, from, |n.out[from]|)
    ensures forall v :: 0 <= v < |t| && Arc(n, from, v) ==>
      t[from][v].Finite? && t[from][v].value <= EdgeWeight(n, from, v).value
  {
    forall v | 0 <= v < |t| && Arc(n, from, v)
      ensures t[from][v].Finite? && t[from][v].value <= EdgeWeight(n, from, v).value
    {
      var k := ArcRecord(n, from, v);
    }
  }

  /** Lowering is transitive. */
  lemma LoweredTrans(n: Net, t0: seq<seq<Weight>>, t1: seq<seq<Weight>>, t2: seq<seq<Weight>>)
    requires Square(n, t0) && Square(n, t1) && Square(n, t2) && Lowered(n, t0, t1) && Lowered(n, t1, t2)
    ensures Lowered(n, t0, t2)
  {
  }

  /** Every table is lowered from itself. */
  lemma LoweredSelf(n: Net, t: seq<seq<Weight>>)
    requires Square(n, t)
    ensures Lowered(n, t, t)
  {
  }

  /** The records of one vertex written into its row where they lower the entry. */
  method RecordsIntoRow(n: Net, m: array2<Weight>, from: int)
    requires WellFormed(n) && PairsSound(n, Rows(m)) && IsVertex(n, from)
    modifies m
    ensures PairsSound(n, Rows(m)) && Lowered(n, old(Rows(m)), Rows(m))
    ensures forall t :: 0 <= t < m.Length1 && Arc(n, from, t) ==>
      Rows(m)[from][t].Finite? && Rows(m)[from][t].value <= EdgeWeight(n, from, t).value
  {
    var i := 0;
    LoweredSelf(n, Rows(m));
    while i < |n.out[from]|
      invariant Filling(n, old(Rows(m)), Rows(m), from, i)
      decreases |n.out[from]| - i
    {
      var to, w := n.out[from][i].to, n.out[from][i].weight;
      RecordIsArc(n, from, i);
      ghost var before := Rows(m);
      if IsVertex(n, to) && Lowers(w, m[from, to]) {
        SingleArc(n, from, to);
        LowerEntry(n, m, from, to, w);
      } else {
        LoweredSelf(n, Rows(m));
      }
      FillingStep(n, old(Rows(m)), before, Rows(m), from, i);
      i := i + 1;
    }
    FillingDone(n, old(Rows(m)), Rows(m), from);
  }

  /** Both (u, k) and (k, c) are reached in t, between vertices u and c. */
  ghost predicate Joined(n: Net, t: seq<seq<Weight>>, k: int, u: int, c: int)
    requires Square(n, t) && 0 <= k < |t|
  {
    IsVertex(n, u) && IsVertex(n, c) && t[u][k].Finite? && t[k][c].Finite?
  }

  /** The entry (u, c) of t is at most the sum of (u, k) and (k, c) in t0 when those are reached. */
  ghost predicate Through(n: Net, t0: seq<seq<Weight>>, t: seq<seq<Weight>>, k: int, u: int, c: int)
    requires Square(n, t0) && Square(n, t) && 0 <= k < |t0|
  {
    Joined(n, t0, k, u, c) ==> t[u][c].Finite? && t[u][c].value <= t0[u][k].value + t0[k][c].value
  }

  /**
   * The state of row i of round k after its first j columns: the table t
   * is sound and lowered from t0, (i, k) is reached, and every column below
   * j is at most its path through k in t0.
   */
  ghost predicate Joining(n: Net, t0: seq<seq<Weight>>, t: seq<seq<Weight>>, k: int, i: int, j: int)
  {
    PairsSound(n, t0) && PairsSound(n, t) && Lowered(n, t0, t) &&
    0 <= k < |t| && 0 <= i < |t| && 0 <= j <= |t| && t[i][k].Finite? &&
    forall c :: 0 <= c < j ==> Through(n, t0, t, k, i, c)
  }

  /** Column j bounded in a lowered table extends the state by one column. */
  lemma JoiningStep(n: Net, t0: seq<seq<Weight>>, t: seq<seq<Weight>>, t': seq<seq<Weight>>, k: int, i: int, j: int)
    requires Joining(n, t0, t, k, i, j) && j < |t|
    requires PairsSound(n, t') && Lowered(n, t, t')
    requires IsVertex(n, j) && t[k][j].Finite? ==>
      t'[i][j].Finite? && t'[i][j].value <= t[i][k].value + t[k][j].value
    ensures Joining(n, t0, t', k, i, j + 1)
  {
    LoweredTrans(n, t0, t, t');
    assert t'[i][k].Finite?;
    assert t0[i][k].Finite? ==> t[i][k].value <= t0[i][k].value;
    assert t0[k][j].Finite? ==> t[k][j].Finite? && t[k][j].value <= t0[k][j].value;
    ThroughNext(n, t0, t, t', k, i, j);
  }

  /**
   * The column part of JoiningStep: the columns below j stay bounded in the
   * lowered table, and column j is bounded by its own requirement.
   */
  lemma ThroughNext(n: Net, t0: seq<seq<Weight>>, t: seq<seq<Weight>>, t': seq<seq<Weight>>, k: int, i: int, j: int)
    requires Square(n, t0) && Square(n, t) && Square(n, t') && Lowered(n, t, t')
    requires 0 <= k < |t| && 0 <= i < |t| && 0 <= j < |t| && t[i][k].Finite?
    requires forall c :: 0 <= c < j ==> Through(n, t0, t, k, i, c)
    requires t0[i][k].Finite? ==> t[i][k].value <= t0[i][k].value
    requires t0[k][j].Finite? ==> t[k][j].Finite? && t[k][j].value <= t0[k][j].value
    requires IsVertex(n, j) && t[k][j].Finite? ==>
      t'[i][j].Finite? && t'[i][j].value <= t[i][k].value + t[k][j].value
    ensures forall c :: 0 <= c < j + 1 ==> Through(n, t0, t', k, i, c)
  {
    forall c | 0 <= c < j + 1
      ensures Through(n, t0, t', k, i, c)
    {
      if c < j {
        assert Through(n, t0, t, k, i, c);
        assert t[i][c].Finite? ==> t'[i][c].Finite? && t'[i][c].value <= t[i][c].value;
      }
    }
  }

  /**
   * Row i of round k: for each present j whose entry (k, j) is reached,
   * the entry (i, k) plus (k, j), read afresh, replaces (i, j) where it is
   * lower. The table stays sound and only lowers, and afterwards every
   * (i, j) is at most (i, k) plus (k, j) as they were before the row.
   */
  method PairsRow(n: Net, m: array2<Weight>, k: int, i: int)
    requires PairsSound(n, Rows(m)) && IsVertex(n, k) && IsVertex(n, i) && m[i, k].Finite?
    modifies m
    ensures PairsSound(n, Rows(m)) && Lowered(n, old(Rows(m)), Rows(m))
    ensures forall c :: 0 <= c < m.Length1 ==> Through(n, old(Rows(m)), Rows(m), k, i, c)
  {
    LoweredSelf(n, Rows(m));
    var j := 0;
    while j < m.Length1
      invariant Joining(n, old(Rows(m)), Rows(m), k, i, j)
      decreases m.Length1 - j
    {
      ghost var before := Rows(m);
      if IsVertex(n, j) && m[k, j].Finite? {
        var nd := m[i, k].value + m[k, j].value;
        if Lowers(nd, m[i, j]) {
          JoinWitness(n, Rows(m), i, k, j);
          LowerEntry(n, m, i, j, nd);
        } else {
          LoweredSelf(n, Rows(m));
        }
      } else {
        LoweredSelf(n, Rows(m));
      }
      JoiningStep(n, old(Rows(m)), before, Rows(m), k, i, j);
      j := j + 1;
    }
  }

  /**
   * The state of round k after its first i rows: the table t is sound and
   * lowered from t0, which covered and bounded every pair through ids below
   * k, and every row below i is at most its paths through k in t0.
   */
  ghost predicate Rounding(n: Net, t0: seq<seq<Weight>>, t: seq<seq<Weight>>, k: int, i: int)
  {
    PairsSound(n, t0) && PairsSound(n, t) && CoversBelow(n, t0, k) && BoundsBelow(n, t0, k) &&
    Lowered(n, t0, t) && 0 <= k < |t| && 0 <= i <= |t| &&
    forall u, c :: 0 <= u < i && 0 <= c < |t| ==> Through(n, t0, t, k, u, c)
  }

  /** Row i handled by PairsRow, or skipped, extends the state by one row. */
  lemma RoundingStep(n: Net, t0: seq<seq<Weight>>, t: seq<seq<Weight>>, t': seq<seq<Weight>>, k: int, i: int)
    requires Rounding(n, t0, t, k, i) && i < |t|
    requires PairsSound(n, t') && Lowered(n, t, t')
    requires IsVertex(n, i) && t[i][k].Finite? ==> forall c :: 0 <= c < |t| ==> Through(n, t, t', k, i, c)
    ensures Rounding(n, t0, t', k, i + 1)
  {
    LoweredTrans(n, t0, t, t');
    forall u, c | 0 <= u < i + 1 && 0 <= c < |t'|
      ensures Through(n, t0, t', k, u, c)
    {
      if u < i {
        assert Through(n, t0, t, k, u, c);
      } else if Joined(n, t0, k, u, c) {
        assert t[u][k].Finite? && t[k][c].Finite?;
        assert Through(n, t, t', k, u, c);
      }
    }
  }

  /**
   * A repeat-free path whose inner ids are below k + 1 but not all below k
   * passes k once, and splits there into two repeat-free paths through
   * ids below k whose weights add up to its own.
   */
  lemma SplitDistinct(n: Net, p: seq<int>, k: int) returns (a: int)
    requires IsPath(n, p) && Distinct(p) && InnerBelow(p, k + 1) && !InnerBelow(p, k)
    ensures 0 < a < |p| - 1 && p[a] == k
    ensures Walk(n, p[0], k, p[..a + 1]) && Distinct(p[..a + 1]) && InnerBelow(p[..a + 1], k)
    ensures Walk(n, k, p[|p| - 1], p[a..]) && Distinct(p[a..]) && InnerBelow(p[a..], k)
    ensures PathWeight(n, p) == PathWeight(n, p[..a + 1]) + PathWeight(n, p[a..])
  {
    a :| 0 < a < |p| - 1 && p[a] >= k;
    PathSlice(n, p, 0, a + 1);
    PathSlice(n, p, a, |p|);
    SliceDistinctBelow(p, 0, a + 1, a, k);
    SliceDistinctBelow(p, a, |p|, a, k);
    assert p[..a + 1] == p[0..a + 1];
    assert p[a..] == p[a..|p|];
    PathConcat(n, p[..a + 1], p[a..]);
    assert p[..a + 1] + p[a..][1..] == p;
  }

  /**
   * A slice of a repeat-free sequence whose inner ids are below k + 1,
   * cut at an entry at least k, is repeat-free with inner ids below k.
   */
  lemma SliceDistinctBelow(p: seq<int>, lo: int, hi: int, a: int, k: int)
    requires Distinct(p) && InnerBelow(p, k + 1) && 0 <= lo < hi <= |p| && (a == lo || a == hi - 1) && p[a] >= k
    requires 0 < a < |p| - 1
    ensures Distinct(p[lo..hi]) && InnerBelow(p[lo..hi], k)
  {
    var q := p[lo..hi];
    forall x, y | 0 <= x < y < |q|
      ensures q[x] != q[y]
    {
      assert q[x] == p[lo + x] && q[y] == p[lo + y];
    }
    forall x | 0 < x < |q| - 1
      ensures q[x] < k
    {
      assert q[x] == p[lo + x] && lo + x != a;
      assert p[lo + x] != p[a];
    }
  }

  /** After every row, each pair through ids below k + 1 is reached and bounded. */
  lemma RoundingDone(n: Net, t0: seq<seq<Weight>>, t: seq<seq<Weight>>, k: int)
    requires Rounding(n, t0, t, k, |t|)
    ensures PairsSound(n, t) && CoversBelow(n, t, k + 1) && BoundsBelow(n, t, k + 1)
  {
    forall i, j | 0 <= i < |t| && 0 <= j < |t| && Via(n, i, j, k + 1)
      ensures t[i][j].Finite?
    {
      SplitVia(n, i, j, k);
      if Via(n, i, j, k) {
        assert t0[i][j].Finite?;
      } else {
        ViaEnds(n, i, k, k);
        ViaEnds(n, k, j, k);
        assert t0[i][k].Finite? && t0[k][j].Finite?;
        assert Through(n, t0, t, k, i, j);
      }
    }
    forall i, j, p | 0 <= i < |t| && 0 <= j < |t| && Walk(n, i, j, p) && Distinct(p) && InnerBelow(p, k + 1)
      ensures t[i][j].Finite? && t[i][j].value <= PathWeight(n, p)
    {
      if InnerBelow(p, k) {
        assert t0[i][j].Finite? && t0[i][j].value <= PathWeight(n, p);
      } else {
        var a := SplitDistinct(n, p, k);
        assert t0[i][k].Finite? && t0[i][k].value <= PathWeight(n, p[..a + 1]);
        assert t0[k][j].Finite? && t0[k][j].value <= PathWeight(n, p[a..]);
        assert IsVertex(n, i) && IsVertex(n, j);
        assert Through(n, t0, t, k, i, j);
      }
    }
  }

  /** A path through ids below k starts and ends at vertices. */
  lemma ViaEnds(n: Net, i: int, j: int, k: int)
    requires Via(n, i, j, k)
    ensures IsVertex(n, i) && IsVertex(n, j)
  {
    var p :| Walk(n, i, j, p) && InnerBelow(p, k);
    assert p[0] == i && p[|p| - 1] == j;
  }

  /** An id that is no vertex lies inside no path, so passing through it changes nothing. */
  lemma AbsentRound(n: Net, t: seq<seq<Weight>>, k: int)
    requires Square(n, t) && CoversBelow(n, t, k) && BoundsBelow(n, t, k) && !IsVertex(n, k)
    ensures CoversBelow(n, t, k + 1) && BoundsBelow(n, t, k + 1)
  {
    forall i, j | 0 <= i < |t| && 0 <= j < |t| && Via(n, i, j, k + 1)
      ensures t[i][j].Finite?
    {
      SplitVia(n, i, j, k);
    }
    forall i, j, p | 0 <= i < |t| && 0 <= j < |t| && Walk(n, i, j, p) && Distinct(p) && InnerBelow(p, k + 1)
      ensures t[i][j].Finite? && t[i][j].value <= PathWeight(n, p)
    {
      assert InnerBelow(p, k) by {
        forall x | 0 < x < |p| - 1
          ensures p[x] < k
        {
          assert IsVertex(n, p[x]);
        }
      }
    }
  }

  /**
   * Round k of graph_floyd_warshall, skipped when k is not present: every
   * present row i whose entry (i, k) is reached. Afterwards every pair
   * joined through ids below k + 1 is reached, and bounded by each such
   * repeat-free path.
   */
  method PairsRound(n: Net, m: array2<Weight>, k: int)
    requires WellFormed(n) && PairsSound(n, Rows(m)) && 0 <= k < m.Length0
    requires CoversBelow(n, Rows(m), k) && BoundsBelow(n, Rows(m), k)
    modifies m
    ensures PairsSound(n, Rows(m)) && CoversBelow(n, Rows(m), k + 1) && BoundsBelow(n, Rows(m), k + 1)
  {
    LoweredSelf(n, Rows(m));
    if IsVertex(n, k) {
      var i := 0;
      while i < m.Length0
        invariant Rounding(n, old(Rows(m)), Rows(m), k, i)
        decreases m.Length0 - i
      {
        ghost var before := Rows(m);
        if IsVertex(n, i) && m[i, k].Finite? {
          PairsRow(n, m, k, i);
        } else {
          LoweredSelf(n, Rows(m));
        }
        RoundingStep(n, old(Rows(m)), before, Rows(m), k, i);
        i := i + 1;
      }
      RoundingDone(n, old(Rows(m)), Rows(m), k);
    } else {
      AbsentRound(n, Rows(m), k);
    }
  }

  /** No vertex reaches a closed path of negative weight. */
  ghost predicate NoNegativeCycle(n: Net)
  {
    forall v :: IsVertex(n, v) ==> !NegativeCycleFrom(n, v)
  }

  /**
   * What graph_floyd_warshall returns, as a table of rows: entry (i, j) is
   * reached exactly when j is reachable from i, and is then the weight of
   * a path from i to j and at most the weight of every repeat-free one.
   * Without negative cycles it is at most the weight of every path, and
   * the diagonal of every vertex is 0; a negative diagonal entry exposes a
   * negative cycle.
   */
  ghost predicate AllPairsTable(n: Net, t: seq<seq<Weight>>)
  {
    Square(n, t) &&
    (forall i, j :: 0 <= i < |t| && 0 <= j < |t| ==> (t[i][j].Finite? <==> Reachable(n, i, j))) &&
    (forall i, j :: 0 <= i < |t| && 0 <= j < |t| && t[i][j].Finite? ==> WeighedPath(n, i, j, t[i][j].value)) &&
    (forall i, j, p :: 0 <= i < |t| && 0 <= j < |t| && Walk(n, i, j, p) && Distinct(p) ==>
      t[i][j].Finite? && t[i][j].value <= PathWeight(n, p)) &&
    (NoNegativeCycle(n) ==> forall i, j, p :: 0 <= i < |t| && 0 <= j < |t| && Walk(n, i, j, p) ==>
      t[i][j].Finite? && t[i][j].value <= PathWeight(n, p)) &&
    (forall v :: IsVertex(n, v) ==> t[v][v].Finite? && t[v][v].value <= 0.0) &&
    (forall v :: IsVertex(n, v) && t[v][v].value < 0.0 ==> NegativeCycleFrom(n, v)) &&
    (NoNegativeCycle(n) ==> forall v :: IsVertex(n, v) ==> t[v][v] == Finite(0.0))
  }

  /** A table sound, covering and bounding through every id is the finished answer. */
  lemma FinishedTable(n: Net, t: seq<seq<Weight>>)
    requires PairsSound(n, t) && CoversBelow(n, t, |t|) && BoundsBelow(n, t, |t|)
    ensures AllPairsTable(n, t)
  {
    CoveredReachable(n, t);
    BoundedWalks(n, t);
    NegativeDiagonal(n, t);
    if NoNegativeCycle(n) {
      forall v | IsVertex(n, v)
        ensures t[v][v] == Finite(0.0)
      {
        assert t[v][v].Finite? && t[v][v].value <= 0.0;
      }
    }
  }

  /** Covering through every id reaches exactly the reachable pairs. */
  lemma CoveredReachable(n: Net, t: seq<seq<Weight>>)
    requires PairsSound(n, t) && CoversBelow(n, t, |t|)
    ensures forall i, j :: 0 <= i < |t| && 0 <= j < |t| ==> (t[i][j].Finite? <==> Reachable(n, i, j))
  {
    forall i, j | 0 <= i < |t| && 0 <= j < |t|
      ensures t[i][j].Finite? <==> Reachable(n, i, j)
    {
      if Reachable(n, i, j) {
        var p :| Walk(n, i, j, p);
        assert forall x :: 0 <= x < |p| ==> IsVertex(n, p[x]);
        assert InnerBelow(p, |t|);
      }
      if t[i][j].Finite? {
        assert WeighedPath(n, i, j, t[i][j].value);
      }
    }
  }

  /**
   * Bounding through every id bounds every repeat-free path, and every path
   * when no negative cycle is reachable.
   */
  lemma BoundedWalks(n: Net, t: seq<seq<Weight>>)
    requires PairsSound(n, t) && BoundsBelow(n, t, |t|)
    ensures forall i, j, p :: 0 <= i < |t| && 0 <= j < |t| && Walk(n, i, j, p) && Distinct(p) ==>
      t[i][j].Finite? && t[i][j].value <= PathWeight(n, p)
    ensures NoNegativeCycle(n) ==> forall i, j, p :: 0 <= i < |t| && 0 <= j < |t| && Walk(n, i, j, p) ==>
      t[i][j].Finite? && t[i][j].value <= PathWeight(n, p)
  {
    forall i, j, p | 0 <= i < |t| && 0 <= j < |t| && Walk(n, i, j, p)
      ensures InnerBelow(p, |t|)
    {
      assert forall x :: 0 <= x < |p| ==> IsVertex(n, p[x]);
    }
    if NoNegativeCycle(n) {
      forall i, j, p | 0 <= i < |t| && 0 <= j < |t| && Walk(n, i, j, p)
        ensures t[i][j].Finite? && t[i][j].value <= PathWeight(n, p)
      {
        var q := ShortenPath(n, i, p);
        assert Walk(n, i, j, q) && InnerBelow(q, |t|);
      }
    }
  }

  /** A negative diagonal entry is the weight of a closed path, so a negative cycle. */
  lemma NegativeDiagonal(n: Net, t: seq<seq<Weight>>)
    requires PairsSound(n, t)
    ensures forall v :: IsVertex(n, v) && t[v][v].value < 0.0 ==> NegativeCycleFrom(n, v)
  {
    forall v | IsVertex(n, v) && t[v][v].value < 0.0
      ensures NegativeCycleFrom(n, v)
    {
      var c :| Walk(n, v, v, c) && PathWeight(n, c) == t[v][v].value;
      ReachableSelf(n, v);
      assert |c| > 1;
    }
  }

  /**
   * graph_floyd_warshall: no table for capacity 0. Otherwise a new
   * capacity x capacity table, filled by PairsInit and then one round per
   * id k, whose rows form the finished answer AllPairsTable.
   */
  method FloydWarshall(n: Net) returns (m: array2?<Weight>)
    requires WellFormed(n)
    ensures m == null <==> |n.present| == 0
    ensures m != null ==> fresh(m) && m.Length0 == |n.present| && m.Length1 == |n.present|
    ensures m != null ==> AllPairsTable(n, Rows(m))
  {
    if |n.present| == 0 {
      return null;
    }
    var t := PairsInit(n);
    var k := 0;
    while k < t.Length0
      invariant 0 <= k <= t.Length0
      invariant fresh(t) && PairsSound(n, Rows(t)) && CoversBelow(n, Rows(t), k) && BoundsBelow(n, Rows(t), k)
    {
      PairsRound(n, t, k);
      k := k + 1;
    }
    ghost var rows := Rows(t);
    assert |rows| == t.Length0 == |n.present| && |rows[0]| == t.Length1;
    FinishedTable(n, rows);
    m := t;
  }
}
