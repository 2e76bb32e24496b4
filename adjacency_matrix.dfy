/**
 * adjacency_matrix.c: the matrix backend. The graph owns a capacity x
 * capacity buffer of weights; the cell of (from, to) holds the weight of
 * that edge or GRAPH_NO_EDGE. Undirected graphs write both mirror cells.
 */
module AdjacencyMatrices {
  import opened GraphNets

  /** Row v of a weight buffer as a value. */
  function RowOf(cells: array2<Weight>, v: int): (row: seq<Weight>)
    requires 0 <= v < cells.Length0
    reads cells
    ensures |row| == cells.Length1
    ensures forall j :: 0 <= j < cells.Length1 ==> row[j] == cells[v, j]
  {
    seq(cells.Length1, j requires 0 <= j < cells.Length1 reads cells => cells[v, j])
  }

  /**
   * The edge records the algorithms walk in one row: every present target
   * below k whose cell holds a weight, by increasing target.
   */
  function RowEdges(row: seq<Weight>, present: seq<bool>, k: int): (r: seq<Edge>)
    requires |row| == |present| && 0 <= k <= |row|
    ensures forall i :: 0 <= i < |r| ==>
      0 <= r[i].to < k && present[r[i].to] && row[r[i].to] == Finite(r[i].weight)
    ensures forall i, j :: 0 <= i < j < |r| ==> r[i].to < r[j].to
    decreases k
  {
    if k == 0 then []
    else
      var r := RowEdges(row, present, k - 1);
      if present[k - 1] && row[k - 1].Finite? then
        var s := r + [Edge(k - 1, row[k - 1].value)];
        assert s[|r|].to == k - 1;
        assert forall i :: 0 <= i < |r| ==> s[i] == r[i];
        s
      else r
  }

  /** One more column adds its record when the target is present and linked. */
  lemma RowEdgesStep(row: seq<Weight>, present: seq<bool>, k: int)
    requires |row| == |present| && 0 <= k < |row|
    ensures RowEdges(row, present, k + 1) ==
      if present[k] && row[k].Finite? then RowEdges(row, present, k) + [Edge(k, row[k].value)]
      else RowEdges(row, present, k)
  {
  }

  /** Every present target below k whose cell holds a weight has a record. */
  lemma {:induction false} RowEdgesComplete(row: seq<Weight>, present: seq<bool>, k: int, t: int)
    requires |row| == |present| && 0 <= t < k <= |row| && present[t] && row[t].Finite?
    ensures exists i :: 0 <= i < |RowEdges(row, present, k)| && RowEdges(row, present, k)[i].to == t
    decreases k
  {
    RowEdgesStep(row, present, k - 1);
    var r := RowEdges(row, present, k - 1);
    if t == k - 1 {
      assert RowEdges(row, present, k)[|r|].to == t;
    } else {
      RowEdgesComplete(row, present, k - 1, t);
      var i :| 0 <= i < |r| && r[i].to == t;
      assert RowEdges(row, present, k)[i] == r[i];
    }
  }

  /** In a row, find_edge reports exactly the cell of a present target. */
  lemma RowLookup(row: seq<Weight>, present: seq<bool>, t: int)
    requires |row| == |present|
    ensures UniqueTargets(RowEdges(row, present, |row|))
    ensures 0 <= t < |row| && present[t] ==> Lookup(RowEdges(row, present, |row|), t) == row[t]
  {
    var r := RowEdges(row, present, |row|);
    if 0 <= t < |row| && present[t] && row[t].Finite? {
      RowEdgesComplete(row, present, |row|, t);
      var i :| 0 <= i < |r| && r[i].to == t;
      LookupAt(r, i);
    } else if 0 <= t < |row| && present[t] {
      LookupMissing(r, t);
    }
  }

  /**
   * cell: the buffer has a cell for (from, to) exactly when both ids lie in
   * [0, capacity).
   */
  predicate HasCell(cells: array2<Weight>, from: int, to: int)
  {
    0 <= from < cells.Length0 && 0 <= to < cells.Length1
  }

  /**
   * graph_adj_matrix_add_edge: the cell of (from, to) gets the weight, and
   * for an undirected graph so does the mirror cell; nothing else changes.
   */
  method AddEdge(cells: array2<Weight>, directed: bool, from: int, to: int, weight: real)
    requires HasCell(cells, from, to) && HasCell(cells, to, from)
    modifies cells
    ensures forall u, v :: 0 <= u < cells.Length0 && 0 <= v < cells.Length1 ==>
      cells[u, v] ==
        if (u == from && v == to) || (!directed && u == to && v == from) then Finite(weight)
        else old(cells[u, v])
  {
    cells[from, to] := Finite(weight);
    if !directed && from != to {
      cells[to, from] := Finite(weight);
    }
  }

  /**
   * graph_adj_matrix_remove_edge: the cell of (from, to), and its mirror for
   * an undirected graph, go back to GRAPH_NO_EDGE; nothing else changes.
   */
  method RemoveEdge(cells: array2<Weight>, directed: bool, from: int, to: int)
    requires HasCell(cells, from, to) && HasCell(cells, to, from)
    modifies cells
    ensures forall u, v :: 0 <= u < cells.Length0 && 0 <= v < cells.Length1 ==>
      cells[u, v] ==
        if (u == from && v == to) || (!directed && u == to && v == from) then NoEdge
        else old(cells[u, v])
  {
    cells[from, to] := NoEdge;
    if !directed && from != to {
      cells[to, from] := NoEdge;
    }
  }

  /** graph_adj_matrix_has_edge: the cell holds a weight rather than the sentinel. */
  method HasEdge(cells: array2<Weight>, from: int, to: int) returns (b: bool)
    requires HasCell(cells, from, to)
    ensures b <==> cells[from, to].Finite?
  {
    b := cells[from, to] != NoEdge;
  }

  /** graph_adj_matrix_get_edge_weight: the content of the cell. */
  method GetEdgeWeight(cells: array2<Weight>, from: int, to: int) returns (w: Weight)
    requires HasCell(cells, from, to)
    ensures w == cells[from, to]
  {
    w := cells[from, to];
  }

  /**
   * graph_adj_matrix_get_neighbors: for an id outside the capacity, none;
   * otherwise every present target whose cell holds a weight, ascending.
   */
  method GetNeighbors(cells: array2<Weight>, present: array<bool>, vertex: int) returns (r: seq<int>)
    requires cells.Length0 == cells.Length1 == present.Length
    ensures !(0 <= vertex < present.Length) ==> r == []
    ensures 0 <= vertex < present.Length ==>
      r == Targets(RowEdges(RowOf(cells, vertex), present[..], present.Length))
  {
    r := [];
    if vertex < 0 || vertex >= present.Length {
      return;
    }
    r := ScanRow(RowOf(cells, vertex), present[..]);
  }

  /** The row loop of graph_adj_matrix_get_neighbors, over the row's cells and the presence flags. */
  method ScanRow(row: seq<Weight>, flags: seq<bool>) returns (r: seq<int>)
    requires |row| == |flags|
    ensures r == Targets(RowEdges(row, flags, |row|))
  {
    r := [];
    var to := 0;
    while to < |row|
      invariant 0 <= to <= |row|
      invariant r == LinkedBelow(row, flags, to)
    {
      if flags[to] && row[to] != NoEdge {
        r := r + [to];
      }
      to := to + 1;
    }
    LinkedBelowTargets(row, flags, |row|);
  }

  /** The present linked targets below k, ascending. */
  ghost function LinkedBelow(row: seq<Weight>, flags: seq<bool>, k: int): seq<int>
    requires |row| == |flags| && 0 <= k <= |row|
  {
    if k == 0 then [] else LinkedBelow(row, flags, k - 1) + if flags[k - 1] && row[k - 1].Finite? then [k - 1] else []
  }

  /** LinkedBelow lists the targets of the records RowEdges gives. */
  lemma {:induction false} LinkedBelowTargets(row: seq<Weight>, flags: seq<bool>, k: int)
    requires |row| == |flags| && 0 <= k <= |row|
    ensures LinkedBelow(row, flags, k) == Targets(RowEdges(row, flags, k))
  {
    if k > 0 {
      LinkedBelowTargets(row, flags, k - 1);
      RowEdgesStep(row, flags, k - 1);
      if flags[k - 1] && row[k - 1].Finite? {
        TargetsAppend(RowEdges(row, flags, k - 1), Edge(k - 1, row[k - 1].value));
      }
    }
  }
}
