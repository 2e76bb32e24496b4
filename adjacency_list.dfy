/**
 * adjacency_list.c: the list backend. Every vertex id may own a list of
 * edge records (NULL until the vertex is added); a record is a target and a
 * weight. A target has at most one record per list: adding an existing edge
 * overwrites its weight, a new edge is appended. Undirected graphs keep the
 * mirror record in the target's list.
 */
module AdjacencyLists {
  import opened Wrappers
  import opened ListSpec
  import opened GraphNets

  /** The records of a list slot; a NULL slot has none. */
  function Records(slot: Option<seq<Edge>>): seq<Edge>
  {
    if slot.Some? then slot.value else []
  }

  /**
   * The position find_edge reports: the first record aimed at `to`, or -1
   * when there is none.
   */
  function FirstIndex(es: seq<Edge>, to: int): (i: int)
    ensures -1 <= i < |es|
    ensures i == -1 ==> forall k :: 0 <= k < |es| ==> es[k].to != to
    ensures 0 <= i ==> es[i].to == to && forall k :: 0 <= k < i ==> es[k].to != to
  {
    if es == [] then -1
    else if es[0].to == to then 0
    else
      var j := FirstIndex(es[1..], to);
      assert forall k :: 0 < k < |es| ==> es[k] == es[1..][k - 1];
      if j == -1 then -1 else j + 1
  }

  /** find_edge's record carries the weight Lookup reports. */
  lemma {:induction false} FirstIndexLookup(es: seq<Edge>, to: int)
    ensures FirstIndex(es, to) == -1 ==> Lookup(es, to) == NoEdge
    ensures FirstIndex(es, to) >= 0 ==> Lookup(es, to) == Finite(es[FirstIndex(es, to)].weight)
  {
    if es != [] && es[0].to != to {
      FirstIndexLookup(es[1..], to);
    }
  }

  /** add_one_edge on a list: overwrite the weight of the record for `to`, or append one. */
  function Put(es: seq<Edge>, to: int, weight: real): seq<Edge>
  {
    var i := FirstIndex(es, to);
    if i >= 0 then es[i := Edge(to, weight)] else es + [Edge(to, weight)]
  }

  /** remove_one_edge on a list: drop the record for `to`, if any, keeping the others in order. */
  function Drop(es: seq<Edge>, to: int): seq<Edge>
  {
    var i := FirstIndex(es, to);
    if i >= 0 then es[..i] + es[i + 1..] else es
  }

  /** remove_one_edge on a list slot: a NULL slot stays NULL. */
  function DropIn(slot: Option<seq<Edge>>, to: int): Option<seq<Edge>>
  {
    if slot.Some? then Some(Drop(slot.value, to)) else None
  }

  /** The records not aimed at `to`, in order. */
  function Without(es: seq<Edge>, to: int): seq<Edge>
  {
    if es == [] then []
    else if es[0].to == to then Without(es[1..], to)
    else [es[0]] + Without(es[1..], to)
  }

  /** After Put, `to` has the new weight and every other target keeps its own. */
  lemma PutLookup(es: seq<Edge>, to: int, weight: real, x: int)
    requires UniqueTargets(es)
    ensures UniqueTargets(Put(es, to, weight))
    ensures Lookup(Put(es, to, weight), x) == if x == to then Finite(weight) else Lookup(es, x)
  {
    var r := Put(es, to, weight);
    var i := FirstIndex(es, to);
    var j := if i >= 0 then i else |es|;
    assert |r| == if i >= 0 then |es| else |es| + 1;
    assert r[j] == Edge(to, weight);
    assert forall k :: 0 <= k < |es| && k != j ==> r[k] == es[k];
    assert forall k :: 0 <= k < |es| && k != j ==> es[k].to != to;
    assert UniqueTargets(r) by {
      forall a, b | 0 <= a < b < |r|
        ensures r[a].to != r[b].to
      {
        if a != j && b != j {
          assert r[a] == es[a] && r[b] == es[b];
        }
      }
    }
    if x == to {
      LookupAt(r, j);
    } else if k :| 0 <= k < |es| && es[k].to == x {
      assert r[k] == es[k];
      LookupAt(r, k);
      LookupAt(es, k);
    } else {
      assert forall k :: 0 <= k < |r| ==> r[k].to != x;
      LookupMissing(r, x);
      LookupMissing(es, x);
    }
  }

  /** A target without a record is appended at the end; one with a record keeps its place. */
  lemma PutPlace(es: seq<Edge>, to: int, weight: real)
    ensures Lookup(es, to) == NoEdge ==> Put(es, to, weight) == es + [Edge(to, weight)]
    ensures Lookup(es, to) != NoEdge ==>
      Targets(Put(es, to, weight)) == Targets(es) && |Put(es, to, weight)| == |es|
  {
    FirstIndexLookup(es, to);
  }

  /** Put brings in no record except the one aimed at `to`. */
  lemma PutRecords(es: seq<Edge>, to: int, weight: real)
    ensures forall e :: e in Put(es, to, weight) ==> e in es || e == Edge(to, weight)
  {
    var i := FirstIndex(es, to);
    if i >= 0 {
      forall e | e in Put(es, to, weight)
        ensures e in es || e == Edge(to, weight)
      {
        var k :| 0 <= k < |es| && Put(es, to, weight)[k] == e;
        if k != i {
          assert e == es[k];
        }
      }
    }
  }

  /** Drop brings in no record. */
  lemma DropRecords(es: seq<Edge>, to: int)
    ensures forall e :: e in Drop(es, to) ==> e in es
  {
    var i := FirstIndex(es, to);
    if i >= 0 {
      assert es == es[..i] + [es[i]] + es[i + 1..];
    }
  }

  /** The position a record of es takes after the record at i is dropped. */
  function Skip(k: int, i: int): int
  {
    if k < i then k else k + 1
  }

  /** Dropping the record at FirstIndex shifts every later record down by one place. */
  lemma DropShifts(es: seq<Edge>, to: int)
    requires FirstIndex(es, to) >= 0
    ensures |Drop(es, to)| == |es| - 1
    ensures forall k :: 0 <= k < |Drop(es, to)| ==> Drop(es, to)[k] == es[Skip(k, FirstIndex(es, to))]
  {
  }

  /** Drop keeps targets unique. */
  lemma DropUnique(es: seq<Edge>, to: int)
    requires UniqueTargets(es)
    ensures UniqueTargets(Drop(es, to))
  {
    var r := Drop(es, to);
    var i := FirstIndex(es, to);
    if i >= 0 {
      DropShifts(es, to);
      forall a, b | 0 <= a < b < |r|
        ensures r[a].to != r[b].to
      {
        assert r[a] == es[Skip(a, i)] && r[b] == es[Skip(b, i)];
      }
    }
  }

  /** After Drop, `to` has no record and every other target keeps its own. */
  lemma DropLookup(es: seq<Edge>, to: int, x: int)
    requires UniqueTargets(es)
    ensures UniqueTargets(Drop(es, to))
    ensures Lookup(Drop(es, to), x) == if x == to then NoEdge else Lookup(es, x)
  {
    DropUnique(es, to);
    var r := Drop(es, to);
    var i := FirstIndex(es, to);
    if i < 0 {
      assert r == es;
      if x == to {
        LookupMissing(r, x);
      }
    } else {
      DropShifts(es, to);
      if x == to {
        forall k | 0 <= k < |r|
          ensures r[k].to != x
        {
          assert r[k] == es[Skip(k, i)];
        }
        LookupMissing(r, x);
      } else if k :| 0 <= k < |es| && es[k].to == x {
        var m := if k < i then k else k - 1;
        assert r[m] == es[k];
        LookupAt(r, m);
        LookupAt(es, k);
      } else {
        forall k | 0 <= k < |r|
          ensures r[k].to != x
        {
          assert r[k] == es[Skip(k, i)];
        }
        LookupMissing(r, x);
        LookupMissing(es, x);
      }
    }
  }

  /**
   * With unique targets, dropping the record for `to` is the same as
   * filtering out every record aimed at it: the others keep their order.
   */
  lemma {:induction false} DropIsWithout(es: seq<Edge>, to: int)
    requires UniqueTargets(es)
    ensures Drop(es, to) == Without(es, to)
  {
    if es != [] {
      var rest := es[1..];
      assert UniqueTargets(rest);
      if es[0].to == to {
        assert forall k :: 0 <= k < |rest| ==> rest[k].to != to;
        NoRecordWithout(rest, to);
        assert Drop(es, to) == rest;
      } else {
        DropIsWithout(rest, to);
        DropCons(es, to);
      }
    }
  }

  /** Dropping past a head record aimed elsewhere keeps that head. */
  lemma DropCons(es: seq<Edge>, to: int)
    requires es != [] && es[0].to != to
    ensures Drop(es, to) == [es[0]] + Drop(es[1..], to)
  {
    var rest := es[1..];
    var j := FirstIndex(rest, to);
    if j >= 0 {
      DropConsFound(es, to, j);
    } else {
      assert FirstIndex(es, to) == -1;
      DropNothing(es, to);
      DropNothing(rest, to);
      assert es == [es[0]] + rest;
    }
  }

  /** The record Drop removes past the head sits one place further on. */
  lemma DropConsFound(es: seq<Edge>, to: int, j: int)
    requires es != [] && es[0].to != to && j == FirstIndex(es[1..], to) >= 0
    ensures Drop(es, to) == [es[0]] + Drop(es[1..], to)
  {
    var rest := es[1..];
    assert FirstIndex(es, to) == j + 1;
    assert es[..j + 1] == [es[0]] + rest[..j];
    assert es[j + 2..] == rest[j + 1..];
  }

  /** Without a record for `to`, Drop leaves the list alone. */
  lemma DropNothing(es: seq<Edge>, to: int)
    requires FirstIndex(es, to) < 0
    ensures Drop(es, to) == es
  {
  }

  /** Filtering out a target without records changes nothing. */
  lemma {:induction false} NoRecordWithout(es: seq<Edge>, to: int)
    requires forall k :: 0 <= k < |es| ==> es[k].to != to
    ensures Without(es, to) == es
  {
    if es != [] {
      NoRecordWithout(es[1..], to);
    }
  }

  /** find_edge: the index of the first record aimed at `to`, -1 for none or for a NULL list. */
  method FindEdge(adj: Option<seq<Edge>>, to: int) returns (index: int)
    ensures index == FirstIndex(Records(adj), to)
  {
    index := -1;
    if adj.None? {
      return;
    }
    var es := adj.value;
    var i := 0;
    while i < |es|
      invariant 0 <= i <= |es|
      invariant forall k :: 0 <= k < i ==> es[k].to != to
    {
      if es[i].to == to {
        return i;
      }
      i := i + 1;
    }
  }

  /**
   * add_one_edge: create the list of `from` if it is NULL, then overwrite
   * or append the record for `to`. No other list changes.
   */
  method AddOneEdge(lists: array<Option<seq<Edge>>>, from: int, to: int, weight: real)
    requires 0 <= from < lists.Length
    modifies lists
    ensures lists[..] == old(lists[..])[from := Some(Put(Records(old(lists[from])), to, weight))]
  {
    if lists[from].None? {
      lists[from] := Some([]);
    }
    var adj := lists[from].value;
    var index := FindEdge(lists[from], to);
    if index >= 0 {
      lists[from] := Some(adj[index := Edge(to, weight)]);
      return;
    }
    lists[from] := Some(adj + [Edge(to, weight)]);
  }

  /** remove_one_edge: drop the record for `to` from the list of `from`, if both exist. */
  method RemoveOneEdge(lists: array<Option<seq<Edge>>>, from: int, to: int)
    requires 0 <= from < lists.Length
    modifies lists
    ensures lists[..] == old(lists[..])[from := DropIn(old(lists[from]), to)]
  {
    var adj := lists[from];
    if adj.None? {
      return;
    }
    var index := FindEdge(adj, to);
    if index < 0 {
      return;
    }
    lists[from] := Some(RemoveAt(adj.value, index));
  }

  /**
   * graph_adj_list_add_edge: the record from -> to, and for an undirected
   * graph without a self-loop also to -> from.
   */
  method AddEdge(lists: array<Option<seq<Edge>>>, directed: bool, from: int, to: int, weight: real)
    requires 0 <= from < lists.Length && 0 <= to < lists.Length
    modifies lists
    ensures directed || from == to ==>
      lists[..] == old(lists[..])[from := Some(Put(Records(old(lists[from])), to, weight))]
    ensures !directed && from != to ==>
      lists[..] == old(lists[..])[from := Some(Put(Records(old(lists[from])), to, weight))]
                                 [to := Some(Put(Records(old(lists[to])), from, weight))]
  {
    AddOneEdge(lists, from, to, weight);
    if !directed && from != to {
      AddOneEdge(lists, to, from, weight);
    }
  }

  /**
   * graph_adj_list_remove_edge: drop from -> to, and for an undirected graph
   * without a self-loop also to -> from.
   */
  method RemoveEdge(lists: array<Option<seq<Edge>>>, directed: bool, from: int, to: int)
    requires 0 <= from < lists.Length && 0 <= to < lists.Length
    modifies lists
    ensures directed || from == to ==>
      lists[..] == old(lists[..])[from := DropIn(old(lists[from]), to)]
    ensures !directed && from != to ==>
      lists[..] == old(lists[..])[from := DropIn(old(lists[from]), to)]
                                 [to := DropIn(old(lists[to]), from)]
  {
    RemoveOneEdge(lists, from, to);
    if !directed && from != to {
      RemoveOneEdge(lists, to, from);
    }
  }

  /** graph_adj_list_has_edge: the list of `from` has a record for `to`. */
  method HasEdge(lists: array<Option<seq<Edge>>>, from: int, to: int) returns (b: bool)
    requires 0 <= from < lists.Length
    ensures b <==> Lookup(Records(lists[from]), to).Finite?
  {
    var index := FindEdge(lists[from], to);
    FirstIndexLookup(Records(lists[from]), to);
    b := index >= 0;
  }

  /** graph_adj_list_get_edge_weight: the weight of that record, GRAPH_NO_EDGE without one. */
  method GetEdgeWeight(lists: array<Option<seq<Edge>>>, from: int, to: int) returns (w: Weight)
    requires 0 <= from < lists.Length
    ensures w == Lookup(Records(lists[from]), to)
  {
    var index := FindEdge(lists[from], to);
    FirstIndexLookup(Records(lists[from]), to);
    if index < 0 {
      return NoEdge;
    }
    w := Finite(lists[from].value[index].weight);
  }

  /** The targets of the records that lie within the capacity and are present, in order. */
  function LiveTargets(es: seq<Edge>, present: seq<bool>): (r: seq<int>)
    ensures forall t :: t in r <==> 0 <= t < |present| && present[t] && exists e :: e in es && e.to == t
    decreases |es|
  {
    if es == [] then []
    else
      var init := es[..|es| - 1];
      var last := es[|es| - 1];
      var rest := LiveTargets(init, present);
      assert forall e :: e in es <==> e == last || e in init;
      if 0 <= last.to < |present| && present[last.to] then rest + [last.to] else rest
  }

  /** When every target is present, the live targets are all the targets. */
  lemma {:induction false} LiveTargetsAll(es: seq<Edge>, present: seq<bool>)
    requires forall e :: e in es ==> 0 <= e.to < |present| && present[e.to]
    ensures LiveTargets(es, present) == Targets(es)
    decreases |es|
  {
    if es != [] {
      var init := es[..|es| - 1];
      var last := es[|es| - 1];
      assert es == init + [last];
      assert forall e :: e in init ==> e in es;
      LiveTargetsAll(init, present);
      TargetsAppend(init, last);
    }
  }

  /**
   * graph_adj_list_get_neighbors: none for an id outside the capacity or
   * without a list; otherwise the targets of its records that are present,
   * in record order.
   */
  method GetNeighbors(lists: array<Option<seq<Edge>>>, present: array<bool>, vertex: int) returns (r: seq<int>)
    requires lists.Length == present.Length
    ensures !(0 <= vertex < lists.Length) ==> r == []
    ensures 0 <= vertex < lists.Length ==> r == LiveTargets(Records(lists[vertex]), present[..])
  {
    r := [];
    if vertex < 0 || vertex >= lists.Length {
      return;
    }
    var adj := lists[vertex];
    if adj.None? {
      return;
    }
    var es := adj.value;
    ghost var flags := present[..];
    var i := 0;
    while i < |es|
      invariant 0 <= i <= |es|
      invariant r == LiveTargets(es[..i], flags)
    {
      assert es[..i + 1][..i] == es[..i];
      var t := es[i].to;
      if 0 <= t < present.Length && present[t] {
        r := r + [t];
      }
      i := i + 1;
    }
    assert es[..|es|] == es;
  }

  /** graph_adj_list_free_edges: every list is released. */
  method FreeEdges(lists: array<Option<seq<Edge>>>)
    modifies lists
    ensures forall v :: 0 <= v < lists.Length ==> lists[v].None?
  {
    var v := 0;
    while v < lists.Length
      invariant 0 <= v <= lists.Length
      invariant forall u :: 0 <= u < v ==> lists[u].None?
    {
      lists[v] := None;
      v := v + 1;
    }
  }
}
