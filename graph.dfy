/**
 * graph.c: a graph over non-negative integer vertex ids. Presence flags,
 * the vertex count and one of two edge stores (per-vertex edge lists or a
 * capacity x capacity weight matrix) live in buffers sized by a capacity
 * that starts at 8 and doubles on demand. Every query goes through the
 * presence flags; edge updates delegate to the chosen backend.
 */
module Graphs {
  import opened Wrappers
  import opened GraphNets
  import AdjacencyLists
  import AdjacencyMatrices

  datatype GraphType = Directed | Undirected

  datatype Representation = AdjacencyList | AdjacencyMatrix

  /** The capacity create_graph asks graph_init_storage for. */
  const InitialCapacity := 8

  /** The capacities the graph ever has: 8 doubled k times. */
  ghost predicate IsCapacity(c: int)
    decreases if c > 0 then c else 0
  {
    c == 8 || (c > 8 && c % 2 == 0 && IsCapacity(c / 2))
  }

  /**
   * The doubling loop of graph_ensure_capacity: the least cap * 2^k that
   * holds `required` ids; the capacity itself when it already does.
   */
  function GrownCapacity(cap: int, required: int): (c: int)
    requires cap > 0
    ensures c >= cap && c >= required
    ensures cap >= required ==> c == cap
    ensures cap < required ==> c / 2 < required
    decreases if required > cap then required - cap else 0
  {
    if cap >= required then cap else GrownCapacity(2 * cap, required)
  }

  /** Doubling keeps a capacity of the form 8 * 2^k. */
  lemma {:induction false} GrownIsCapacity(cap: int, required: int)
    requires IsCapacity(cap)
    ensures cap > 0 && IsCapacity(GrownCapacity(cap, required))
    decreases if required > cap then required - cap else 0
  {
    assert cap >= 8 by { CapacityAtLeast8(cap); }
    if cap < required {
      assert (2 * cap) / 2 == cap;
      GrownIsCapacity(2 * cap, required);
    }
  }

  lemma {:induction false} CapacityAtLeast8(c: int)
    requires IsCapacity(c)
    ensures c >= 8
    decreases if c > 0 then c else 0
  {
    if c != 8 {
      CapacityAtLeast8(c / 2);
    }
  }

  /** s followed by copies of x up to length n: a buffer grown by calloc. */
  function Pad<T>(s: seq<T>, n: int, x: T): (r: seq<T>)
    requires |s| <= n
    ensures |r| == n && r[..|s|] == s
    ensures forall i :: |s| <= i < n ==> r[i] == x
  {
    s + seq(n - |s|, _ => x)
  }

  /** Flagging an id and then growing is growing and then flagging it. */
  lemma PadUpdate(flags: seq<bool>, mid: int, n: int, id: int)
    requires |flags| <= mid <= n && 0 <= id < mid
    ensures Pad(Pad(flags, mid, false)[id := true], n, false) == Pad(flags, n, false)[id := true]
  {
  }

  /** Clear flags added at the end mark nothing. */
  lemma MarkedPad(flags: seq<bool>, n: int)
    requires |flags| <= n
    ensures Marked(Pad(flags, n, false)) == Marked(flags)
  {
    var p := Pad(flags, n, false);
    assert forall v :: 0 <= v < |flags| ==> p[v] == flags[v];
  }

  /** memcpy of a whole buffer into the front of a larger one. */
  method CopyInto<T>(src: array<T>, dst: array<T>)
    requires src.Length <= dst.Length && src != dst
    modifies dst
    ensures dst[..src.Length] == src[..]
    ensures dst[src.Length..] == old(dst[src.Length..])
  {
    var i := 0;
    while i < src.Length
      invariant 0 <= i <= src.Length
      invariant forall k :: 0 <= k < i ==> dst[k] == src[k]
      invariant forall k :: i <= k < dst.Length ==> dst[k] == old(dst[k])
    {
      dst[i] := src[i];
      i := i + 1;
    }
    assert forall k :: 0 <= k < src.Length ==> dst[..src.Length][k] == src[..][k];
  }

  /** A fresh weight buffer whose every cell holds GRAPH_NO_EDGE. */
  method NoEdgeCells(cap: int) returns (m: array2<Weight>)
    requires cap >= 0
    ensures fresh(m) && m.Length0 == cap && m.Length1 == cap
    ensures forall u, v :: 0 <= u < cap && 0 <= v < cap ==> m[u, v] == NoEdge
  {
    m := new Weight[cap, cap];
    var i := 0;
    while i < cap
      invariant 0 <= i <= cap
      invariant forall u, v :: 0 <= u < i && 0 <= v < cap ==> m[u, v] == NoEdge
    {
      var j := 0;
      while j < cap
        invariant 0 <= j <= cap
        invariant forall u, v :: 0 <= u < i && 0 <= v < cap ==> m[u, v] == NoEdge
        invariant forall v :: 0 <= v < j ==> m[i, v] == NoEdge
      {
        m[i, j] := NoEdge;
        j := j + 1;
      }
      i := i + 1;
    }
  }

  /** The row-by-row memcpy of graph_ensure_capacity: the old block lands in the top-left corner. */
  method CopyCells(src: array2<Weight>, dst: array2<Weight>)
    requires src.Length0 <= dst.Length0 && src.Length1 <= dst.Length1 && src != dst
    modifies dst
    ensures forall u, v :: 0 <= u < dst.Length0 && 0 <= v < dst.Length1 ==>
      dst[u, v] == if u < src.Length0 && v < src.Length1 then src[u, v] else old(dst[u, v])
  {
    var i := 0;
    while i < src.Length0
      invariant 0 <= i <= src.Length0
      invariant forall u, v :: 0 <= u < dst.Length0 && 0 <= v < dst.Length1 ==>
        dst[u, v] == if u < i && v < src.Length1 then src[u, v] else old(dst[u, v])
    {
      var j := 0;
      while j < src.Length1
        invariant 0 <= j <= src.Length1
        invariant forall u, v :: 0 <= u < dst.Length0 && 0 <= v < dst.Length1 ==>
          dst[u, v] == if (u < i && v < src.Length1) || (u == i && v < j) then src[u, v] else old(dst[u, v])
      {
        dst[i, j] := src[i, j];
        j := j + 1;
      }
      i := i + 1;
    }
  }

  /** What a list slot of a valid graph holds: a list exactly for a present id, unique present targets. */
  ghost predicate SlotOk(slot: Option<seq<Edge>>, flags: seq<bool>, isPresent: bool)
  {
    (slot.Some? <==> isPresent) &&
    UniqueTargets(AdjacencyLists.Records(slot)) &&
    forall i :: 0 <= i < |AdjacencyLists.Records(slot)| ==>
      0 <= AdjacencyLists.Records(slot)[i].to < |flags| && flags[AdjacencyLists.Records(slot)[i].to]
  }

  /** Writing a record for a present target keeps a present id's slot in shape. */
  lemma PutSlotOk(es: seq<Edge>, flags: seq<bool>, to: int, weight: real)
    requires SlotOk(Some(es), flags, true) && 0 <= to < |flags| && flags[to]
    ensures SlotOk(Some(AdjacencyLists.Put(es, to, weight)), flags, true)
  {
    AdjacencyLists.PutLookup(es, to, weight, 0);
    AdjacencyLists.PutRecords(es, to, weight);
  }

  /** Dropping a record keeps a present id's slot in shape. */
  lemma DropSlotOk(es: seq<Edge>, flags: seq<bool>, to: int)
    requires SlotOk(Some(es), flags, true)
    ensures SlotOk(Some(AdjacencyLists.Drop(es, to)), flags, true)
  {
    AdjacencyLists.DropLookup(es, to, 0);
    AdjacencyLists.DropRecords(es, to);
  }

  /** The weight a sequence of list slots holds for (u, v): GRAPH_NO_EDGE outside it. */
  ghost function SlotWeight(slots: seq<Option<seq<Edge>>>, u: int, v: int): Weight
  {
    if 0 <= u < |slots| && 0 <= v < |slots| then Lookup(AdjacencyLists.Records(slots[u]), v) else NoEdge
  }

  class Graph {
    const kind: GraphType
    const rep: Representation
    var capacity: int
    var count: int
    var present: array<bool>
    /** adj_lists; a zero-length buffer for the matrix representation. */
    var lists: array<Option<seq<Edge>>>
    /** adj_matrix; a 0 x 0 buffer for the list representation. */
    var cells: array2<Weight>

    /** The presence flags as a value. */
    ghost function Flags(): seq<bool>
      reads this, present
    {
      present[..]
    }

    /** graph_has_vertex as a predicate. */
    ghost predicate Present(v: int)
      reads this, present
    {
      0 <= v < capacity && v < present.Length && present[v]
    }

    /** The edge records of v in the list representation; none otherwise. */
    ghost function ListOf(v: int): seq<Edge>
      reads this, lists
    {
      if rep == AdjacencyList && 0 <= v < lists.Length then AdjacencyLists.Records(lists[v]) else []
    }

    /** The weight the backend holds for (u, v): GRAPH_NO_EDGE outside the capacity. */
    ghost function WeightOf(u: int, v: int): Weight
      reads this, lists, cells
    {
      if !(0 <= u < capacity && 0 <= v < capacity) then NoEdge
      else if rep == AdjacencyList then Lookup(ListOf(u), v)
      else if u < cells.Length0 && v < cells.Length1 then cells[u, v]
      else NoEdge
    }

    /** The edge (u, v) is among those add_edge(from, to) writes. */
    predicate Linked(u: int, v: int, from: int, to: int)
    {
      (u == from && v == to) || (kind == Undirected && u == to && v == from)
    }

    /** The vertex whose list add_edge(from, to) touches at v, and the target it writes there. */
    predicate Touched(v: int, from: int, to: int)
    {
      v == from || (kind == Undirected && v == to)
    }

    function Partner(v: int, from: int, to: int): int
    {
      if v == from then to else from
    }

    ghost predicate ListsValid()
      reads this, present, lists
    {
      lists.Length == capacity == present.Length &&
      forall v :: 0 <= v < capacity ==> SlotOk(lists[v], present[..], present[v])
    }

    ghost predicate CellsValid()
      reads this, present, cells
    {
      cells.Length0 == capacity && cells.Length1 == capacity && present.Length == capacity &&
      forall u, v :: 0 <= u < capacity && 0 <= v < capacity && cells[u, v].Finite? ==>
        present[u] && present[v]
    }

    /**
     * The graph's invariant: buffers sized by a capacity of the form 8 * 2^k,
     * the count equal to the number of present ids, edges only between
     * present ids, and one weight for both directions when undirected.
     */
    ghost predicate Valid()
      reads this, present, lists, cells
    {
      present.Length == capacity && IsCapacity(capacity) &&
      count == |Marked(present[..])| &&
      (rep == AdjacencyList ==> ListsValid()) &&
      (rep == AdjacencyMatrix ==> CellsValid()) &&
      (kind == Undirected ==> forall u, v :: WeightOf(u, v) == WeightOf(v, u))
    }

    /** Out-edge records of v as the algorithms walk them. */
    function Out(v: int): seq<Edge>
      requires 0 <= v < capacity
      requires rep == AdjacencyList ==> lists.Length == capacity
      requires rep == AdjacencyMatrix ==> cells.Length0 == capacity == cells.Length1 == present.Length
      reads this, present, lists, cells
    {
      if rep == AdjacencyList then AdjacencyLists.Records(lists[v])
      else AdjacencyMatrices.RowEdges(AdjacencyMatrices.RowOf(cells, v), present[..], capacity)
    }

    /** The buffers have the sizes Out needs. */
    predicate Sized()
      reads this, present, lists, cells
    {
      present.Length == capacity &&
      (rep == AdjacencyList ==> lists.Length == capacity) &&
      (rep == AdjacencyMatrix ==> cells.Length0 == capacity == cells.Length1)
    }

    /** The read-only view the algorithms of graph_algorithms.c work on. */
    function View(): (n: Net)
      requires Sized()
      reads this, present, lists, cells
      ensures n.directed == (kind == Directed) && n.present == present[..] && n.count == count
      ensures |n.out| == capacity && forall v :: 0 <= v < capacity ==> n.out[v] == Out(v)
    {
      Net(kind == Directed, present[..],
        seq(capacity, v requires 0 <= v < capacity && Sized() reads this, present, lists, cells => Out(v)),
        count)
    }

    /**
     * A valid graph's view is well formed, and its edge weights are the
     * backend's.
     */
    lemma ViewWellFormed()
      requires Valid()
      ensures Sized() && WellFormed(View())
      ensures forall u, v :: EdgeWeight(View(), u, v) == WeightOf(u, v)
    {
      ViewWeights();
      ViewRecords(View());
      ViewUnique();
    }

    /** The view's edge weights are the backend's. */
    lemma ViewWeights()
      requires Valid()
      ensures Sized() && forall u, v :: EdgeWeight(View(), u, v) == WeightOf(u, v)
    {
      forall u, v
        ensures EdgeWeight(View(), u, v) == WeightOf(u, v)
      {
        ViewWeight(u, v);
      }
    }

    /** The view's records join present ids. */
    lemma ViewRecords(n: Net)
      requires Sized() && (rep == AdjacencyList ==> ListsValid()) && (rep == AdjacencyMatrix ==> CellsValid())
      requires n == View()
      ensures forall v, i :: 0 <= v < |n.out| && 0 <= i < |n.out[v]| ==> IsVertex(n, n.out[v][i].to)
      ensures forall v :: 0 <= v < |n.out| && n.out[v] != [] ==> IsVertex(n, v)
    {
      forall v, i | 0 <= v < |n.out| && 0 <= i < |n.out[v]|
        ensures IsVertex(n, n.out[v][i].to)
      {
        OutRecord(v, i);
      }
      forall v | 0 <= v < |n.out| && n.out[v] != []
        ensures IsVertex(n, v)
      {
        OutRecord(v, 0);
      }
    }

    /** The view's record lists have distinct targets. */
    lemma ViewUnique()
      requires Valid()
      ensures Sized() && forall v :: 0 <= v < |View().out| ==> UniqueTargets(View().out[v])
    {
      var n := View();
      forall v | 0 <= v < |n.out|
        ensures UniqueTargets(n.out[v])
      {
        OutUnique(v);
      }
    }

    /** A record of a valid graph joins two present ids. */
    lemma OutRecord(v: int, i: int)
      requires Sized() && (rep == AdjacencyList ==> ListsValid()) && (rep == AdjacencyMatrix ==> CellsValid())
      requires 0 <= v < capacity && 0 <= i < |Out(v)|
      ensures present[v] && 0 <= Out(v)[i].to < capacity && present[Out(v)[i].to]
    {
      if rep == AdjacencyList {
        assert SlotOk(lists[v], present[..], present[v]);
      } else {
        var row := AdjacencyMatrices.RowOf(cells, v);
        assert row[Out(v)[i].to] == cells[v, Out(v)[i].to];
      }
    }

    /** The records of an id of a valid graph have distinct targets. */
    lemma OutUnique(v: int)
      requires Valid() && 0 <= v < capacity
      ensures Sized() && UniqueTargets(Out(v))
    {
      if rep == AdjacencyList {
        assert SlotOk(lists[v], present[..], present[v]);
      } else {
        AdjacencyMatrices.RowLookup(AdjacencyMatrices.RowOf(cells, v), present[..], v);
      }
    }

    lemma ViewWeight(u: int, v: int)
      requires Valid()
      ensures Sized() && EdgeWeight(View(), u, v) == WeightOf(u, v)
    {
      var n := View();
      if 0 <= u < capacity && 0 <= v < capacity {
        if rep == AdjacencyList {
          var s := lists[u];
          assert SlotOk(s, present[..], present[u]);
          if !present[v] {
            assert forall k :: 0 <= k < |AdjacencyLists.Records(s)| ==> AdjacencyLists.Records(s)[k].to != v;
            LookupMissing(AdjacencyLists.Records(s), v);
          }
        } else {
          var row := AdjacencyMatrices.RowOf(cells, u);
          AdjacencyMatrices.RowLookup(row, present[..], v);
          assert row[v] == cells[u, v];
        }
      }
    }

    /**
     * create_graph: capacity 8, no vertex, no edge; the matrix buffer is
     * filled with GRAPH_NO_EDGE.
     */
    constructor (kind: GraphType, rep: Representation)
      ensures Valid() && this.kind == kind && this.rep == rep
      ensures capacity == InitialCapacity && count == 0
      ensures Flags() == seq(InitialCapacity, _ => false)
      ensures forall u, v :: WeightOf(u, v) == NoEdge
      ensures fresh(present) && fresh(lists) && fresh(cells)
    {
      this.kind := kind;
      this.rep := rep;
      var cap := InitialCapacity;
      var flags := new bool[cap](_ => false);
      var slots: array<Option<seq<Edge>>>;
      var block: array2<Weight>;
      if rep == AdjacencyList {
        slots := new Option<seq<Edge>>[cap](_ => None);
        block := new Weight[0, 0];
      } else {
        slots := new Option<seq<Edge>>[0];
        block := NoEdgeCells(cap);
      }
      capacity := cap;
      count := 0;
      present := flags;
      lists := slots;
      cells := block;
      new;
      assert Marked(present[..]) == {};
      assert forall u, v :: WeightOf(u, v) == NoEdge;
    }

    /**
     * graph_ensure_capacity: a negative id or one below the capacity
     * changes nothing; otherwise the capacity doubles until it exceeds the
     * id, the flags and lists are copied into larger buffers, the old matrix
     * lands in the top-left corner of a larger one and the new cells hold
     * GRAPH_NO_EDGE.
     */
    method EnsureCapacity(id: int)
      requires Valid()
      modifies this
      ensures Valid() && count == old(count)
      ensures capacity == if id < 0 then old(capacity) else GrownCapacity(old(capacity), id + 1)
      ensures Flags() == Pad(old(Flags()), capacity, false)
      ensures forall u, v :: WeightOf(u, v) == old(WeightOf(u, v))
      ensures forall v :: ListOf(v) == old(ListOf(v))
      ensures rep == AdjacencyList ==> lists[..] == Pad(old(lists[..]), capacity, None)
      ensures rep == AdjacencyMatrix ==> forall u, v :: 0 <= u < capacity && 0 <= v < capacity ==>
        cells[u, v] == if u < old(capacity) && v < old(capacity) then old(cells[u, v]) else NoEdge
      ensures capacity == old(capacity) ==> present == old(present) && lists == old(lists) && cells == old(cells)
      ensures capacity != old(capacity) ==>
        fresh(present) &&
        (if rep == AdjacencyList then fresh(lists) && cells == old(cells) else fresh(cells) && lists == old(lists))
    {
      CapacityAtLeast8(capacity);
      if id < 0 {
        return;
      }
      var required := id + 1;
      if required <= capacity {
        return;
      }
      var oldCap := capacity;
      var newCap := if oldCap > 0 then oldCap else 8;
      while newCap < required
        invariant newCap > 0 && GrownCapacity(newCap, required) == GrownCapacity(oldCap, required)
        decreases required - newCap
      {
        newCap := newCap * 2;
      }
      GrownIsCapacity(oldCap, required);
      if rep == AdjacencyList {
        GrowLists(newCap);
      } else {
        GrowCells(newCap);
      }
    }

    /** A fresh flag buffer of the new capacity holding the old flags (calloc and memcpy). */
    method GrownFlags(newCap: int) returns (newPresent: array<bool>)
      requires Valid() && newCap >= capacity
      ensures fresh(newPresent) && newPresent[..] == Pad(present[..], newCap, false)
      ensures Marked(newPresent[..]) == Marked(present[..])
    {
      newPresent := new bool[newCap](_ => false);
      CopyInto(present, newPresent);
      assert newPresent[..capacity] == present[..];
      MarkedPad(present[..], newCap);
    }

    /** A fresh list buffer of the new capacity holding the old lists, then NULL slots. */
    method GrownSlots(newCap: int) returns (newLists: array<Option<seq<Edge>>>)
      requires Valid() && rep == AdjacencyList && newCap >= capacity
      ensures fresh(newLists) && newLists[..] == Pad(lists[..], newCap, None)
    {
      newLists := new Option<seq<Edge>>[newCap](_ => None);
      CopyInto(lists, newLists);
      assert newLists[..capacity] == lists[..];
    }

    /** Installs the grown flag and list buffers (the list half of graph_ensure_capacity). */
    method GrowLists(newCap: int)
      requires Valid() && rep == AdjacencyList
      requires newCap >= capacity && IsCapacity(newCap)
      modifies this
      ensures Valid() && count == old(count) && capacity == newCap
      ensures Flags() == Pad(old(Flags()), capacity, false)
      ensures lists[..] == Pad(old(lists[..]), capacity, None)
      ensures fresh(present) && fresh(lists) && cells == old(cells)
      ensures forall u, v :: WeightOf(u, v) == old(WeightOf(u, v))
      ensures forall v :: ListOf(v) == old(ListOf(v))
    {
      ghost var flags := present[..];
      ghost var slots := lists[..];
      SlotsView();
      var newPresent := GrownFlags(newCap);
      var newLists := GrownSlots(newCap);
      capacity := newCap;
      present := newPresent;
      lists := newLists;
      SlotsPadded(slots, flags, newCap);
      PaddedListsValid(slots, flags);
    }

    /** A list store holding padded slots and flags of a valid one is valid, with the same records and weights. */
    lemma PaddedListsValid(slots: seq<Option<seq<Edge>>>, flags: seq<bool>)
      requires rep == AdjacencyList && |slots| == |flags| <= capacity && IsCapacity(capacity)
      requires present.Length == capacity && lists.Length == capacity
      requires present[..] == Pad(flags, capacity, false) && lists[..] == Pad(slots, capacity, None)
      requires count == |Marked(flags)| && Marked(present[..]) == Marked(flags)
      requires forall v :: 0 <= v < capacity ==> SlotOk(lists[..][v], present[..], present[..][v])
      requires forall v :: (if 0 <= v < capacity then AdjacencyLists.Records(lists[..][v]) else []) ==
                          (if 0 <= v < |slots| then AdjacencyLists.Records(slots[v]) else [])
      requires forall u, v :: SlotWeight(lists[..], u, v) == SlotWeight(slots, u, v)
      requires kind == Undirected ==> forall u, v :: SlotWeight(slots, u, v) == SlotWeight(slots, v, u)
      ensures Valid()
      ensures forall v :: ListOf(v) == if 0 <= v < |slots| then AdjacencyLists.Records(slots[v]) else []
      ensures forall u, v :: WeightOf(u, v) == SlotWeight(slots, u, v)
    {
      SlotsView();
      assert ListsValid() by {
        forall v | 0 <= v < capacity
          ensures SlotOk(lists[v], present[..], present[v])
        {
          assert lists[v] == lists[..][v] && present[v] == present[..][v];
        }
      }
    }

    /**
     * Growing the slots with NULL and the flags with false keeps every slot
     * in shape, every id's records and every weight.
     */
    static lemma SlotsPadded(slots: seq<Option<seq<Edge>>>, flags: seq<bool>, newCap: int)
      requires |slots| == |flags| <= newCap
      requires forall v :: 0 <= v < |slots| ==> SlotOk(slots[v], flags, flags[v])
      ensures forall v :: 0 <= v < newCap ==>
        SlotOk(Pad(slots, newCap, None)[v], Pad(flags, newCap, false), Pad(flags, newCap, false)[v])
      ensures forall v :: (if 0 <= v < newCap then AdjacencyLists.Records(Pad(slots, newCap, None)[v]) else []) ==
                          (if 0 <= v < |slots| then AdjacencyLists.Records(slots[v]) else [])
      ensures forall u, v :: SlotWeight(Pad(slots, newCap, None), u, v) == SlotWeight(slots, u, v)
    {
      var after, flags' := Pad(slots, newCap, None), Pad(flags, newCap, false);
      forall v | 0 <= v < newCap
        ensures SlotOk(after[v], flags', flags'[v])
      {
        if v < |slots| {
          assert SlotOk(slots[v], flags, flags[v]);
          assert after[v] == slots[v] && flags'[v] == flags[v];
        }
      }
      forall u, v
        ensures SlotWeight(after, u, v) == SlotWeight(slots, u, v)
      {
        if 0 <= u < |slots| && |slots| <= v < newCap {
          assert SlotOk(slots[u], flags, flags[u]);
          var es := AdjacencyLists.Records(slots[u]);
          assert forall k :: 0 <= k < |es| ==> es[k].to != v;
          LookupMissing(es, v);
        }
      }
    }

    /** Installs the grown flag buffer and weight matrix (the matrix half of graph_ensure_capacity). */
    method GrowCells(newCap: int)
      requires Valid() && rep == AdjacencyMatrix
      requires newCap >= capacity && IsCapacity(newCap)
      modifies this
      ensures Valid() && count == old(count) && capacity == newCap
      ensures Flags() == Pad(old(Flags()), capacity, false)
      ensures forall u, v :: 0 <= u < capacity && 0 <= v < capacity ==>
        cells[u, v] == if u < old(capacity) && v < old(capacity) then old(cells[u, v]) else NoEdge
      ensures fresh(present) && fresh(cells) && lists == old(lists)
      ensures forall u, v :: WeightOf(u, v) == old(WeightOf(u, v))
      ensures forall v :: ListOf(v) == old(ListOf(v))
    {
      ghost var oldCap := capacity;
      ghost var flags := present[..];
      var newPresent := GrownFlags(newCap);
      var newCells := NoEdgeCells(newCap);
      CopyCells(cells, newCells);
      capacity := newCap;
      present := newPresent;
      cells := newCells;
      assert forall v :: 0 <= v < oldCap ==> present[v] == flags[v];
      forall u, v
        ensures WeightOf(u, v) == old(WeightOf(u, v))
      {
        if 0 <= u < capacity && 0 <= v < capacity && !(u < oldCap && v < oldCap) {
          assert cells[u, v] == NoEdge;
        }
      }
      assert CellsValid() by {
        forall u, v | 0 <= u < capacity && 0 <= v < capacity && cells[u, v].Finite?
          ensures present[u] && present[v]
        {
          assert u < oldCap && v < oldCap;
          assert old(cells[u, v]).Finite?;
        }
      }
    }

    /** Edges join present ids only: an absent endpoint has GRAPH_NO_EDGE. */
    lemma EdgesBetweenPresent(u: int, v: int)
      requires Valid() && !(Present(u) && Present(v))
      ensures WeightOf(u, v) == NoEdge
    {
      if 0 <= u < capacity && 0 <= v < capacity {
        if rep == AdjacencyList {
          assert SlotOk(lists[u], present[..], present[u]);
          assert forall k :: 0 <= k < |ListOf(u)| ==> ListOf(u)[k].to != v;
          LookupMissing(ListOf(u), v);
        }
      }
    }

    /** graph_has_vertex: within the capacity and flagged present. */
    method HasVertex(id: int) returns (b: bool)
      requires Valid()
      ensures b <==> Present(id)
    {
      b := 0 <= id < capacity && present[id];
    }

    /** graph_vertex_count: the number of present ids. */
    method VertexCount() returns (c: int)
      requires Valid()
      ensures c == |Marked(Flags())|
    {
      c := count;
    }

    /** The part of graph_add_vertex after the capacity check: flag the id and give it a list. */
    method MarkPresent(id: int)
      requires Valid() && 0 <= id < capacity
      modifies this, present, lists
      ensures Valid() && capacity == old(capacity)
      ensures present == old(present) && lists == old(lists) && cells == old(cells)
      ensures Flags() == old(Flags())[id := true]
      ensures count == old(count) + if old(present[id]) then 0 else 1
      ensures forall u, v :: WeightOf(u, v) == old(WeightOf(u, v))
      ensures forall v :: ListOf(v) == old(ListOf(v))
    {
      if present[id] {
        return;
      }
      ghost var flags := present[..];
      ghost var slots := lists[..];
      present[id] := true;
      count := count + 1;
      MarkOne(flags, id);
      if rep == AdjacencyList && lists[id].None? {
        lists[id] := Some([]);
      }
      assert forall v :: ListOf(v) == old(ListOf(v));
      assert forall u, v :: WeightOf(u, v) == old(WeightOf(u, v));
      if rep == AdjacencyList {
        assert present[..] == flags[id := true];
        forall v | 0 <= v < capacity
          ensures SlotOk(lists[v], present[..], present[v])
        {
          assert SlotOk(slots[v], flags, flags[v]);
          if v != id {
            assert lists[v] == slots[v];
          }
        }
      }
    }

    /**
     * graph_add_vertex: a negative id changes nothing; otherwise the
     * capacity grows to hold the id, and an id not yet present is flagged
     * and counted. No edge changes.
     */
    method AddVertex(id: int)
      requires Valid()
      modifies this, present, lists
      ensures Valid()
      ensures capacity == if id < 0 then old(capacity) else GrownCapacity(old(capacity), id + 1)
      ensures Flags() == if id < 0 then old(Flags()) else Pad(old(Flags()), capacity, false)[id := true]
      ensures count == old(count) + if id < 0 || old(Present(id)) then 0 else 1
      ensures forall u, v :: WeightOf(u, v) == old(WeightOf(u, v))
      ensures forall v :: ListOf(v) == old(ListOf(v))
      ensures present == old(present) || fresh(present)
      ensures lists == old(lists) || fresh(lists)
      ensures cells == old(cells) || fresh(cells)
    {
      if id < 0 {
        return;
      }
      EnsureCapacity(id);
      MarkPresent(id);
    }

    /** The list branch of graph_add_edge, both endpoints present. */
    method LinkLists(from: int, to: int, weight: real)
      requires Valid() && rep == AdjacencyList && Present(from) && Present(to)
      modifies lists
      ensures Valid()
      ensures forall u, v :: WeightOf(u, v) == if Linked(u, v, from, to) then Finite(weight) else old(WeightOf(u, v))
      ensures forall v :: ListOf(v) ==
                 if Touched(v, from, to) then AdjacencyLists.Put(old(ListOf(v)), Partner(v, from, to), weight)
                 else old(ListOf(v))
    {
      ghost var slots := lists[..];
      SlotsView();
      AdjacencyLists.AddEdge(lists, kind == Directed, from, to, weight);
      assert present[..] == old(present[..]);
      SlotsPut(slots, lists[..], present[..], from, to, weight);
      SlotsView();
    }

    /**
     * add_edge on the slots of a valid list store: each touched slot gets
     * the record of its partner written, every slot stays in shape, and the
     * edge reads the weight in both directions when undirected.
     */
    lemma SlotsPut(slots: seq<Option<seq<Edge>>>, after: seq<Option<seq<Edge>>>, flags: seq<bool>, from: int, to: int, weight: real)
      requires |slots| == |flags| && 0 <= from < |flags| && flags[from] && 0 <= to < |flags| && flags[to]
      requires forall v :: 0 <= v < |slots| ==> SlotOk(slots[v], flags, flags[v])
      requires kind == Directed || from == to ==>
        after == slots[from := Some(AdjacencyLists.Put(AdjacencyLists.Records(slots[from]), to, weight))]
      requires kind == Undirected && from != to ==>
        after == slots[from := Some(AdjacencyLists.Put(AdjacencyLists.Records(slots[from]), to, weight))]
                      [to := Some(AdjacencyLists.Put(AdjacencyLists.Records(slots[to]), from, weight))]
      ensures |after| == |slots|
      ensures forall v :: 0 <= v < |after| ==> SlotOk(after[v], flags, flags[v])
      ensures forall v :: 0 <= v < |after| ==>
        AdjacencyLists.Records(after[v]) ==
          if Touched(v, from, to) then AdjacencyLists.Put(AdjacencyLists.Records(slots[v]), Partner(v, from, to), weight)
          else AdjacencyLists.Records(slots[v])
      ensures forall u, v :: SlotWeight(after, u, v) == if Linked(u, v, from, to) then Finite(weight) else SlotWeight(slots, u, v)
      ensures kind == Undirected && (forall u, v :: SlotWeight(slots, u, v) == SlotWeight(slots, v, u)) ==>
        forall u, v :: SlotWeight(after, u, v) == SlotWeight(after, v, u)
    {
      forall v | 0 <= v < |after|
        ensures SlotOk(after[v], flags, flags[v])
      {
        assert SlotOk(slots[v], flags, flags[v]);
        if Touched(v, from, to) {
          PutSlotOk(AdjacencyLists.Records(slots[v]), flags, Partner(v, from, to), weight);
        }
      }
      forall u, v
        ensures SlotWeight(after, u, v) == if Linked(u, v, from, to) then Finite(weight) else SlotWeight(slots, u, v)
      {
        if 0 <= u < |slots| && 0 <= v < |slots| && Touched(u, from, to) {
          assert SlotOk(slots[u], flags, flags[u]);
          AdjacencyLists.PutLookup(AdjacencyLists.Records(slots[u]), Partner(u, from, to), weight, v);
        }
      }
      if kind == Undirected && (forall u, v :: SlotWeight(slots, u, v) == SlotWeight(slots, v, u)) {
        forall u, v
          ensures SlotWeight(after, u, v) == SlotWeight(after, v, u)
        {
          assert SlotWeight(slots, u, v) == SlotWeight(slots, v, u);
          assert Linked(u, v, from, to) == Linked(v, u, from, to);
        }
      }
    }

    /** The matrix branch of graph_add_edge, both endpoints present. */
    method LinkCells(from: int, to: int, weight: real)
      requires Valid() && rep == AdjacencyMatrix && Present(from) && Present(to)
      modifies cells
      ensures Valid()
      ensures forall u, v :: WeightOf(u, v) == if Linked(u, v, from, to) then Finite(weight) else old(WeightOf(u, v))
    {
      AdjacencyMatrices.AddEdge(cells, kind == Directed, from, to, weight);
      if kind == Undirected {
        forall u, v
          ensures WeightOf(u, v) == WeightOf(v, u)
        {
          assert old(WeightOf(u, v)) == old(WeightOf(v, u));
          assert Linked(u, v, from, to) == Linked(v, u, from, to);
        }
      }
    }

    /** The first half of graph_add_edge: both endpoints become vertices. */
    method AddEndpoints(from: int, to: int)
      requires Valid() && from >= 0 && to >= 0
      modifies this, present, lists
      ensures Valid() && Present(from) && Present(to)
      ensures capacity == GrownCapacity(GrownCapacity(old(capacity), from + 1), to + 1)
      ensures Flags() == Pad(old(Flags()), capacity, false)[from := true][to := true]
      ensures count == old(count) + (if old(Present(from)) then 0 else 1) +
                (if to == from || old(Present(to)) then 0 else 1)
      ensures forall u, v :: WeightOf(u, v) == old(WeightOf(u, v))
      ensures forall v :: ListOf(v) == old(ListOf(v))
      ensures present == old(present) || fresh(present)
      ensures lists == old(lists) || fresh(lists)
      ensures cells == old(cells) || fresh(cells)
    {
      ghost var flags := Flags();
      AddVertex(from);
      ghost var midCap := capacity;
      AddVertex(to);
      PadUpdate(flags, midCap, capacity, from);
    }

    /**
     * graph_add_edge: a negative endpoint changes nothing; otherwise both
     * endpoints are added as vertices, then the backend stores the weight
     * for (from, to), and for an undirected graph for (to, from) too. No
     * other edge changes; in the list representation an existing record is
     * overwritten in place and a new one is appended.
     */
    method AddEdge(from: int, to: int, weight: real)
      requires Valid()
      modifies this, present, lists, cells
      ensures Valid()
      ensures from < 0 || to < 0 ==> capacity == old(capacity) && Flags() == old(Flags()) && count == old(count)
      ensures from >= 0 && to >= 0 ==>
        capacity == GrownCapacity(GrownCapacity(old(capacity), from + 1), to + 1) &&
        Flags() == Pad(old(Flags()), capacity, false)[from := true][to := true] &&
        count == old(count) + (if old(Present(from)) then 0 else 1) +
          (if to == from || old(Present(to)) then 0 else 1)
      ensures forall u, v :: WeightOf(u, v) ==
                 if from >= 0 && to >= 0 && Linked(u, v, from, to) then Finite(weight) else old(WeightOf(u, v))
      ensures rep == AdjacencyList ==>
        forall v :: ListOf(v) ==
          if from >= 0 && to >= 0 && Touched(v, from, to)
          then AdjacencyLists.Put(old(ListOf(v)), Partner(v, from, to), weight)
          else old(ListOf(v))
    {
      if from < 0 || to < 0 {
        return;
      }
      AddEndpoints(from, to);
      if rep == AdjacencyList {
        LinkLists(from, to, weight);
      } else {
        LinkCells(from, to, weight);
      }
    }

    /** graph_remove_edge, list branch. */
    method UnlinkLists(from: int, to: int)
      requires Valid() && rep == AdjacencyList && Present(from) && Present(to)
      modifies lists
      ensures Valid()
      ensures forall u, v :: WeightOf(u, v) == if Linked(u, v, from, to) then NoEdge else old(WeightOf(u, v))
      ensures forall v :: ListOf(v) ==
                 if Touched(v, from, to) then AdjacencyLists.Drop(old(ListOf(v)), Partner(v, from, to))
                 else old(ListOf(v))
    {
      ghost var slots := lists[..];
      SlotsView();
      AdjacencyLists.RemoveEdge(lists, kind == Directed, from, to);
      SlotsDropped(slots, lists[..], present[..], from, to);
      SlotsView();
      assert present[..] == old(present[..]);
    }

    /** The list store read as a sequence of slots: its records and its weights. */
    lemma SlotsView()
      requires rep == AdjacencyList && lists.Length == capacity
      ensures forall v :: ListOf(v) == if 0 <= v < capacity then AdjacencyLists.Records(lists[..][v]) else []
      ensures forall u, v :: WeightOf(u, v) == SlotWeight(lists[..], u, v)
    {
    }

    /**
     * remove_edge on the slots of a valid list store: each touched slot
     * loses the record of its partner, every slot stays in shape, and the
     * removed edge reads GRAPH_NO_EDGE in both directions when undirected.
     */
    lemma SlotsDropped(slots: seq<Option<seq<Edge>>>, after: seq<Option<seq<Edge>>>, flags: seq<bool>, from: int, to: int)
      requires |slots| == |flags| && 0 <= from < |flags| && flags[from] && 0 <= to < |flags| && flags[to]
      requires forall v :: 0 <= v < |slots| ==> SlotOk(slots[v], flags, flags[v])
      requires kind == Directed || from == to ==>
        after == slots[from := AdjacencyLists.DropIn(slots[from], to)]
      requires kind == Undirected && from != to ==>
        after == slots[from := AdjacencyLists.DropIn(slots[from], to)][to := AdjacencyLists.DropIn(slots[to], from)]
      ensures |after| == |slots|
      ensures forall v :: 0 <= v < |after| ==> SlotOk(after[v], flags, flags[v])
      ensures forall v :: 0 <= v < |after| ==>
        AdjacencyLists.Records(after[v]) ==
          if Touched(v, from, to) then AdjacencyLists.Drop(AdjacencyLists.Records(slots[v]), Partner(v, from, to))
          else AdjacencyLists.Records(slots[v])
      ensures forall u, v :: SlotWeight(after, u, v) == if Linked(u, v, from, to) then NoEdge else SlotWeight(slots, u, v)
      ensures kind == Undirected && (forall u, v :: SlotWeight(slots, u, v) == SlotWeight(slots, v, u)) ==>
        forall u, v :: SlotWeight(after, u, v) == SlotWeight(after, v, u)
    {
      forall v | 0 <= v < |after|
        ensures after[v] == if Touched(v, from, to)
          then Some(AdjacencyLists.Drop(AdjacencyLists.Records(slots[v]), Partner(v, from, to)))
          else slots[v]
      {
        assert SlotOk(slots[v], flags, flags[v]);
      }
      forall v | 0 <= v < |after|
        ensures SlotOk(after[v], flags, flags[v])
      {
        assert SlotOk(slots[v], flags, flags[v]);
        if Touched(v, from, to) {
          DropSlotOk(AdjacencyLists.Records(slots[v]), flags, Partner(v, from, to));
        }
      }
      forall u, v
        ensures SlotWeight(after, u, v) == if Linked(u, v, from, to) then NoEdge else SlotWeight(slots, u, v)
      {
        if 0 <= u < |slots| && 0 <= v < |slots| && Touched(u, from, to) {
          assert SlotOk(slots[u], flags, flags[u]);
          AdjacencyLists.DropLookup(AdjacencyLists.Records(slots[u]), Partner(u, from, to), v);
        }
      }
      if kind == Undirected && (forall u, v :: SlotWeight(slots, u, v) == SlotWeight(slots, v, u)) {
        forall u, v
          ensures SlotWeight(after, u, v) == SlotWeight(after, v, u)
        {
          assert SlotWeight(slots, u, v) == SlotWeight(slots, v, u);
          assert Linked(u, v, from, to) == Linked(v, u, from, to);
        }
      }
    }

    /** graph_remove_edge, matrix branch. */
    method UnlinkCells(from: int, to: int)
      requires Valid() && rep == AdjacencyMatrix && Present(from) && Present(to)
      modifies cells
      ensures Valid()
      ensures forall u, v :: WeightOf(u, v) == if Linked(u, v, from, to) then NoEdge else old(WeightOf(u, v))
    {
      AdjacencyMatrices.RemoveEdge(cells, kind == Directed, from, to);
      if kind == Undirected {
        forall u, v
          ensures WeightOf(u, v) == WeightOf(v, u)
        {
          assert old(WeightOf(u, v)) == old(WeightOf(v, u));
          assert Linked(u, v, from, to) == Linked(v, u, from, to);
        }
      }
    }

    /**
     * graph_remove_edge: with an absent endpoint nothing changes; otherwise
     * the edge (from, to), and (to, from) for an undirected graph, is gone
     * and no other edge changes. Vertices stay.
     */
    method RemoveEdge(from: int, to: int)
      requires Valid()
      modifies lists, cells
      ensures Valid()
      ensures forall u, v :: WeightOf(u, v) ==
                 if old(Present(from) && Present(to)) && Linked(u, v, from, to) then NoEdge else old(WeightOf(u, v))
      ensures rep == AdjacencyList ==>
        forall v :: ListOf(v) ==
          if old(Present(from) && Present(to)) && Touched(v, from, to)
          then AdjacencyLists.Drop(old(ListOf(v)), Partner(v, from, to))
          else old(ListOf(v))
    {
      var hasFrom := HasVertex(from);
      var hasTo := HasVertex(to);
      if !hasFrom || !hasTo {
        return;
      }
      if rep == AdjacencyList {
        UnlinkLists(from, to);
      } else {
        UnlinkCells(from, to);
      }
    }

    /** graph_has_edge: both endpoints present and the backend holds a weight. */
    method HasEdge(from: int, to: int) returns (b: bool)
      requires Valid()
      ensures b <==> Present(from) && Present(to) && WeightOf(from, to).Finite?
    {
      var hasFrom := HasVertex(from);
      var hasTo := HasVertex(to);
      if !hasFrom || !hasTo {
        return false;
      }
      if rep == AdjacencyList {
        b := AdjacencyLists.HasEdge(lists, from, to);
      } else {
        b := AdjacencyMatrices.HasEdge(cells, from, to);
      }
    }

    /** graph_get_edge_weight: the stored weight; GRAPH_NO_EDGE for a missing edge or endpoint. */
    method GetEdgeWeight(from: int, to: int) returns (w: Weight)
      requires Valid()
      ensures w == if Present(from) && Present(to) then WeightOf(from, to) else NoEdge
    {
      var hasFrom := HasVertex(from);
      var hasTo := HasVertex(to);
      if !hasFrom || !hasTo {
        return NoEdge;
      }
      if rep == AdjacencyList {
        w := AdjacencyLists.GetEdgeWeight(lists, from, to);
      } else {
        w := AdjacencyMatrices.GetEdgeWeight(cells, from, to);
      }
    }

    /** The targets the view lists for a present vertex are the present ids it has an edge to. */
    lemma NeighborsLinked(v: int)
      requires Valid() && Present(v)
      ensures Sized()
      ensures forall t :: t in Targets(View().out[v]) <==> Present(t) && WeightOf(v, t).Finite?
    {
      ViewWellFormed();
      var n := View();
      TargetsAreArcs(n, v);
      forall t
        ensures Arc(n, v, t) <==> Present(t) && WeightOf(v, t).Finite?
      {
        if !Present(t) {
          EdgesBetweenPresent(v, t);
        }
      }
    }

    /**
     * graph_get_neighbors: nothing for an absent vertex; otherwise the
     * targets of its out-edges in the order the backend keeps them
     * (insertion order for lists, increasing id for the matrix), which are
     * exactly the present ids it has an edge to.
     */
    method GetNeighbors(vertex: int) returns (r: seq<int>)
      requires Valid()
      ensures Sized()
      ensures !Present(vertex) ==> r == []
      ensures Present(vertex) ==> r == Targets(View().out[vertex])
      ensures forall t :: t in r <==> Present(vertex) && Present(t) && WeightOf(vertex, t).Finite?
    {
      var has := HasVertex(vertex);
      if !has {
        return [];
      }
      if rep == AdjacencyList {
        r := AdjacencyLists.GetNeighbors(lists, present, vertex);
        assert SlotOk(lists[vertex], present[..], true);
        AdjacencyLists.LiveTargetsAll(ListOf(vertex), present[..]);
      } else {
        r := AdjacencyMatrices.GetNeighbors(cells, present, vertex);
      }
      NeighborsLinked(vertex);
    }

    /** graph_free's release of the edge lists: every slot ends NULL. */
    method Free()
      modifies lists
      ensures rep == AdjacencyList ==> forall v :: 0 <= v < lists.Length ==> lists[v].None?
    {
      if rep == AdjacencyList {
        AdjacencyLists.FreeEdges(lists);
      }
    }
  }
}
