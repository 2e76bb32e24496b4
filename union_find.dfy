/**
 * The union-find forest graph_mst_kruskal keeps in its parent and rank
 * buffers: uf_find with path compression and uf_union by rank. The buffers
 * are sequences indexed by vertex id; an id that is not in use holds
 * parent -1 and is never consulted. A ghost sequence rep names, for every
 * id in use, the root its chain of parent links ends at: the class the
 * id belongs to.
 */
module UnionFind {
  /**
   * The shape the buffers keep: every id in use points at an id in use of
   * its own class, following a link that is not a self-loop strictly
   * raises the rank, and the representative of every class is a root,
   * its own parent.
   */
  ghost predicate Sound(present: seq<bool>, parent: seq<int>, rank: seq<int>, rep: seq<int>)
  {
    |parent| == |present| && |rank| == |present| && |rep| == |present| &&
    forall v {:trigger parent[v]} :: 0 <= v < |present| ==>
      if present[v] then
        0 <= parent[v] < |present| && present[parent[v]] && rep[parent[v]] == rep[v] &&
        (parent[v] == v ==> rep[v] == v) &&
        (parent[v] != v ==> rank[v] < rank[parent[v]]) &&
        0 <= rep[v] < |present| && present[rep[v]] && parent[rep[v]] == rep[v]
      else
        parent[v] == -1
  }

  /** The roots: the ids in use that are their own parent. */
  ghost function Roots(present: seq<bool>, parent: seq<int>): set<int>
  {
    set v | 0 <= v < |present| && 0 <= v < |parent| && present[v] && parent[v] == v
  }

  /** The ids whose rank exceeds that of v: what a walk towards the root shrinks. */
  ghost function Above(rank: seq<int>, v: int): set<int>
  {
    set u | 0 <= u < |rank| && 0 <= v < |rank| && rank[v] < rank[u]
  }

  lemma AboveShrinks(rank: seq<int>, v: int, p: int)
    requires 0 <= v < |rank| && 0 <= p < |rank| && rank[v] < rank[p]
    ensures Above(rank, p) < Above(rank, v)
  {
    assert p in Above(rank, v);
  }

  /** A representative is a root, and every root represents its own class. */
  lemma RepIsRoot(present: seq<bool>, parent: seq<int>, rank: seq<int>, rep: seq<int>)
    requires Sound(present, parent, rank, rep)
    ensures forall v :: 0 <= v < |present| && present[v] ==> rep[v] in Roots(present, parent)
    ensures forall v :: v in Roots(present, parent) ==> rep[v] == v
  {
    forall v | 0 <= v < |present| && present[v]
      ensures rep[v] in Roots(present, parent)
    {
      var p := parent[v];
      assert 0 <= p < |present|;
    }
    forall v | v in Roots(present, parent)
      ensures rep[v] == v
    {
      assert parent[v] == v;
    }
  }

  /** An id that is not a root lies strictly below the rank of its representative. */
  lemma {:induction false} RankBelowRep(present: seq<bool>, parent: seq<int>, rank: seq<int>, rep: seq<int>, v: int)
    requires Sound(present, parent, rank, rep) && 0 <= v < |present| && present[v] && parent[v] != v
    ensures rank[v] < rank[rep[v]]
    decreases Above(rank, v)
  {
    var p := parent[v];
    if parent[p] != p {
      AboveShrinks(rank, v, p);
      RankBelowRep(present, parent, rank, rep, p);
    }
  }

  /** Pointing a non-root straight at its representative keeps the forest sound, its classes and its roots. */
  lemma Compress(present: seq<bool>, parent: seq<int>, rank: seq<int>, rep: seq<int>, v: int)
    requires Sound(present, parent, rank, rep) && 0 <= v < |present| && present[v] && parent[v] != v
    ensures Sound(present, parent[v := rep[v]], rank, rep)
    ensures Roots(present, parent[v := rep[v]]) == Roots(present, parent)
  {
    RankBelowRep(present, parent, rank, rep, v);
    var parent' := parent[v := rep[v]];
    forall x | 0 <= x < |present|
      ensures parent'[x] == x <==> parent[x] == x
    {
    }
  }

  /**
   * uf_find: the representative of v. On the way back every id on the
   * chain from v is pointed straight at it, which keeps every class and
   * every root.
   */
  method Find(present: seq<bool>, parent: seq<int>, rank: seq<int>, ghost rep: seq<int>, v: int)
    returns (r: int, parent': seq<int>)
    requires Sound(present, parent, rank, rep) && 0 <= v < |present| && present[v]
    ensures r == rep[v]
    ensures Sound(present, parent', rank, rep) && Roots(present, parent') == Roots(present, parent)
    decreases Above(rank, v)
  {
    if parent[v] == v {
      return v, parent;
    }
    AboveShrinks(rank, v, parent[v]);
    var p1;
    r, p1 := Find(present, parent, rank, rep, parent[v]);
    assert v !in Roots(present, parent);
    Compress(present, p1, rank, rep, v);
    parent' := p1[v := r];
  }

  /** The classes after the class of from is merged into that of to. */
  ghost function Relabel(rep: seq<int>, from: int, to: int): (r: seq<int>)
    ensures |r| == |rep| && forall x :: 0 <= x < |rep| ==> r[x] == if rep[x] == from then to else rep[x]
  {
    seq(|rep|, x requires 0 <= x < |rep| => if rep[x] == from then to else rep[x])
  }

  /**
   * Hanging the root loser under the root winner, whose rank is raised to
   * at least above the loser's: the forest stays sound, the two classes
   * become one and loser stops being a root.
   */
  lemma Link(present: seq<bool>, parent: seq<int>, rank: seq<int>, rep: seq<int>, loser: int, winner: int, rank': seq<int>)
    requires Sound(present, parent, rank, rep)
    requires loser in Roots(present, parent) && winner in Roots(present, parent) && loser != winner
    requires |rank'| == |rank| && rank[loser] < rank'[winner] && rank[winner] <= rank'[winner]
    requires forall x :: 0 <= x < |rank| && x != winner ==> rank'[x] == rank[x]
    ensures Sound(present, parent[loser := winner], rank', Relabel(rep, loser, winner))
    ensures Roots(present, parent[loser := winner]) == Roots(present, parent) - {loser}
  {
    LinkSound(present, parent, rank, rep, loser, winner, rank');
    LinkRoots(present, parent, loser, winner);
  }

  lemma LinkSound(present: seq<bool>, parent: seq<int>, rank: seq<int>, rep: seq<int>, loser: int, winner: int, rank': seq<int>)
    requires Sound(present, parent, rank, rep)
    requires loser in Roots(present, parent) && winner in Roots(present, parent) && loser != winner
    requires |rank'| == |rank| && rank[loser] < rank'[winner] && rank[winner] <= rank'[winner]
    requires forall x :: 0 <= x < |rank| && x != winner ==> rank'[x] == rank[x]
    ensures Sound(present, parent[loser := winner], rank', Relabel(rep, loser, winner))
  {
    RepIsRoot(present, parent, rank, rep);
    var parent' := parent[loser := winner];
    var rep' := Relabel(rep, loser, winner);
    forall v | 0 <= v < |present|
      ensures if present[v] then
          0 <= parent'[v] < |present| && present[parent'[v]] && rep'[parent'[v]] == rep'[v] &&
          (parent'[v] == v ==> rep'[v] == v) &&
          (parent'[v] != v ==> rank'[v] < rank'[parent'[v]]) &&
          0 <= rep'[v] < |present| && present[rep'[v]] && parent'[rep'[v]] == rep'[v]
        else
          parent'[v] == -1
    {
      var p := parent[v];
      if v == loser {
        assert rep[v] == v;
      } else if v == winner {
        assert rep[v] == v && parent'[v] == v;
      } else {
        assert parent'[v] == p;
      }
    }
  }

  lemma LinkRoots(present: seq<bool>, parent: seq<int>, loser: int, winner: int)
    requires |parent| == |present| && loser in Roots(present, parent) && winner in Roots(present, parent) && loser != winner
    ensures Roots(present, parent[loser := winner]) == Roots(present, parent) - {loser}
  {
    var parent' := parent[loser := winner];
    forall v | 0 <= v < |present|
      ensures v in Roots(present, parent') <==> v in Roots(present, parent) - {loser}
    {
    }
  }

  /**
   * uf_union: the classes of a and b become one. The root of lower rank
   * is hung under the other; between equal ranks the root of b is hung
   * under that of a, whose rank goes up by one.
   */
  method Union(present: seq<bool>, parent: seq<int>, rank: seq<int>, ghost rep: seq<int>, a: int, b: int)
    returns (parent': seq<int>, rank': seq<int>, ghost rep': seq<int>)
    requires Sound(present, parent, rank, rep)
    requires 0 <= a < |present| && present[a] && 0 <= b < |present| && present[b]
    ensures Sound(present, parent', rank', rep')
    ensures 0 <= rep[a] < |present| && 0 <= rep[b] < |present|
    ensures rep[a] == rep[b] ==> rep' == rep && rank' == rank && Roots(present, parent') == Roots(present, parent)
    ensures rep[a] != rep[b] && rank[rep[a]] < rank[rep[b]] ==>
      rep' == Relabel(rep, rep[a], rep[b]) && rank' == rank &&
      Roots(present, parent') == Roots(present, parent) - {rep[a]}
    ensures rep[a] != rep[b] && rank[rep[a]] > rank[rep[b]] ==>
      rep' == Relabel(rep, rep[b], rep[a]) && rank' == rank &&
      Roots(present, parent') == Roots(present, parent) - {rep[b]}
    ensures rep[a] != rep[b] && rank[rep[a]] == rank[rep[b]] ==>
      rep' == Relabel(rep, rep[b], rep[a]) && rank' == rank[rep[a] := rank[rep[a]] + 1] &&
      Roots(present, parent') == Roots(present, parent) - {rep[b]}
  {
    RepIsRoot(present, parent, rank, rep);
    var ra, p1 := Find(present, parent, rank, rep, a);
    var rb, p2 := Find(present, p1, rank, rep, b);
    if ra == rb {
      return p2, rank, rep;
    }
    if rank[ra] < rank[rb] {
      Link(present, p2, rank, rep, ra, rb, rank);
      parent', rank', rep' := p2[ra := rb], rank, Relabel(rep, ra, rb);
    } else if rank[ra] > rank[rb] {
      Link(present, p2, rank, rep, rb, ra, rank);
      parent', rank', rep' := p2[rb := ra], rank, Relabel(rep, rb, ra);
    } else {
      Link(present, p2, rank, rep, rb, ra, rank[ra := rank[ra] + 1]);
      parent', rank', rep' := p2[rb := ra], rank[ra := rank[ra] + 1], Relabel(rep, rb, ra);
    }
  }

  /**
   * The initial forest of graph_mst_kruskal: every id in use is its own
   * parent with rank 0, every unused id holds -1.
   */
  method MakeSets(present: seq<bool>) returns (parent: seq<int>, rank: seq<int>, ghost rep: seq<int>)
    ensures Sound(present, parent, rank, rep)
    ensures forall v :: 0 <= v < |present| ==> rep[v] == v
    ensures Roots(present, parent) == set v | 0 <= v < |present| && present[v]
  {
    parent, rank, rep := [], [], [];
    var v := 0;
    while v < |present|
      invariant 0 <= v <= |present| && |parent| == v && |rank| == v && |rep| == v
      invariant forall x :: 0 <= x < v ==> parent[x] == (if present[x] then x else -1) && rank[x] == 0 && rep[x] == x
    {
      parent := parent + [if present[v] then v else -1];
      rank := rank + [0];
      rep := rep + [v];
      v := v + 1;
    }
  }
}
