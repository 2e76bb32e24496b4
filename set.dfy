/**
 * set.c: the set facade. A set records its variant (hash or tree), its
 * comparator and hash callbacks, and an implementation it dispatches every
 * operation to. Callbacks are function pointers: a comparator is modelled by
 * its identity alone (element equality and order are those of the integers),
 * a hash callback by its identity and the function it computes. Elements are
 * pointers, modelled as integers; NULL is None.
 */
module Sets {
  import opened Wrappers
  import opened ListSpec
  import HashMap
  import HashSets
  import TreeSets

  /** The set_type enumeration. */
  const SetHash: int := 0
  const SetTree: int := 1

  /** INT_MAX, the clamp on union's capacity hint. */
  const IntMax: int := 0x7fff_ffff

  /** The identities of set_default_ptr_compare and set_default_ptr_hash. */
  const DefaultCompareId: int := 0
  const DefaultHashId: int := 0

  /** A hash callback: which function it is, and what it computes. */
  datatype Hasher = Hasher(id: int, apply: (Option<int>, int) -> int)

  /**
   * set_default_ptr_compare: the sign of the comparison of two addresses,
   * -1, 0 or 1.
   */
  function PtrCompare(a: int, b: int): (r: int)
    ensures -1 <= r <= 1
    ensures r < 0 <==> a < b
    ensures r == 0 <==> a == b
  {
    (if a > b then 1 else 0) - (if a < b then 1 else 0)
  }

  /** Swapping the operands of the default comparator negates its answer. */
  lemma PtrCompareAntisymmetric(a: int, b: int)
    ensures PtrCompare(a, b) == -PtrCompare(b, a)
  {
  }

  /** The mixing steps of set_default_ptr_hash on a 64-bit uintptr_t, wrapping on overflow. */
  function Mix(x: bv64): bv64
  {
    var x1 := x ^ (x >> 16);
    var x2 := x1 * 0x7feb352d;
    var x3 := x2 ^ (x2 >> 15);
    var x4 := x3 * 0x846ca68b;
    x4 ^ (x4 >> 16)
  }

  /**
   * set_default_ptr_hash: 0 for NULL or a capacity that is not positive;
   * otherwise the mixed address reduced modulo the capacity.
   */
  function PtrHash(key: Option<int>, capacity: int): (r: int)
    ensures key.None? || capacity <= 0 ==> r == 0
    ensures capacity > 0 ==> 0 <= r < capacity
  {
    if key.None? || capacity <= 0 then 0
    else (Mix((key.value % 0x1_0000_0000_0000_0000) as bv64) as int) % capacity
  }

  /** The default hash callback. */
  function DefaultHasher(): Hasher
  {
    Hasher(DefaultHashId, PtrHash)
  }

  /** The default hash sends every key to a bucket of any positive capacity. */
  lemma DefaultHashInRange()
    ensures HashMap.HashInRange(DefaultHasher().apply)
  {
    forall k, c | c > 0
      ensures 0 <= DefaultHasher().apply(k, c) < c
    {
      assert DefaultHasher().apply(k, c) == PtrHash(k, c);
    }
  }

  class Set {
    const kind: int
    const cmp: int
    const hash: Option<Hasher>
    const hashImpl: HashSets.HashSet?
    const treeImpl: TreeSets.TreeSet?
    ghost var Elements: set<int>
    ghost var Repr: set<object>

    /**
     * A hash set owns a hash implementation hashing with its callback; a
     * tree set owns a tree implementation and has no hash callback. Either
     * way the implementation holds exactly the elements.
     */
    ghost predicate Valid()
      reads this, Repr
    {
      this in Repr &&
      if kind == SetHash then
        hashImpl != null && treeImpl == null && hash.Some? &&
        hashImpl in Repr && Repr == {this} + hashImpl.Repr && this !in hashImpl.Repr &&
        hashImpl.Valid() && hashImpl.m.hash == hash.value.apply && Elements == hashImpl.Elements
      else
        kind == SetTree && treeImpl != null && hashImpl == null && hash.None? &&
        treeImpl in Repr && Repr == {this} + treeImpl.Repr && this !in treeImpl.Repr &&
        treeImpl.Valid() && Elements == treeImpl.Elements
    }

    /** An empty hash set with the given callbacks and capacity hint. */
    constructor Hash(cmp: int, hasher: Hasher, capacity: int)
      requires HashMap.HashInRange(hasher.apply)
      ensures Valid() && fresh(Repr) && Elements == {}
      ensures kind == SetHash && this.cmp == cmp && hash == Some(hasher)
    {
      kind := SetHash;
      this.cmp := cmp;
      hash := Some(hasher);
      var impl := new HashSets.HashSet(capacity, hasher.apply);
      hashImpl := impl;
      treeImpl := null;
      Elements := {};
      new;
      Repr := {this} + impl.Repr;
    }

    /** An empty tree set with the given comparator. */
    constructor Tree(cmp: int)
      ensures Valid() && fresh(Repr) && Elements == {}
      ensures kind == SetTree && this.cmp == cmp && hash.None?
    {
      kind := SetTree;
      this.cmp := cmp;
      hash := None;
      var impl := new TreeSets.TreeSet();
      hashImpl := null;
      treeImpl := impl;
      Elements := {};
      new;
      Repr := {this} + impl.Repr;
    }

    /** ops->add: adds a new element and says whether it was new. */
    method Add(e: Option<int>) returns (r: bool)
      requires Valid()
      modifies Repr
      ensures Valid() && fresh(Repr - old(Repr))
      ensures r <==> e.Some? && e.value !in old(Elements)
      ensures Elements == if e.Some? then old(Elements) + {e.value} else old(Elements)
    {
      if kind == SetHash {
        r := hashImpl.Add(e);
        Repr := {this} + hashImpl.Repr;
      } else {
        r := treeImpl.Add(e);
      }
      Elements := if e.Some? then Elements + {e.value} else Elements;
    }

    /** ops->contains. */
    method Contains(e: Option<int>) returns (r: bool)
      requires Valid()
      ensures r <==> e.Some? && e.value in Elements
    {
      if kind == SetHash {
        r := hashImpl.Contains(e);
      } else {
        r := treeImpl.Contains(e);
      }
    }

    /** ops->remove: removes an element and says whether it was there. */
    method Remove(e: Option<int>) returns (r: bool)
      requires Valid()
      modifies Repr
      ensures Valid() && Repr == old(Repr)
      ensures r <==> e.Some? && e.value in old(Elements)
      ensures Elements == if e.Some? then old(Elements) - {e.value} else old(Elements)
    {
      if kind == SetHash {
        r := hashImpl.Remove(e);
      } else {
        r := treeImpl.Remove(e);
      }
      Elements := if e.Some? then Elements - {e.value} else Elements;
    }

    /** ops->size. */
    method Size() returns (n: int)
      requires Valid()
      ensures n == |Elements|
    {
      if kind == SetHash {
        n := hashImpl.Size();
      } else {
        n := treeImpl.Size();
      }
    }

    /** ops->to_list: every element once; ascending for a tree set. */
    method ToList() returns (r: seq<int>)
      requires Valid()
      ensures Distinct(r) && |r| == |Elements|
      ensures forall x :: x in r <==> x in Elements
      ensures kind == SetTree ==> forall i, j :: 0 <= i < j < |r| ==> r[i] < r[j]
    {
      if kind == SetHash {
        r := hashImpl.ToList();
      } else {
        r := treeImpl.ToList();
      }
    }
  }

  /**
   * create_set_with_capacity: a hash set takes the default callbacks when
   * given neither and is refused when given only one; a tree set takes the
   * default comparator when given none and drops the hash callback; any
   * other variant is refused.
   */
  method CreateWithCapacity(kind: int, cmp: Option<int>, hash: Option<Hasher>, capacity: int) returns (s: Set?)
    requires hash.Some? ==> HashMap.HashInRange(hash.value.apply)
    ensures s == null <==> !(kind == SetTree || (kind == SetHash && cmp.Some? == hash.Some?))
    ensures s != null ==> fresh(s.Repr) && s.Valid() && s.Elements == {} && s.kind == kind
    ensures s != null ==> s.cmp == if cmp.Some? then cmp.value else DefaultCompareId
    ensures s != null && kind == SetHash ==> s.hash == if hash.Some? then hash else Some(DefaultHasher())
    ensures s != null && kind == SetTree ==> s.hash.None?
  {
    if kind == SetHash {
      if cmp.None? && hash.None? {
        DefaultHashInRange();
        s := new Set.Hash(DefaultCompareId, DefaultHasher(), capacity);
      } else if cmp.None? || hash.None? {
        s := null;
      } else {
        s := new Set.Hash(cmp.value, hash.value, capacity);
      }
    } else if kind == SetTree {
      s := new Set.Tree(if cmp.Some? then cmp.value else DefaultCompareId);
    } else {
      s := null;
    }
  }

  /** create_set: create_set_with_capacity with no capacity hint. */
  method CreateSet(kind: int, cmp: Option<int>, hash: Option<Hasher>) returns (s: Set?)
    requires hash.Some? ==> HashMap.HashInRange(hash.value.apply)
    ensures s == null <==> !(kind == SetTree || (kind == SetHash && cmp.Some? == hash.Some?))
    ensures s != null ==> fresh(s.Repr) && s.Valid() && s.Elements == {} && s.kind == kind
    ensures s != null ==> s.cmp == if cmp.Some? then cmp.value else DefaultCompareId
    ensures s != null && kind == SetHash ==> s.hash == if hash.Some? then hash else Some(DefaultHasher())
    ensures s != null && kind == SetTree ==> s.hash.None?
  {
    s := CreateWithCapacity(kind, cmp, hash, 0);
  }

  /** set_add: false for a NULL set or element, otherwise the variant's add. */
  method SetAdd(s: Set?, e: Option<int>) returns (r: bool)
    requires s != null ==> s.Valid()
    modifies if s != null then s.Repr else {}
    ensures s != null ==> s.Valid() && fresh(s.Repr - old(s.Repr))
    ensures r <==> s != null && e.Some? && e.value !in old(s.Elements)
    ensures s != null ==> s.Elements == if e.Some? then old(s.Elements) + {e.value} else old(s.Elements)
  {
    if s == null || e.None? {
      return false;
    }
    r := s.Add(e);
  }

  /** set_contains: false for a NULL set or element. */
  method SetContains(s: Set?, e: Option<int>) returns (r: bool)
    requires s != null ==> s.Valid()
    ensures r <==> s != null && e.Some? && e.value in s.Elements
  {
    if s == null || e.None? {
      return false;
    }
    r := s.Contains(e);
  }

  /** set_remove: false for a NULL set or element, otherwise the variant's remove. */
  method SetRemove(s: Set?, e: Option<int>) returns (r: bool)
    requires s != null ==> s.Valid()
    modifies if s != null then s.Repr else {}
    ensures s != null ==> s.Valid() && s.Repr == old(s.Repr)
    ensures r <==> s != null && e.Some? && e.value in old(s.Elements)
    ensures s != null ==> s.Elements == if e.Some? then old(s.Elements) - {e.value} else old(s.Elements)
  {
    if s == null || e.None? {
      return false;
    }
    r := s.Remove(e);
  }

  /** set_size: 0 for a NULL set. */
  method SetSize(s: Set?) returns (n: int)
    requires s != null ==> s.Valid()
    ensures n == if s == null then 0 else |s.Elements|
  {
    if s == null {
      return 0;
    }
    n := s.Size();
  }

  /** set_to_list: no list for a NULL set; a tree set lists in ascending order. */
  method SetToList(s: Set?) returns (r: Option<seq<int>>)
    requires s != null ==> s.Valid()
    ensures r.None? <==> s == null
    ensures r.Some? ==> Distinct(r.value) && forall x :: x in r.value <==> x in s.Elements
    ensures r.Some? && s.kind == SetTree ==> forall i, j :: 0 <= i < j < |r.value| ==> r.value[i] < r.value[j]
  {
    if s == null {
      return None;
    }
    var l := s.ToList();
    r := Some(l);
  }

  /**
   * sets_are_compatible: both sets exist, share the comparator, share the
   * hash callback when either has one, and are of the same variant.
   */
  predicate Compatible(a: Set?, b: Set?)
  {
    a != null && b != null && a.cmp == b.cmp &&
    (a.hash.Some? || b.hash.Some? ==> a.hash.Some? && b.hash.Some? && a.hash.value.id == b.hash.value.id) &&
    a.kind == b.kind
  }

  /**
   * create_set_with_capacity as the set algebra calls it, with a's variant
   * and callbacks, which a compatible partner shares: always a set.
   */
  method CreateLike(a: Set, capacity: int) returns (out: Set)
    requires a.Valid()
    ensures fresh(out.Repr) && out.Valid() && out.Elements == {}
    ensures out.kind == a.kind && out.cmp == a.cmp
  {
    var s := CreateWithCapacity(a.kind, Some(a.cmp), a.hash, capacity);
    out := s;
  }

  /** set_to_list as the set algebra uses it: a list of exactly the elements. */
  method ListOf(s: Set) returns (l: seq<int>)
    requires s.Valid()
    ensures forall x :: x in l <==> x in s.Elements
  {
    l := s.ToList();
  }

  /** The elements of a list, as a set. */
  ghost function ListedSet(l: seq<int>): (r: set<int>)
    ensures forall x :: x in r <==> x in l
  {
    set x | x in l
  }

  lemma ListedStep(l: seq<int>, i: int)
    requires 0 <= i < |l|
    ensures ListedSet(l[..i + 1]) == ListedSet(l[..i]) + {l[i]}
  {
    assert l[..i + 1] == l[..i] + [l[i]];
  }

  /**
   * E holds the elements of E0 and the listed elements whose membership in
   * keep is the wanted one, and nothing else.
   */
  ghost predicate Gathered(E: set<int>, E0: set<int>, l: seq<int>, keep: set<int>, wanted: bool)
  {
    forall x :: x in E <==> x in E0 || (x in l && (x in keep) == wanted)
  }

  lemma GatheredStep(E0: set<int>, E: set<int>, E': set<int>, l: seq<int>, i: int, keep: set<int>, wanted: bool)
    requires 0 <= i < |l| && Gathered(E, E0, l[..i], keep, wanted)
    requires E' == E + if (l[i] in keep) == wanted then {l[i]} else {}
    ensures Gathered(E', E0, l[..i + 1], keep, wanted)
  {
    assert l[..i + 1] == l[..i] + [l[i]];
  }

  /** The loop of set_union over one listed operand: every listed element is added to out. */
  method AddAll(out: Set, l: seq<int>)
    requires out.Valid()
    modifies out.Repr
    ensures out.Valid() && fresh(out.Repr - old(out.Repr))
    ensures forall x :: x in out.Elements <==> x in old(out.Elements) || x in l
  {
    var i := 0;
    while i < |l|
      invariant 0 <= i <= |l|
      invariant out.Valid() && fresh(out.Repr - old(out.Repr))
      invariant out.Elements == old(out.Elements) + ListedSet(l[..i])
    {
      ListedStep(l, i);
      var added := out.Add(Some(l[i]));
      i := i + 1;
    }
    assert l[..i] == l;
  }

  /** The two loops of set_union: the elements of both lists are added to out, a's first. */
  method AddBoth(out: Set, la: seq<int>, lb: seq<int>)
    requires out.Valid()
    modifies out.Repr
    ensures out.Valid() && fresh(out.Repr - old(out.Repr))
    ensures forall x :: x in out.Elements <==> x in old(out.Elements) || x in la || x in lb
  {
    AddAll(out, la);
    AddAll(out, lb);
  }

  /**
   * One round of the loops of set_intersection (wanted true) and
   * set_difference (wanted false): e is added to out when other's answer
   * to contains is the wanted one.
   */
  method AddWhen(out: Set, e: int, other: Set, ghost others: set<int>, wanted: bool)
    requires out.Valid() && other.Valid() && out.Repr !! other.Repr && other.Elements == others
    modifies out.Repr
    ensures out.Valid() && fresh(out.Repr - old(out.Repr)) && out.Repr !! other.Repr && other.Elements == others
    ensures out.Elements == old(out.Elements) + if (e in others) == wanted then {e} else {}
  {
    var present := other.Contains(Some(e));
    if present == wanted {
      var added := out.Add(Some(e));
    }
  }

  /**
   * The loop of set_intersection: the listed elements that other contains
   * are added to out.
   */
  method AddCommon(out: Set, l: seq<int>, other: Set)
    requires out.Valid() && other.Valid() && out.Repr !! other.Repr
    modifies out.Repr
    ensures out.Valid() && fresh(out.Repr - old(out.Repr))
    ensures forall x :: x in out.Elements <==> x in old(out.Elements) || (x in l && x in other.Elements)
  {
    ghost var others := other.Elements;
    var i := 0;
    while i < |l|
      invariant 0 <= i <= |l|
      invariant out.Valid() && fresh(out.Repr - old(out.Repr)) && out.Repr !! other.Repr && other.Elements == others
      invariant Gathered(out.Elements, old(out.Elements), l[..i], others, true)
    {
      ghost var before := out.Elements;
      AddWhen(out, l[i], other, others, true);
      GatheredStep(old(out.Elements), before, out.Elements, l, i, others, true);
      i := i + 1;
    }
    assert l[..i] == l;
  }

  /** The loop of set_difference: the listed elements that other lacks are added to out. */
  method AddMissing(out: Set, l: seq<int>, other: Set)
    requires out.Valid() && other.Valid() && out.Repr !! other.Repr
    modifies out.Repr
    ensures out.Valid() && fresh(out.Repr - old(out.Repr))
    ensures forall x :: x in out.Elements <==> x in old(out.Elements) || (x in l && x !in other.Elements)
  {
    ghost var others := other.Elements;
    var i := 0;
    while i < |l|
      invariant 0 <= i <= |l|
      invariant out.Valid() && fresh(out.Repr - old(out.Repr)) && out.Repr !! other.Repr && other.Elements == others
      invariant Gathered(out.Elements, old(out.Elements), l[..i], others, false)
    {
      ghost var before := out.Elements;
      AddWhen(out, l[i], other, others, false);
      GatheredStep(old(out.Elements), before, out.Elements, l, i, others, false);
      i := i + 1;
    }
    assert l[..i] == l;
  }

  /**
   * The creation step of set_union: a set like a, with the sum of the two
   * sizes, clamped to INT_MAX, as capacity hint.
   */
  method CreateForUnion(a: Set, b: Set) returns (out: Set)
    requires a.Valid() && b.Valid()
    ensures fresh(out.Repr) && out.Valid() && out.Elements == {}
    ensures out.kind == a.kind && out.cmp == a.cmp
  {
    var sizeA := a.Size();
    var sizeB := b.Size();
    var cap := if sizeA + sizeB > IntMax then IntMax else sizeA + sizeB;
    out := CreateLike(a, cap);
  }

  /** The body of set_union once the sets are known compatible. */
  method UnionOf(a: Set, b: Set) returns (out: Set)
    requires a.Valid() && b.Valid()
    ensures fresh(out.Repr) && out.Valid() && out.Elements == a.Elements + b.Elements
    ensures out.kind == a.kind && out.cmp == a.cmp
  {
    ghost var elementsA, elementsB := a.Elements, b.Elements;
    var la := ListOf(a);
    var lb := ListOf(b);
    out := CreateForUnion(a, b);
    AddBoth(out, la, lb);
    assert forall x :: x in out.Elements <==> x in elementsA || x in elementsB;
  }

  /** set_union: NULL for incompatible sets, otherwise a new set holding the elements of both. */
  method Union(a: Set?, b: Set?) returns (out: Set?)
    requires a != null ==> a.Valid()
    requires b != null ==> b.Valid()
    ensures out == null <==> !Compatible(a, b)
    ensures out != null ==> fresh(out.Repr) && out.Valid() && out.Elements == a.Elements + b.Elements
    ensures out != null ==> out.kind == a.kind && out.cmp == a.cmp
  {
    if !Compatible(a, b) {
      return null;
    }
    out := UnionOf(a, b);
  }

  /** The choice in set_intersection: iterate over b only when it is strictly smaller than a. */
  method OrderBySize(a: Set, b: Set) returns (iter: Set, other: Set)
    requires a.Valid() && b.Valid()
    ensures (iter == a && other == b && |a.Elements| <= |b.Elements|) ||
            (iter == b && other == a && |b.Elements| < |a.Elements|)
    ensures iter.Valid() && other.Valid() && iter.Elements * other.Elements == a.Elements * b.Elements
  {
    iter, other := a, b;
    var sizeA := a.Size();
    var sizeB := b.Size();
    if sizeB < sizeA {
      iter, other := b, a;
    }
  }

  /** The creation step of set_intersection and set_difference: a set like a, sized like from. */
  method CreateSized(a: Set, from: Set) returns (out: Set)
    requires a.Valid() && from.Valid()
    ensures fresh(out.Repr) && out.Valid() && out.Elements == {}
    ensures out.kind == a.kind && out.cmp == a.cmp
  {
    var cap := from.Size();
    out := CreateLike(a, cap);
  }

  /**
   * The rest of set_intersection: a set like a, sized like iter, receiving
   * each element of iter that other contains.
   */
  method CommonOf(a: Set, iter: Set, other: Set) returns (out: Set)
    requires a.Valid() && iter.Valid() && other.Valid()
    ensures fresh(out.Repr) && out.Valid() && out.Elements == iter.Elements * other.Elements
    ensures out.kind == a.kind && out.cmp == a.cmp
  {
    ghost var both := iter.Elements * other.Elements;
    var li := ListOf(iter);
    out := CreateSized(a, iter);
    AddCommon(out, li, other);
    assert forall x :: x in out.Elements <==> x in both;
  }

  /** The body of set_intersection once the sets are known compatible. */
  method IntersectionOf(a: Set, b: Set) returns (out: Set)
    requires a.Valid() && b.Valid()
    ensures fresh(out.Repr) && out.Valid() && out.Elements == a.Elements * b.Elements
    ensures out.kind == a.kind && out.cmp == a.cmp
  {
    var iter, other := OrderBySize(a, b);
    out := CommonOf(a, iter, other);
  }

  /** set_intersection: NULL for incompatible sets, otherwise a new set of the elements in both. */
  method Intersection(a: Set?, b: Set?) returns (out: Set?)
    requires a != null ==> a.Valid()
    requires b != null ==> b.Valid()
    ensures out == null <==> !Compatible(a, b)
    ensures out != null ==> fresh(out.Repr) && out.Valid() && out.Elements == a.Elements * b.Elements
    ensures out != null ==> out.kind == a.kind && out.cmp == a.cmp
  {
    if !Compatible(a, b) {
      return null;
    }
    out := IntersectionOf(a, b);
  }

  /** The body of set_difference once the sets are known compatible. */
  method DifferenceOf(a: Set, b: Set) returns (out: Set)
    requires a.Valid() && b.Valid()
    ensures fresh(out.Repr) && out.Valid() && out.Elements == a.Elements - b.Elements
    ensures out.kind == a.kind && out.cmp == a.cmp
  {
    ghost var elementsA, elementsB := a.Elements, b.Elements;
    var la := ListOf(a);
    out := CreateSized(a, a);
    AddMissing(out, la, b);
    assert forall x :: x in out.Elements <==> x in elementsA && x !in elementsB;
  }

  /** set_difference: NULL for incompatible sets, otherwise a new set of the elements of a not in b. */
  method Difference(a: Set?, b: Set?) returns (out: Set?)
    requires a != null ==> a.Valid()
    requires b != null ==> b.Valid()
    ensures out == null <==> !Compatible(a, b)
    ensures out != null ==> fresh(out.Repr) && out.Valid() && out.Elements == a.Elements - b.Elements
    ensures out != null ==> out.kind == a.kind && out.cmp == a.cmp
  {
    if !Compatible(a, b) {
      return null;
    }
    out := DifferenceOf(a, b);
  }

  /** set_is_subset: false for incompatible sets, otherwise whether b contains every element of a. */
  method IsSubset(a: Set?, b: Set?) returns (r: bool)
    requires a != null ==> a.Valid()
    requires b != null ==> b.Valid()
    ensures r <==> Compatible(a, b) && a.Elements <= b.Elements
  {
    if !Compatible(a, b) {
      return false;
    }
    var la := ListOf(a);
    ghost var elementsA, elementsB := a.Elements, b.Elements;
    r := true;
    var i := 0;
    while i < |la|
      invariant 0 <= i <= |la|
      invariant r
      invariant forall j :: 0 <= j < i ==> la[j] in elementsB
      invariant forall x :: x in la <==> x in elementsA
    {
      var present := b.Contains(Some(la[i]));
      if !present {
        assert la[i] in la;
        r := false;
        return;
      }
      i := i + 1;
    }
    assert forall x :: x in elementsA ==> exists j :: 0 <= j < |la| && la[j] == x;
  }
}
