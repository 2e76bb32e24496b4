/**
 * The bookkeeping behind sorter_quick's explicit stack. The stack holds
 * (low, high) pairs of segments that still have to be partitioned; they lie
 * in ascending order with at least one settled position between neighbours.
 * Every pair of positions that is out of order lies inside one pending
 * segment, so an empty stack means a sorted list.
 */
module QuickSortSegments {
  import opened ListSpec

  datatype Segment = Segment(lo: int, hi: int)

  /** The number of positions a segment covers. */
  function Width(g: Segment): nat
  {
    if g.hi >= g.lo then g.hi - g.lo + 1 else 0
  }

  /** The number of positions all pending segments cover. */
  function TotalWidth(segs: seq<Segment>): nat
  {
    if segs == [] then 0 else TotalWidth(segs[..|segs| - 1]) + Width(segs[|segs| - 1])
  }

  lemma TotalWidthAppend(segs: seq<Segment>, g: Segment)
    ensures TotalWidth(segs + [g]) == TotalWidth(segs) + Width(g)
  {
    assert (segs + [g])[..|segs|] == segs;
  }

  /**
   * Segments inside [0, n), each non-empty, pairwise ascending with a gap of
   * at least one position, and the k-th starting at or after 2k (which is
   * what keeps the stack within 2n ints).
   */
  ghost predicate WellFormed(segs: seq<Segment>, n: int)
  {
    (forall k :: 0 <= k < |segs| ==> 0 <= segs[k].lo <= segs[k].hi < n) &&
    (forall k :: 0 <= k < |segs| ==> segs[k].lo >= 2 * k) &&
    (forall k1, k2 :: 0 <= k1 < k2 < |segs| ==> segs[k1].hi + 2 <= segs[k2].lo)
  }

  /** Positions i and j lie in one pending segment. */
  ghost predicate SameSegment(segs: seq<Segment>, i: int, j: int)
  {
    exists k :: 0 <= k < |segs| && segs[k].lo <= i && j <= segs[k].hi
  }

  /** Every out-of-order pair lies inside one pending segment. */
  ghost predicate SortedOutside<T>(a: seq<T>, key: T -> int, segs: seq<Segment>)
  {
    forall i, j :: 0 <= i < j < |a| && !SameSegment(segs, i, j) ==> key(a[i]) <= key(a[j])
  }

  /** With nothing pending, SortedOutside is plain sortedness. */
  lemma NothingPendingIsSorted<T>(a: seq<T>, key: T -> int)
    requires SortedOutside(a, key, [])
    ensures SortedBy(a, key)
  {
    forall i, j | 0 <= i < j < |a| ensures key(a[i]) <= key(a[j]) {
      assert !SameSegment([], i, j);
    }
  }

  /** Before the first partition the whole list is one pending segment. */
  lemma WholeListPending<T>(a: seq<T>, key: T -> int)
    requires |a| > 0
    ensures SortedOutside(a, key, [Segment(0, |a| - 1)])
    ensures WellFormed([Segment(0, |a| - 1)], |a|)
  {
    var segs := [Segment(0, |a| - 1)];
    forall i, j | 0 <= i < j < |a| ensures SameSegment(segs, i, j) {
      assert segs[0] == Segment(0, |a| - 1);
    }
  }

  /** The segments sorter_quick pushes after partitioning the top segment at p. */
  function AfterPartition(segs: seq<Segment>, p: int): (r: seq<Segment>)
    requires segs != []
    ensures |r| <= |segs| + 1
  {
    var low := segs[|segs| - 1].lo;
    var high := segs[|segs| - 1].hi;
    segs[..|segs| - 1]
      + (if p - 1 > low then [Segment(low, p - 1)] else [])
      + (if p + 1 < high then [Segment(p + 1, high)] else [])
  }

  /** Partition facts: the pivot at p splits [low, high] into not-greater and greater items. */
  ghost predicate PartitionedAt<T>(a: seq<T>, key: T -> int, low: int, high: int, p: int)
  {
    0 <= low <= p <= high < |a| &&
    (forall k :: low <= k < p ==> key(a[k]) <= key(a[p])) &&
    (forall k :: p < k <= high ==> key(a[k]) > key(a[p]))
  }

  /** b is a with only the positions in [low, high] rearranged. */
  ghost predicate RearrangedWithin<T>(a: seq<T>, b: seq<T>, low: int, high: int)
  {
    0 <= low <= high < |a| == |b| &&
    (forall k :: 0 <= k < |a| && (k < low || high < k) ==> b[k] == a[k]) &&
    multiset(b[low..high + 1]) == multiset(a[low..high + 1])
  }

  /** Every item of the rearranged range was somewhere in the range before. */
  lemma RearrangedFrom<T>(a: seq<T>, b: seq<T>, low: int, high: int, j: int)
    requires RearrangedWithin(a, b, low, high) && low <= j <= high
    ensures exists j' :: low <= j' <= high && a[j'] == b[j]
  {
    assert b[low..high + 1][j - low] == b[j];
    assert b[j] in multiset(a[low..high + 1]);
    var j' :| 0 <= j' < |a[low..high + 1]| && a[low..high + 1][j'] == b[j];
    assert a[low + j'] == b[j];
  }

  /** The last swap of sorter_partition moves the pivot from high to i + 1, between the two sides. */
  lemma PivotLands<T>(s0: seq<T>, s: seq<T>, key: T -> int, low: int, high: int, i: int)
    requires RearrangedWithin(s0, s, low, high) && low - 1 <= i < high
    requires forall k :: low <= k <= i ==> key(s[k]) <= key(s[high])
    requires forall k :: i < k < high ==> key(s[k]) > key(s[high])
    ensures RearrangedWithin(s0, s[i + 1 := s[high]][high := s[i + 1]], low, high)
    ensures PartitionedAt(s[i + 1 := s[high]][high := s[i + 1]], key, low, high, i + 1)
  {
    SwapRearranges(s0, s, low, high, i + 1, high);
  }

  /** Exchanging two positions of the range keeps it a rearrangement. */
  lemma SwapRearranges<T>(a: seq<T>, b: seq<T>, low: int, high: int, x: int, y: int)
    requires RearrangedWithin(a, b, low, high) && low <= x <= high && low <= y <= high
    ensures RearrangedWithin(a, b[x := b[y]][y := b[x]], low, high)
  {
    var c := b[x := b[y]][y := b[x]];
    var w := b[low..high + 1];
    var w2 := w[x - low := w[y - low]][y - low := w[x - low]];
    SwapInside(b, low, high, x, y);
    SwapMultiset(w, x - low, y - low);
    assert c[low..high + 1] == w2;
    assert multiset(w2) == multiset(w) == multiset(a[low..high + 1]);
    SwapOutside(a, b, low, high, x, y);
  }

  /** A swap inside the range leaves the positions outside it as they were in a. */
  lemma SwapOutside<T>(a: seq<T>, b: seq<T>, low: int, high: int, x: int, y: int)
    requires |a| == |b| && low <= x <= high && low <= y <= high && 0 <= x < |b| && 0 <= y < |b|
    requires forall k :: 0 <= k < |a| && (k < low || high < k) ==> b[k] == a[k]
    ensures forall k :: 0 <= k < |a| && (k < low || high < k) ==> b[x := b[y]][y := b[x]][k] == a[k]
  {
  }

  /** The range of a sequence after a swap inside it is the range with the swap applied. */
  lemma SwapInside<T>(b: seq<T>, low: int, high: int, x: int, y: int)
    requires 0 <= low <= x <= high < |b| && low <= y <= high
    ensures var w := b[low..high + 1];
      b[x := b[y]][y := b[x]][low..high + 1] == w[x - low := w[y - low]][y - low := w[x - low]]
  {
    var c, w := b[x := b[y]][y := b[x]], b[low..high + 1];
    var w2 := w[x - low := w[y - low]][y - low := w[x - low]];
    forall k | 0 <= k < |w2|
      ensures c[low..high + 1][k] == w2[k]
    {
    }
  }

  /** A rearrangement within a range keeps the items of the whole sequence. */
  lemma RearrangedKeepsItems<T>(a: seq<T>, b: seq<T>, low: int, high: int)
    requires RearrangedWithin(a, b, low, high)
    ensures multiset(b) == multiset(a)
  {
    assert a == a[..low] + a[low..high + 1] + a[high + 1..];
    assert b == b[..low] + b[low..high + 1] + b[high + 1..];
    assert a[..low] == b[..low];
    assert a[high + 1..] == b[high + 1..];
  }

  /** Partitioning and pushing keeps the segments well formed and within the stack's 2n ints. */
  lemma {:induction false} AfterPartitionWellFormed(segs: seq<Segment>, n: int, p: int)
    requires WellFormed(segs, n) && segs != []
    requires segs[|segs| - 1].lo <= p <= segs[|segs| - 1].hi
    ensures WellFormed(AfterPartition(segs, p), n)
    ensures 2 * |AfterPartition(segs, p)| <= 2 * n
  {
    var last := segs[|segs| - 1];
    var prefix := segs[..|segs| - 1];
    var left := if p - 1 > last.lo then [Segment(last.lo, p - 1)] else [];
    var right := if p + 1 < last.hi then [Segment(p + 1, last.hi)] else [];
    var r := AfterPartition(segs, p);
    assert r == prefix + left + right;
    forall k | 0 <= k < |r| ensures 0 <= r[k].lo <= r[k].hi < n && r[k].lo >= 2 * k {
      if k >= |prefix| {
        assert last.lo >= 2 * |prefix|;
      }
    }
    forall k1, k2 | 0 <= k1 < k2 < |r| ensures r[k1].hi + 2 <= r[k2].lo {
      if k2 >= |prefix| && k1 < |prefix| {
        assert segs[k1].hi + 2 <= last.lo;
      }
    }
    if |r| > 0 {
      assert r[|r| - 1].lo >= 2 * (|r| - 1) && r[|r| - 1].hi < n;
    }
  }

  /** Partitioning and pushing shrinks the number of pending positions (the pivot is settled). */
  lemma AfterPartitionShrinks(segs: seq<Segment>, p: int)
    requires segs != [] && segs[|segs| - 1].lo <= p <= segs[|segs| - 1].hi
    ensures TotalWidth(AfterPartition(segs, p)) < TotalWidth(segs)
  {
    var last := segs[|segs| - 1];
    var prefix := segs[..|segs| - 1];
    var pushed := (if p - 1 > last.lo then [Segment(last.lo, p - 1)] else [])
      + (if p + 1 < last.hi then [Segment(p + 1, last.hi)] else []);
    assert AfterPartition(segs, p) == prefix + pushed;
    TotalWidthConcat(prefix, pushed);
    PushedNarrower(last, p);
  }

  /** The pending positions of two stacked runs of segments add up. */
  lemma {:induction false} TotalWidthConcat(a: seq<Segment>, b: seq<Segment>)
    ensures TotalWidth(a + b) == TotalWidth(a) + TotalWidth(b)
    decreases |b|
  {
    if b == [] {
      assert a + b == a;
    } else {
      var b' := b[..|b| - 1];
      assert (a + b)[..|a + b| - 1] == a + b';
      TotalWidthConcat(a, b');
    }
  }

  /** The segments pushed on each side of the pivot cover fewer positions than the one popped. */
  lemma PushedNarrower(last: Segment, p: int)
    requires last.lo <= p <= last.hi
    ensures TotalWidth((if p - 1 > last.lo then [Segment(last.lo, p - 1)] else [])
      + (if p + 1 < last.hi then [Segment(p + 1, last.hi)] else [])) < Width(last)
  {
    var left, right := Segment(last.lo, p - 1), Segment(p + 1, last.hi);
    assert TotalWidth([left]) == Width(left) && TotalWidth([right]) == Width(right);
    assert [left, right][..1] == [left];
    assert TotalWidth([left, right]) == Width(left) + Width(right);
    assert [] + [left] == [left] && [right] + [] == [right] && [left] + [right] == [left, right];
  }

  /** A pair that is not in one segment after the step was not in one segment before, unless it lies in the top one. */
  lemma SameSegmentBefore(segs: seq<Segment>, p: int, i: int, j: int)
    requires segs != [] && !SameSegment(AfterPartition(segs, p), i, j)
    requires i < segs[|segs| - 1].lo || segs[|segs| - 1].hi < j
    ensures !SameSegment(segs, i, j)
  {
    var r := AfterPartition(segs, p);
    forall k | 0 <= k < |segs| ensures !(segs[k].lo <= i && j <= segs[k].hi) {
      if k < |segs| - 1 {
        assert r[k] == segs[k];
      }
    }
  }

  /** A position of the top segment and one outside it never share a segment. */
  lemma OutsideTop(segs: seq<Segment>, n: int, i: int, j: int)
    requires WellFormed(segs, n) && segs != []
    requires var t := segs[|segs| - 1]; (i < t.lo && t.lo <= j <= t.hi) || (t.lo <= i <= t.hi && t.hi < j)
    ensures !SameSegment(segs, i, j)
  {
    forall k | 0 <= k < |segs| ensures !(segs[k].lo <= i && j <= segs[k].hi) {
      if k < |segs| - 1 {
        assert segs[k].hi + 2 <= segs[|segs| - 1].lo;
      }
    }
  }

  /** Positions on the same side of the pivot share one of the pushed segments. */
  lemma SameSideShares(segs: seq<Segment>, p: int, i: int, j: int)
    requires segs != []
    requires var t := segs[|segs| - 1]; (t.lo <= i < j < p) || (p < i < j <= t.hi)
    ensures SameSegment(AfterPartition(segs, p), i, j)
  {
    var t := segs[|segs| - 1];
    var prefix := segs[..|segs| - 1];
    var r := AfterPartition(segs, p);
    if i < p {
      assert r[|prefix|] == Segment(t.lo, p - 1);
    } else {
      var left := if p - 1 > t.lo then [Segment(t.lo, p - 1)] else [];
      assert r[|prefix| + |left|] == Segment(p + 1, t.hi);
    }
  }

  /**
   * One iteration of sorter_quick: partitioning the top segment (a
   * rearrangement of its range around a pivot at p) and pushing the two sides
   * keeps every out-of-order pair inside a pending segment.
   */
  lemma {:induction false} PartitionStep<T>(a: seq<T>, b: seq<T>, key: T -> int, segs: seq<Segment>, p: int)
    requires WellFormed(segs, |a|) && segs != []
    requires SortedOutside(a, key, segs)
    requires RearrangedWithin(a, b, segs[|segs| - 1].lo, segs[|segs| - 1].hi)
    requires PartitionedAt(b, key, segs[|segs| - 1].lo, segs[|segs| - 1].hi, p)
    ensures SortedOutside(b, key, AfterPartition(segs, p))
  {
    var low, high := segs[|segs| - 1].lo, segs[|segs| - 1].hi;
    forall i, j | 0 <= i < j < |b| && !SameSegment(AfterPartition(segs, p), i, j)
      ensures key(b[i]) <= key(b[j])
    {
      if i < low || high < j {
        if low <= j <= high {
          RearrangedFrom(a, b, low, high, j);
          var j' :| low <= j' <= high && a[j'] == b[j];
          OutsideTop(segs, |a|, i, j');
        } else if low <= i <= high {
          RearrangedFrom(a, b, low, high, i);
          var i' :| low <= i' <= high && a[i'] == b[i];
          OutsideTop(segs, |a|, i', j);
        } else {
          SameSegmentBefore(segs, p, i, j);
        }
      } else if i < p && p < j {
        assert key(b[i]) <= key(b[p]) < key(b[j]);
      } else if i < j < p || p < i < j {
        SameSideShares(segs, p, i, j);
      }
    }
  }

  /**
   * One round of the quicksort loop: partitioning the top segment and pushing
   * its two sides keeps the items, keeps the segments well formed and the
   * items outside them in order, fits the stack, and shrinks the pending width.
   */
  lemma QuickStep<T>(a: seq<T>, b: seq<T>, key: T -> int, segs: seq<Segment>, p: int)
    requires WellFormed(segs, |a|) && segs != []
    requires SortedOutside(a, key, segs)
    requires RearrangedWithin(a, b, segs[|segs| - 1].lo, segs[|segs| - 1].hi)
    requires PartitionedAt(b, key, segs[|segs| - 1].lo, segs[|segs| - 1].hi, p)
    ensures |b| == |a| && multiset(b) == multiset(a)
    ensures WellFormed(AfterPartition(segs, p), |b|) && 2 * |AfterPartition(segs, p)| <= 2 * |b|
    ensures SortedOutside(b, key, AfterPartition(segs, p))
    ensures TotalWidth(AfterPartition(segs, p)) < TotalWidth(segs)
  {
    PartitionStep(a, b, key, segs, p);
    RearrangedKeepsItems(a, b, segs[|segs| - 1].lo, segs[|segs| - 1].hi);
    AfterPartitionWellFormed(segs, |a|, p);
    AfterPartitionShrinks(segs, p);
  }
}
