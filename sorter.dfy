/**
 * The list sorter: quicksort with an explicit stack, reverse, binary search,
 * copy, shuffle and the min/max scans, all working on a list through its
 * get/insert/remove/size operations. The comparator cmp(a, b) is the sign of
 * key(a) - key(b).
 */
module Sorter {
  import opened Wrappers
  import opened ListSpec
  import opened QuickSortSegments
  import ArrayList

  /**
   * sorter_swap: both items are read, then each position is overwritten by
   * a remove followed by an insert at the same index.
   */
  method Swap<T(0)>(lst: ArrayList.ArrayList<T>, i: int, j: int)
    requires lst.Valid() && !lst.freed
    requires 0 <= i < |lst.Contents| && 0 <= j < |lst.Contents|
    modifies lst.Repr
    ensures lst.Valid() && !lst.freed && fresh(lst.Repr - old(lst.Repr))
    ensures lst.Contents == old(lst.Contents)[i := old(lst.Contents)[j]][j := old(lst.Contents)[i]]
  {
    ghost var s := lst.Contents;
    var temp1 := lst.Get(i);
    var temp2 := lst.Get(j);
    lst.Remove(i);
    lst.Insert(temp2.value, i);
    RemoveThenInsertIsUpdate(s, s[j], i);
    ghost var t := lst.Contents;
    lst.Remove(j);
    lst.Insert(temp1.value, j);
    RemoveThenInsertIsUpdate(t, s[i], j);
  }

  /**
   * sorter_partition: the item at high is the pivot; items that do not
   * outrank it are swapped to the front, and the pivot lands right after
   * them, at the returned index.
   */
  method Partition<T(0)>(lst: ArrayList.ArrayList<T>, key: T -> int, low: int, high: int) returns (p: int)
    requires lst.Valid() && !lst.freed && 0 <= low <= high < |lst.Contents|
    modifies lst.Repr
    ensures lst.Valid() && !lst.freed && fresh(lst.Repr - old(lst.Repr))
    ensures RearrangedWithin(old(lst.Contents), lst.Contents, low, high)
    ensures PartitionedAt(lst.Contents, key, low, high, p)
  {
    ghost var s0 := lst.Contents;
    var pivotItem := lst.Get(high);
    var i := PartitionScan(lst, key, low, high, pivotItem.value);
    ghost var s := lst.Contents;
    ghost var s1 := s[i + 1 := s[high]][high := s[i + 1]];
    PivotLands(s0, s, key, low, high, i);
    assert RearrangedWithin(s0, s1, low, high);
    Swap(lst, i + 1, high);
    assert lst.Contents == s1;
    p := i + 1;
  }

  /** The for loop of sorter_partition: afterwards [low, i] holds the items not above the pivot and (i, high) the rest. */
  method PartitionScan<T(0)>(lst: ArrayList.ArrayList<T>, key: T -> int, low: int, high: int, pivot: T) returns (i: int)
    requires lst.Valid() && !lst.freed && 0 <= low <= high < |lst.Contents| && lst.Contents[high] == pivot
    modifies lst.Repr
    ensures lst.Valid() && !lst.freed && fresh(lst.Repr - old(lst.Repr))
    ensures low - 1 <= i < high
    ensures RearrangedWithin(old(lst.Contents), lst.Contents, low, high) && lst.Contents[high] == pivot
    ensures forall k :: low <= k <= i ==> key(lst.Contents[k]) <= key(pivot)
    ensures forall k :: i < k < high ==> key(lst.Contents[k]) > key(pivot)
  {
    ghost var s0 := lst.Contents;
    i := low - 1;
    for j := low to high
      invariant lst.Valid() && !lst.freed && fresh(lst.Repr - old(lst.Repr))
      invariant Scanned(s0, lst.Contents, key, low, high, pivot, i, j)
    {
      i := ScanStep(lst, key, low, high, pivot, i, j, s0);
    }
  }

  /** One iteration of the scan: the item at j, when not above the pivot, is swapped to position i + 1. */
  method ScanStep<T(0)>(lst: ArrayList.ArrayList<T>, key: T -> int, low: int, high: int, pivot: T, i: int, j: int,
                        ghost s0: seq<T>) returns (i': int)
    requires lst.Valid() && !lst.freed && Scanned(s0, lst.Contents, key, low, high, pivot, i, j) && j < high
    modifies lst.Repr
    ensures lst.Valid() && !lst.freed && fresh(lst.Repr - old(lst.Repr))
    ensures Scanned(s0, lst.Contents, key, low, high, pivot, i', j + 1)
  {
    ghost var s := lst.Contents;
    var current := lst.Get(j);
    i' := i;
    if key(current.value) <= key(pivot) {
      ScanSwaps(s0, s, key, low, high, pivot, i, j);
      i' := i + 1;
      Swap(lst, i', j);
    }
  }

  /** The state of the partition scan before position j: [low, i] not above the pivot, (i, j) above it. */
  ghost predicate Scanned<T>(s0: seq<T>, s: seq<T>, key: T -> int, low: int, high: int, pivot: T, i: int, j: int)
  {
    low - 1 <= i < j <= high && RearrangedWithin(s0, s, low, high) && s[high] == pivot &&
    (forall k :: low <= k <= i ==> key(s[k]) <= key(pivot)) &&
    (forall k :: i < k < j ==> key(s[k]) > key(pivot))
  }

  /** A scanned item not above the pivot is swapped to the end of the left side. */
  lemma ScanSwaps<T>(s0: seq<T>, s: seq<T>, key: T -> int, low: int, high: int, pivot: T, i: int, j: int)
    requires Scanned(s0, s, key, low, high, pivot, i, j) && j < high && key(s[j]) <= key(pivot)
    ensures Scanned(s0, s[i + 1 := s[j]][j := s[i + 1]], key, low, high, pivot, i + 1, j + 1)
  {
    SwapRearranges(s0, s, low, high, i + 1, j);
  }

  /**
   * sorter_quick: the explicit stack of 2n ints starts with the whole list;
   * each popped segment is partitioned and its sides of two or more items
   * are pushed, left first. A list of size 0 is left alone, where the code
   * as written gains a NULL item (EmptyQuickSortAsWrittenAddsNull).
   */
  method Sort<T(0)>(lst: ArrayList.ArrayList<T>, key: T -> int)
    requires lst.Valid() && !lst.freed
    modifies lst.Repr
    ensures lst.Valid() && !lst.freed && fresh(lst.Repr - old(lst.Repr))
    ensures SortedBy(lst.Contents, key)
    ensures multiset(lst.Contents) == multiset(old(lst.Contents))
  {
    var n := lst.Size();
    if n == 0 {
      return;
    }
    var stack := new int[2 * n];
    var top := 0;
    stack[top] := 0;
    top := top + 1;
    stack[top] := n - 1;
    top := top + 1;
    ghost var segs := [Segment(0, n - 1)];
    WholeListPending(lst.Contents, key);
    while top > 0
      invariant lst.Valid() && !lst.freed && fresh(lst.Repr - old(lst.Repr))
      invariant stack !in lst.Repr
      invariant |lst.Contents| == n
      invariant multiset(lst.Contents) == multiset(old(lst.Contents))
      invariant top == 2 * |segs| <= stack.Length
      invariant forall k :: 0 <= k < |segs| ==> stack[2 * k] == segs[k].lo && stack[2 * k + 1] == segs[k].hi
      invariant WellFormed(segs, n)
      invariant SortedOutside(lst.Contents, key, segs)
      decreases TotalWidth(segs)
    {
      top, segs := Round(lst, key, stack, top, segs);
    }
    NothingPendingIsSorted(lst.Contents, key);
  }

  /** One pass of the sorter_quick loop: pop a segment, partition it, push its sides. */
  method Round<T(0)>(lst: ArrayList.ArrayList<T>, key: T -> int, stack: array<int>, top: int, ghost segs: seq<Segment>)
    returns (newTop: int, ghost newSegs: seq<Segment>)
    requires lst.Valid() && !lst.freed && stack !in lst.Repr
    requires top == 2 * |segs| <= stack.Length && segs != []
    requires forall k :: 0 <= k < |segs| ==> stack[2 * k] == segs[k].lo && stack[2 * k + 1] == segs[k].hi
    requires WellFormed(segs, |lst.Contents|) && 2 * |lst.Contents| == stack.Length
    requires SortedOutside(lst.Contents, key, segs)
    modifies lst.Repr, stack
    ensures lst.Valid() && !lst.freed && fresh(lst.Repr - old(lst.Repr)) && stack !in lst.Repr
    ensures |lst.Contents| == |old(lst.Contents)| && multiset(lst.Contents) == multiset(old(lst.Contents))
    ensures newTop == 2 * |newSegs| <= stack.Length
    ensures forall k :: 0 <= k < |newSegs| ==> stack[2 * k] == newSegs[k].lo && stack[2 * k + 1] == newSegs[k].hi
    ensures WellFormed(newSegs, |lst.Contents|)
    ensures SortedOutside(lst.Contents, key, newSegs)
    ensures TotalWidth(newSegs) < TotalWidth(segs)
  {
    ghost var last := |segs| - 1;
    assert stack[2 * last] == segs[last].lo && stack[2 * last + 1] == segs[last].hi;
    var high := stack[top - 1];
    var low := stack[top - 2];
    ghost var before := lst.Contents;
    var pi := Partition(lst, key, low, high);
    QuickStep(before, lst.Contents, key, segs, pi);
    newTop := Push(stack, top - 2, low, high, pi, segs);
    newSegs := AfterPartition(segs, pi);
  }

  /**
   * The pushes after a partition: [low, pi - 1] if it holds two or more
   * items, then [pi + 1, high] likewise; the stack then spells out
   * AfterPartition(segs, pi).
   */
  method Push(stack: array<int>, top: int, low: int, high: int, pi: int, ghost segs: seq<Segment>) returns (newTop: int)
    requires segs != [] && top == 2 * (|segs| - 1) && segs[|segs| - 1] == Segment(low, high)
    requires 2 * |AfterPartition(segs, pi)| <= stack.Length
    requires forall k :: 0 <= k < |segs| - 1 ==> stack[2 * k] == segs[k].lo && stack[2 * k + 1] == segs[k].hi
    modifies stack
    ensures newTop == 2 * |AfterPartition(segs, pi)|
    ensures var r := AfterPartition(segs, pi);
      forall k :: 0 <= k < |r| ==> stack[2 * k] == r[k].lo && stack[2 * k + 1] == r[k].hi
  {
    newTop := top;
    ghost var r := segs[..|segs| - 1];
    if pi - 1 > low {
      stack[newTop] := low;
      stack[newTop + 1] := pi - 1;
      newTop := newTop + 2;
      r := r + [Segment(low, pi - 1)];
    }
    if pi + 1 < high {
      stack[newTop] := pi + 1;
      stack[newTop + 1] := high;
      newTop := newTop + 2;
      r := r + [Segment(pi + 1, high)];
    }
    assert r == AfterPartition(segs, pi);
  }

  /** collections_shuffle: the Fisher-Yates walk from the end, with rands[n - 1 - i] standing for the rand() draw at step i. */
  method Shuffle<T(0)>(lst: ArrayList.ArrayList<T>, rands: seq<nat>)
    requires lst.Valid() && !lst.freed && |rands| >= |lst.Contents|
    modifies lst.Repr
    ensures lst.Valid() && !lst.freed && fresh(lst.Repr - old(lst.Repr))
    ensures multiset(lst.Contents) == multiset(old(lst.Contents))
  {
    var n := lst.Size();
    var i := n - 1;
    while i > 0
      invariant lst.Valid() && !lst.freed && fresh(lst.Repr - old(lst.Repr))
      invariant i < n && |lst.Contents| == n
      invariant multiset(lst.Contents) == multiset(old(lst.Contents))
    {
      var j := rands[n - 1 - i] % (i + 1);
      ghost var s := lst.Contents;
      Swap(lst, i, j);
      SwapMultiset(s, i, j);
      i := i - 1;
    }
  }

  /** collections_reverse: swaps the two ends and moves both inwards until they meet. */
  method Reverse<T(0)>(lst: ArrayList.ArrayList<T>)
    requires lst.Valid() && !lst.freed
    modifies lst.Repr
    ensures lst.Valid() && !lst.freed && fresh(lst.Repr - old(lst.Repr))
    ensures lst.Contents == ListSpec.Reverse(old(lst.Contents))
  {
    ghost var s0 := lst.Contents;
    var n := lst.Size();
    var i := 0;
    var j := n - 1;
    while i < j
      invariant lst.Valid() && !lst.freed && fresh(lst.Repr - old(lst.Repr))
      invariant 0 <= i <= j + 1 <= n && j == n - 1 - i && |lst.Contents| == n
      invariant forall k :: 0 <= k < i || j < k < n ==> lst.Contents[k] == s0[n - 1 - k]
      invariant forall k :: i <= k <= j ==> lst.Contents[k] == s0[k]
    {
      Swap(lst, i, j);
      i := i + 1;
      j := j - 1;
    }
    forall k | 0 <= k < n ensures lst.Contents[k] == ListSpec.Reverse(s0)[k] {
      ReverseAt(s0, k);
    }
  }

  /**
   * collections_binary_search: the index of an item comparing equal to item,
   * or -1. On a sorted list -1 means no item compares equal.
   */
  method BinarySearch<T(0)>(lst: ArrayList.ArrayList<T>, key: T -> int, item: T) returns (r: int)
    requires lst.Valid() && !lst.freed
    ensures r == -1 || (0 <= r < |lst.Contents| && key(lst.Contents[r]) == key(item))
    ensures SortedBy(lst.Contents, key) && r == -1 ==> forall k :: 0 <= k < |lst.Contents| ==> key(lst.Contents[k]) != key(item)
  {
    ghost var s := lst.Contents;
    var low := 0;
    var high := lst.Size();
    high := high - 1;
    while low <= high
      invariant 0 <= low <= high + 1 <= |s|
      invariant SortedBy(s, key) ==> forall k :: 0 <= k < low ==> key(s[k]) < key(item)
      invariant SortedBy(s, key) ==> forall k :: high < k < |s| ==> key(s[k]) > key(item)
      decreases high - low
    {
      var mid := low + (high - low) / 2;
      var midItem := lst.Get(mid);
      var c := key(midItem.value) - key(item);
      if c == 0 {
        return mid;
      } else if c < 0 {
        low := mid + 1;
      } else {
        high := mid - 1;
      }
    }
    return -1;
  }

  /** collections_copy: src[i] is inserted into dest at index i, for each i in order. */
  method Copy<T(0)>(src: ArrayList.ArrayList<T>, dest: ArrayList.ArrayList<T>)
    requires src.Valid() && !src.freed && dest.Valid() && !dest.freed && src.Repr !! dest.Repr
    modifies dest.Repr
    ensures dest.Valid() && !dest.freed && fresh(dest.Repr - old(dest.Repr))
    ensures dest.Contents == src.Contents + old(dest.Contents)
    ensures src.Contents == old(src.Contents)
  {
    ghost var d0 := dest.Contents;
    ghost var s := src.Contents;
    var size := src.Size();
    for i := 0 to size
      invariant dest.Valid() && !dest.freed && fresh(dest.Repr - old(dest.Repr))
      invariant src.Valid() && !src.freed && src.Contents == s && src.Repr !! dest.Repr
      invariant dest.Contents == s[..i] + d0
    {
      var item := src.Get(i);
      dest.Insert(item.value, i);
      assert s[..i + 1] == s[..i] + [s[i]];
    }
    assert s[..size] == s;
  }

  /** k is the first position holding an item of least key. */
  ghost predicate FirstMinAt<T>(s: seq<T>, key: T -> int, k: int)
  {
    0 <= k < |s| &&
    (forall m :: 0 <= m < |s| ==> key(s[k]) <= key(s[m])) &&
    (forall m :: 0 <= m < k ==> key(s[m]) > key(s[k]))
  }

  /** k is the first position holding an item of greatest key. */
  ghost predicate FirstMaxAt<T>(s: seq<T>, key: T -> int, k: int)
  {
    0 <= k < |s| &&
    (forall m :: 0 <= m < |s| ==> key(s[k]) >= key(s[m])) &&
    (forall m :: 0 <= m < k ==> key(s[m]) < key(s[k]))
  }

  /** collections_min: NULL on an empty list, otherwise the first item of least key. */
  method Min<T(0)>(lst: ArrayList.ArrayList<T>, key: T -> int) returns (r: Option<T>)
    requires lst.Valid() && !lst.freed
    ensures r.None? <==> lst.Contents == []
    ensures r.Some? ==> exists k :: FirstMinAt(lst.Contents, key, k) && r.value == lst.Contents[k]
  {
    var size := lst.Size();
    if size == 0 {
      return None;
    }
    var first := lst.Get(0);
    var minimum := first.value;
    ghost var at := 0;
    for i := 1 to size
      invariant 0 <= at < i && minimum == lst.Contents[at]
      invariant forall m :: 0 <= m < i ==> key(minimum) <= key(lst.Contents[m])
      invariant forall m :: 0 <= m < at ==> key(lst.Contents[m]) > key(minimum)
    {
      var current := lst.Get(i);
      if key(current.value) < key(minimum) {
        minimum := current.value;
        at := i;
      }
    }
    assert FirstMinAt(lst.Contents, key, at);
    return Some(minimum);
  }

  /** collections_max: NULL on an empty list, otherwise the first item of greatest key. */
  method Max<T(0)>(lst: ArrayList.ArrayList<T>, key: T -> int) returns (r: Option<T>)
    requires lst.Valid() && !lst.freed
    ensures r.None? <==> lst.Contents == []
    ensures r.Some? ==> exists k :: FirstMaxAt(lst.Contents, key, k) && r.value == lst.Contents[k]
  {
    var size := lst.Size();
    if size == 0 {
      return None;
    }
    var first := lst.Get(0);
    var maximum := first.value;
    ghost var at := 0;
    for i := 1 to size
      invariant 0 <= at < i && maximum == lst.Contents[at]
      invariant forall m :: 0 <= m < i ==> key(maximum) >= key(lst.Contents[m])
      invariant forall m :: 0 <= m < at ==> key(lst.Contents[m]) < key(maximum)
    {
      var current := lst.Get(i);
      if key(current.value) > key(maximum) {
        maximum := current.value;
        at := i;
      }
    }
    assert FirstMaxAt(lst.Contents, key, at);
    return Some(maximum);
  }

  /** The item of the pair that is kept as a minimum candidate and as a maximum candidate. */
  function PairUpdate<T>(key: T -> int, first: T, second: T, mn: T, mx: T): (r: (T, T))
    ensures key(r.0) <= key(mn) && key(r.0) <= key(first) && key(r.0) <= key(second)
    ensures key(r.1) >= key(mx) && key(r.1) >= key(first) && key(r.1) >= key(second)
    ensures r.0 in {mn, first, second} && r.1 in {mx, first, second}
  {
    if key(first) > key(second) then
      (if key(second) < key(mn) then second else mn, if key(first) > key(mx) then first else mx)
    else
      (if key(first) < key(mn) then first else mn, if key(second) > key(mx) then second else mx)
  }

  /** The pair loop of collections_min_max from position i on, two items per step while i < |s| - 1. */
  function ScanPairsAsWritten<T>(s: seq<T>, key: T -> int, i: nat, mn: T, mx: T): (r: (T, T))
    ensures r.0 == mn || r.0 in s
    ensures r.1 == mx || r.1 in s
    decreases |s| - i
  {
    if i < |s| - 1 then
      var r := PairUpdate(key, s[i], s[i + 1], mn, mx);
      ScanPairsAsWritten(s, key, i + 2, r.0, r.1)
    else (mn, mx)
  }

  /**
   * collections_min_max as written: both start at item 0, the pair loop
   * starts at 1 for an even size and at 2 for an odd one, and an odd size
   * rechecks the last item.
   */
  function MinMaxAsWritten<T>(s: seq<T>, key: T -> int): (r: Option<(T, T)>)
    ensures r.None? <==> s == []
    ensures r.Some? ==> r.value.0 in s && r.value.1 in s
  {
    if s == [] then None
    else
      var start := if |s| % 2 == 0 then 1 else 2;
      var r := ScanPairsAsWritten(s, key, start, s[0], s[0]);
      if |s| % 2 != 0 then
        var last := s[|s| - 1];
        Some((if key(last) < key(r.0) then last else r.0, if key(last) > key(r.1) then last else r.1))
      else Some(r)
  }

  /** On [5, 1, 9] the odd start index 2 never looks at item 1, so the reported minimum is 5. */
  lemma MinMaxAsWrittenSkipsIndexOne()
    ensures MinMaxAsWritten([5, 1, 9], (x: int) => x) == Some((5, 9))
  {
  }

  /** On [1, 2, 3, 0] the even-size loop stops before the last item, so the reported minimum is 1. */
  lemma MinMaxAsWrittenSkipsLastIndex()
    ensures MinMaxAsWritten([1, 2, 3, 0], (x: int) => x) == Some((1, 3))
  {
  }

  /**
   * collections_min_max with the pair loop starting at 1 for every size and
   * the unpaired last item of an even size checked after it: NULL/NULL on an
   * empty list, otherwise an item of least key and an item of greatest key.
   */
  method MinMax<T(0)>(lst: ArrayList.ArrayList<T>, key: T -> int) returns (mn: Option<T>, mx: Option<T>)
    requires lst.Valid() && !lst.freed
    ensures mn.None? <==> lst.Contents == []
    ensures mx.None? <==> lst.Contents == []
    ensures mn.Some? ==> mn.value in lst.Contents && forall y :: y in lst.Contents ==> key(mn.value) <= key(y)
    ensures mx.Some? ==> mx.value in lst.Contents && forall y :: y in lst.Contents ==> key(mx.value) >= key(y)
  {
    ghost var s := lst.Contents;
    var size := lst.Size();
    if size == 0 {
      return None, None;
    }
    var first := lst.Get(0);
    var lo, hi := first.value, first.value;
    ghost var li, hj := 0, 0;
    var i := 1;
    while i < size - 1
      invariant 1 <= i <= size && i % 2 == 1 && 0 <= li < i && 0 <= hj < i
      invariant lo == s[li] && hi == s[hj]
      invariant forall m :: 0 <= m < i ==> key(lo) <= key(s[m]) <= key(hi)
    {
      var a := lst.Get(i);
      var b := lst.Get(i + 1);
      var r := PairUpdate(key, a.value, b.value, lo, hi);
      li := if r.0 == lo then li else if r.0 == a.value then i else i + 1;
      hj := if r.1 == hi then hj else if r.1 == a.value then i else i + 1;
      lo, hi := r.0, r.1;
      i := i + 2;
    }
    assert i == if size % 2 == 0 then size - 1 else size;
    if size % 2 == 0 {
      var last := lst.Get(size - 1);
      if key(last.value) > key(hi) {
        hi := last.value;
        hj := size - 1;
      }
      if key(last.value) < key(lo) {
        lo := last.value;
        li := size - 1;
      }
    }
    assert forall m :: 0 <= m < size ==> key(lo) <= key(s[m]) <= key(hi);
    return Some(lo), Some(hi);
  }

  /** array_list_get on a list of pointers: the item at index, or NULL (None) out of range. */
  function GetOrNull<T>(s: seq<Option<T>>, i: int): (r: Option<T>)
    ensures 0 <= i < |s| ==> r == s[i]
    ensures !(0 <= i < |s|) ==> r.None?
  {
    if 0 <= i < |s| then s[i] else None
  }

  /** array_list_remove on a list of pointers: out of range it changes nothing. */
  function RemoveIfPresent<T>(s: seq<Option<T>>, i: int): (r: seq<Option<T>>)
    ensures 0 <= i < |s| ==> r == RemoveAt(s, i)
    ensures !(0 <= i < |s|) ==> r == s
  {
    if 0 <= i < |s| then RemoveAt(s, i) else s
  }

  /** array_list_insert on a list of pointers: an index outside 0..size changes nothing, NULL is stored like any pointer. */
  function InsertIfInRange<T>(s: seq<Option<T>>, x: Option<T>, i: int): (r: seq<Option<T>>)
    ensures 0 <= i <= |s| ==> r == InsertAt(s, x, i)
    ensures !(0 <= i <= |s|) ==> r == s
  {
    if 0 <= i <= |s| then InsertAt(s, x, i) else s
  }

  /**
   * sorter_swap as written, with no check of its indices: get both, then
   * remove and insert at each index in turn.
   */
  function SwapAsWritten<T>(s: seq<Option<T>>, i: int, j: int): (r: seq<Option<T>>)
    ensures 0 <= i < |s| && 0 <= j < |s| ==> r == s[i := s[j]][j := s[i]]
  {
    var t1 := GetOrNull(s, i);
    var t2 := GetOrNull(s, j);
    var u := InsertIfInRange(RemoveIfPresent(s, i), t2, i);
    if 0 <= i < |s| && 0 <= j < |s| then
      RemoveThenInsertIsUpdate(s, t2, i);
      RemoveThenInsertIsUpdate(u, t1, j);
      InsertIfInRange(RemoveIfPresent(u, j), t1, j)
    else
      InsertIfInRange(RemoveIfPresent(u, j), t1, j)
  }

  /**
   * sorter_quick on an empty list as written: the first pop is low 0, high
   * -1, the partition loop runs no step and its final swap(0, -1) inserts the
   * NULL it read at index 0, so the list ends with one item instead of none.
   */
  lemma EmptyQuickSortAsWrittenAddsNull()
    ensures SwapAsWritten<int>([], 0, -1) == [None]
    ensures |SwapAsWritten<int>([], 0, -1)| == 1
  {
  }
}
