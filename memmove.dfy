/**
 * The two memmove shapes the array-backed containers use to open or close a
 * gap in their item buffer.
 */
module Memmove {

  /** memmove(&a[lo + 1], &a[lo], hi - lo): slots lo..hi-1 move up by one; a[lo] keeps its old value. */
  method OpenGap<T>(a: array<T>, lo: int, hi: int)
    requires 0 <= lo <= hi < a.Length
    modifies a
    ensures a[..lo + 1] == old(a[..lo + 1])
    ensures forall k :: lo < k <= hi ==> a[k] == old(a[k - 1])
    ensures a[hi + 1..] == old(a[hi + 1..])
  {
    var j := hi;
    while j > lo
      invariant lo <= j <= hi
      invariant a[..j + 1] == old(a[..j + 1])
      invariant forall k :: j < k <= hi ==> a[k] == old(a[k - 1])
      invariant a[hi + 1..] == old(a[hi + 1..])
    {
      a[j] := a[j - 1];
      j := j - 1;
    }
  }

  /** memmove(&a[lo], &a[lo + 1], hi - lo - 1): slots lo+1..hi-1 move down by one; a[hi-1] keeps its old value. */
  method CloseGap<T>(a: array<T>, lo: int, hi: int)
    requires 0 <= lo < hi <= a.Length
    modifies a
    ensures a[..lo] == old(a[..lo])
    ensures forall k :: lo <= k < hi - 1 ==> a[k] == old(a[k + 1])
    ensures a[hi - 1..] == old(a[hi - 1..])
  {
    var j := lo;
    while j < hi - 1
      invariant lo <= j <= hi - 1
      invariant a[..lo] == old(a[..lo])
      invariant forall k :: lo <= k < j ==> a[k] == old(a[k + 1])
      invariant a[j..] == old(a[j..])
    {
      a[j] := a[j + 1];
      j := j + 1;
    }
  }
}
