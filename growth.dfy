/**
 * Capacity doubling as the array list and the binary heap write it, and the
 * growth rule the model uses instead.
 */
module Growth {

  /** capacity * 2, as written: a zero capacity stays zero. */
  function DoubledAsWritten(capacity: int): int
  {
    capacity * 2
  }

  /** The capacity after ensure_capacity as written: doubled when the buffer is full. */
  function GrownAsWritten(size: int, capacity: int): int
  {
    if size >= capacity then DoubledAsWritten(capacity) else capacity
  }

  /**
   * On a full buffer the next write goes to index size == capacity; as
   * written it lands inside the grown buffer exactly when the capacity was
   * not zero, so a list created with capacity 0 writes outside its buffer.
   */
  lemma GrownAsWrittenRoomIff(capacity: int)
    requires capacity >= 0
    ensures capacity < GrownAsWritten(capacity, capacity) <==> capacity > 0
  {
  }

  /** The growth the model uses: double, with at least one slot. */
  function Doubled(capacity: int): (c: int)
    requires capacity >= 0
    ensures c > capacity && c >= 1
    ensures capacity > 0 ==> c == DoubledAsWritten(capacity)
  {
    if capacity == 0 then 1 else capacity * 2
  }
}
