/**
 * bloom_filter.c: a Bloom filter over opaque byte strings. The filter keeps
 * m_bits bits packed eight to a byte, and k_hashes probe positions per
 * element obtained by double hashing two seeded 64-bit FNV-1a hashes.
 * The sizing arithmetic (logarithms and rounding on doubles) happens before
 * the filter exists; the model takes its two results as parameters.
 */
module BloomFilters {
  import opened Wrappers
  import HashFunctions

  /** uint64_t arithmetic wraps modulo this. */
  const U64: int := 0x1_0000_0000_0000_0000

  const FnvOffsetBasis: bv64 := 14695981039346656037
  const FnvPrime: bv64 := 1099511628211
  /** The seeds of the two hashes and the stand-in for a zero second hash. */
  const Seed1: bv64 := 0x243f6a8885a308d3
  const Seed2: bv64 := 0x9e3779b97f4a7c15
  const StrideFallback: bv64 := 0x27d4eb2f165667c5

  /** One round of FNV-1a: hash ^= byte; hash *= prime. */
  function Fnv64Step(h: bv64, c: bv8): bv64 { (h ^ (c as bv64)) * FnvPrime }

  /** fnv1a64_seeded: fold every byte of data into the offset basis xor seed. */
  method Fnv1a64Seeded(data: seq<bv8>, seed: bv64) returns (hash: bv64)
    ensures hash == HashFunctions.FoldBytes(Fnv64Step, FnvOffsetBasis ^ seed, data)
  {
    hash := FnvOffsetBasis ^ seed;
    for i := 0 to |data|
      invariant hash == HashFunctions.FoldBytes(Fnv64Step, FnvOffsetBasis ^ seed, data[..i])
    {
      assert data[..i + 1][..i] == data[..i];
      hash := Fnv64Step(hash, data[i]);
    }
    assert data[..|data|] == data;
  }

  /** The first hash of an element: where its probes start. */
  function Start(e: seq<bv8>): bv64
  {
    HashFunctions.FoldBytes(Fnv64Step, FnvOffsetBasis ^ Seed1, e)
  }

  /** The second hash of an element, the distance between its probes: never zero. */
  function Stride(e: seq<bv8>): (r: bv64)
    ensures r != 0
    ensures r == HashFunctions.FoldBytes(Fnv64Step, FnvOffsetBasis ^ Seed2, e) ||
            (HashFunctions.FoldBytes(Fnv64Step, FnvOffsetBasis ^ Seed2, e) == 0 && r == StrideFallback)
  {
    var h := HashFunctions.FoldBytes(Fnv64Step, FnvOffsetBasis ^ Seed2, e);
    if h == 0 then StrideFallback else h
  }

  /** bloom_index: probe i is h1 + i * h2 on 64 bits, reduced modulo m_bits. */
  function ProbeIndex(h1: bv64, h2: bv64, i: nat, mBits: nat): (r: nat)
    requires mBits > 0
    ensures r < mBits
  {
    ((h1 as int + (i * h2 as int) % U64) % U64) % mBits
  }

  /** The i-th probe position of element e in a filter of mBits bits. */
  function Probe(e: seq<bv8>, i: nat, mBits: nat): (r: nat)
    requires mBits > 0
  {
    ProbeIndex(Start(e), Stride(e), i, mBits)
  }

  // ---------------------------------------------------------------------
  // The packed bit array
  // ---------------------------------------------------------------------

  /** (m_bits + 7) / 8: the bytes that hold m_bits bits. */
  function ByteCount(mBits: nat): nat { (mBits + 7) / 8 }

  /** Every bit position below mBits has its byte. */
  lemma ByteInRange(idx: nat, mBits: nat)
    requires idx < mBits
    ensures idx / 8 < ByteCount(mBits)
  {
    var q := idx / 8;
    assert 8 * q <= idx;
    assert 8 * (q + 1) <= mBits + 7;
  }

  /** bloom_get_bit: bit idx % 8 of byte idx / 8. */
  function GetBit(bits: seq<bv8>, idx: nat): bool
    requires idx / 8 < |bits|
  {
    bits[idx / 8] & (1 << (idx % 8)) != 0
  }

  /** The bytes after bloom_set_bit: bit idx % 8 of byte idx / 8 raised. */
  function WithBit(bits: seq<bv8>, idx: nat): (r: seq<bv8>)
    requires idx / 8 < |bits|
    ensures |r| == |bits|
  {
    bits[idx / 8 := bits[idx / 8] | (1 << (idx % 8))]
  }

  lemma ByteBit(b: bv8, k: nat, k': nat)
    requires k < 8 && k' < 8
    ensures (b | (1 << k)) & (1 << k') != 0 <==> k == k' || b & (1 << k') != 0
  {
  }

  /** After setting bit idx, bit idx is set and every other bit is as it was. */
  lemma SetThenGet(bits: seq<bv8>, idx: nat, j: nat)
    requires idx / 8 < |bits| && j / 8 < |bits|
    ensures GetBit(WithBit(bits, idx), j) <==> j == idx || GetBit(bits, j)
  {
    if j / 8 == idx / 8 {
      ByteBit(bits[idx / 8], idx % 8, j % 8);
      assert j == idx <==> j % 8 == idx % 8;
    }
  }

  /** bloom_set_bit on the filter's byte array. */
  method SetBit(bits: array<bv8>, idx: nat)
    requires idx / 8 < bits.Length
    modifies bits
    ensures bits[..] == WithBit(old(bits[..]), idx)
  {
    bits[idx / 8] := bits[idx / 8] | (1 << (idx % 8));
  }

  /** The bytes after setting the first k probes of e, in order. */
  function AddProbes(bits: seq<bv8>, e: seq<bv8>, mBits: nat, k: nat): (r: seq<bv8>)
    requires mBits > 0 && |bits| == ByteCount(mBits)
    ensures |r| == |bits|
  {
    if k == 0 then bits
    else
      var idx := Probe(e, k - 1, mBits);
      ByteInRange(idx, mBits);
      WithBit(AddProbes(bits, e, mBits, k - 1), idx)
  }

  /** Every one of the first k probes of e hits a set bit. */
  ghost predicate ProbesSet(bits: seq<bv8>, e: seq<bv8>, mBits: nat, k: nat)
    requires mBits > 0 && |bits| == ByteCount(mBits)
  {
    forall i :: 0 <= i < k ==> Probe(e, i, mBits) / 8 < |bits| && GetBit(bits, Probe(e, i, mBits))
  }

  /**
   * Adding sets exactly the probes of e: a bit is set afterwards iff it was
   * set before or one of the first k probes hits it.
   */
  lemma {:induction false} AddProbesBits(bits: seq<bv8>, e: seq<bv8>, mBits: nat, k: nat, j: nat)
    requires mBits > 0 && |bits| == ByteCount(mBits) && j / 8 < |bits|
    ensures GetBit(AddProbes(bits, e, mBits, k), j) <==>
            GetBit(bits, j) || exists i :: 0 <= i < k && Probe(e, i, mBits) == j
  {
    if k > 0 {
      var idx := Probe(e, k - 1, mBits);
      ByteInRange(idx, mBits);
      AddProbesBits(bits, e, mBits, k - 1, j);
      SetThenGet(AddProbes(bits, e, mBits, k - 1), idx, j);
      if exists i :: 0 <= i < k && Probe(e, i, mBits) == j {
        var i :| 0 <= i < k && Probe(e, i, mBits) == j;
        if i < k - 1 {
          assert exists i' :: 0 <= i' < k - 1 && Probe(e, i', mBits) == j;
        }
      }
    }
  }

  /** No false negatives: right after adding e, every probe of e is set. */
  lemma NoFalseNegatives(bits: seq<bv8>, e: seq<bv8>, mBits: nat, k: nat)
    requires mBits > 0 && |bits| == ByteCount(mBits)
    ensures ProbesSet(AddProbes(bits, e, mBits, k), e, mBits, k)
  {
    forall i | 0 <= i < k
      ensures Probe(e, i, mBits) / 8 < |bits| && GetBit(AddProbes(bits, e, mBits, k), Probe(e, i, mBits))
    {
      ByteInRange(Probe(e, i, mBits), mBits);
      AddProbesBits(bits, e, mBits, k, Probe(e, i, mBits));
    }
  }

  /** Adding only sets bits, so an element whose probes were set keeps them set. */
  lemma StaysSet(bits: seq<bv8>, e: seq<bv8>, other: seq<bv8>, mBits: nat, k: nat)
    requires mBits > 0 && |bits| == ByteCount(mBits)
    requires ProbesSet(bits, e, mBits, k)
    ensures ProbesSet(AddProbes(bits, other, mBits, k), e, mBits, k)
  {
    forall i | 0 <= i < k
      ensures GetBit(AddProbes(bits, other, mBits, k), Probe(e, i, mBits))
    {
      AddProbesBits(bits, other, mBits, k, Probe(e, i, mBits));
    }
  }

  /** With every byte zero no probe hits a set bit, so nothing might be contained. */
  lemma ClearedHoldsNothing(bits: seq<bv8>, e: seq<bv8>, mBits: nat, k: nat)
    requires mBits > 0 && |bits| == ByteCount(mBits) && k > 0
    requires forall b :: 0 <= b < |bits| ==> bits[b] == 0
    ensures !ProbesSet(bits, e, mBits, k)
  {
    var idx := Probe(e, 0, mBits);
    ByteInRange(idx, mBits);
    assert bits[idx / 8] == 0;
  }

  // ---------------------------------------------------------------------
  // The filter object
  // ---------------------------------------------------------------------

  class BloomFilter {
    const mBits: nat
    const kHashes: nat
    const bits: array<bv8>
    const expectedElements: nat
    const targetFpp: real
    var itemsAdded: nat

    ghost predicate Valid()
      reads this
    {
      bits.Length == ByteCount(mBits)
    }

    /** Whether add and might_contain act on element at all. */
    predicate Usable(element: Option<seq<bv8>>)
      reads this
    {
      element.Some? && element.value != [] && mBits > 0 && kHashes > 0
    }

    /** The filter as create_bloom_filter leaves it: every bit clear, nothing added. */
    constructor (mBits: nat, kHashes: nat, expectedElements: nat, targetFpp: real)
      ensures Valid() && fresh(bits)
      ensures this.mBits == mBits && this.kHashes == kHashes
      ensures this.expectedElements == expectedElements && this.targetFpp == targetFpp
      ensures forall b :: 0 <= b < bits.Length ==> bits[b] == 0
      ensures itemsAdded == 0
    {
      this.mBits := mBits;
      this.kHashes := kHashes;
      this.expectedElements := expectedElements;
      this.targetFpp := targetFpp;
      bits := new bv8[ByteCount(mBits)](_ => 0);
      itemsAdded := 0;
    }

    /**
     * bloom_filter_add: nothing for a NULL or empty element or an unset
     * filter; otherwise the k probes of the element are set and the
     * insertion is counted.
     */
    method Add(element: Option<seq<bv8>>)
      requires Valid()
      modifies this, bits
      ensures Valid()
      ensures !Usable(element) ==> bits[..] == old(bits[..]) && itemsAdded == old(itemsAdded)
      ensures Usable(element) ==> bits[..] == AddProbes(old(bits[..]), element.value, mBits, kHashes)
      ensures Usable(element) ==> itemsAdded == old(itemsAdded) + 1
    {
      if !Usable(element) {
        return;
      }
      var e := element.value;
      var h1 := Fnv1a64Seeded(e, Seed1);
      var h2 := Fnv1a64Seeded(e, Seed2);
      if h2 == 0 {
        h2 := StrideFallback;
      }
      assert h1 == Start(e) && h2 == Stride(e);
      ghost var start := bits[..];
      for i := 0 to kHashes
        invariant bits[..] == AddProbes(start, e, mBits, i)
        invariant itemsAdded == old(itemsAdded)
      {
        var idx := ProbeIndex(h1, h2, i, mBits);
        assert idx == Probe(e, i, mBits);
        ByteInRange(idx, mBits);
        ghost var before := bits[..];
        SetBit(bits, idx);
        assert bits[..] == WithBit(before, idx);
      }
      itemsAdded := itemsAdded + 1;
    }

    /**
     * bloom_filter_might_contain: false for a NULL or empty element or an
     * unset filter; otherwise true iff every probe of the element hits a set
     * bit.
     */
    method MightContain(element: Option<seq<bv8>>) returns (r: bool)
      requires Valid()
      ensures r <==> Usable(element) && ProbesSet(bits[..], element.value, mBits, kHashes)
    {
      if !Usable(element) {
        return false;
      }
      var e := element.value;
      var h1 := Fnv1a64Seeded(e, Seed1);
      var h2 := Fnv1a64Seeded(e, Seed2);
      if h2 == 0 {
        h2 := StrideFallback;
      }
      assert h1 == Start(e) && h2 == Stride(e);
      for i := 0 to kHashes
        invariant forall i' :: 0 <= i' < i ==> Probe(e, i', mBits) / 8 < bits.Length &&
                                               GetBit(bits[..], Probe(e, i', mBits))
      {
        var idx := ProbeIndex(h1, h2, i, mBits);
        assert idx == Probe(e, i, mBits);
        ByteInRange(idx, mBits);
        if !GetBit(bits[..], idx) {
          return false;
        }
      }
      r := true;
    }

    /**
     * bloom_filter_clear: nothing for an unset filter; otherwise every byte
     * is zeroed and the insertion count is reset.
     */
    method Clear()
      requires Valid()
      modifies this, bits
      ensures Valid()
      ensures mBits == 0 ==> bits[..] == old(bits[..]) && itemsAdded == old(itemsAdded)
      ensures mBits > 0 ==> (forall b :: 0 <= b < bits.Length ==> bits[b] == 0) && itemsAdded == 0
    {
      if mBits == 0 {
        return;
      }
      for b := 0 to ByteCount(mBits)
        invariant forall b' :: 0 <= b' < b ==> bits[b'] == 0
      {
        bits[b] := 0;
      }
      itemsAdded := 0;
    }
  }

  /**
   * create_bloom_filter: NULL unless expected_elements is positive and the
   * rate lies strictly between 0 and 1; otherwise an empty filter of the
   * given size. mBits and kHashes are what the sizing arithmetic yields,
   * at least 1 each.
   */
  method CreateBloomFilter(expectedElements: int, rate: real, mBits: nat, kHashes: nat)
    returns (bf: BloomFilter?)
    requires mBits > 0 && kHashes > 0
    ensures bf == null <==> expectedElements <= 0 || !(0.0 < rate < 1.0)
    ensures bf != null ==> fresh(bf) && fresh(bf.bits) && bf.Valid() && bf.itemsAdded == 0
    ensures bf != null ==> bf.mBits == mBits && bf.kHashes == kHashes
    ensures bf != null ==> forall b :: 0 <= b < bf.bits.Length ==> bf.bits[b] == 0
  {
    if expectedElements <= 0 || !(0.0 < rate < 1.0) {
      return null;
    }
    bf := new BloomFilter(mBits, kHashes, expectedElements, rate);
  }
}
