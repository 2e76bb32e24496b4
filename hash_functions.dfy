/**
 * The five string hashes of map.c. A key is a pointer to a NUL-terminated
 * byte string (None for NULL); each hash folds the bytes before the NUL into
 * an unsigned long (64 bits, wrapping) and reduces it modulo the capacity.
 */
module HashFunctions {
  import opened Wrappers
  import opened ListSpec

  /** The position of the first NUL byte, or the length when there is none. */
  function NulIndex(buf: seq<bv8>): (n: nat)
    ensures n <= |buf|
    ensures forall k :: 0 <= k < n ==> buf[k] != 0
    ensures n == |buf| || buf[n] == 0
  {
    if buf == [] || buf[0] == 0 then 0 else 1 + NulIndex(buf[1..])
  }

  /** The bytes of a C string: everything before the first NUL. */
  function CString(buf: seq<bv8>): (text: seq<bv8>)
    ensures 0 !in text
    ensures text <= buf
    ensures |text| == |buf| || buf[|text|] == 0
  {
    buf[..NulIndex(buf)]
  }

  /** A NUL at position i with none before it ends the string at i. */
  lemma NulAt(buf: seq<bv8>, i: nat)
    requires i < |buf| && buf[i] == 0
    requires forall k :: 0 <= k < i ==> buf[k] != 0
    ensures CString(buf) == buf[..i]
  {
  }

  /**
   * The accumulator loop every hash runs over the bytes of a string: start
   * from seed and combine each byte into it, in order. Defined from the end
   * so that a prefix of the string is a prefix of the computation.
   */
  function FoldBytes<H>(step: (H, bv8) -> H, seed: H, text: seq<bv8>): H
  {
    if text == [] then seed else step(FoldBytes(step, seed, text[..|text| - 1]), text[|text| - 1])
  }

  /** unsigned long is 64 bits wide; its arithmetic wraps modulo this. */
  const ULongModulus: int := 0x1_0000_0000_0000_0000

  /** hash = hash * 33 + c, written (hash << 5) + hash + c. */
  function BernsteinStep(h: bv64, c: bv8): bv64 { (h << 5) + h + (c as bv64) }
  /** hash = (hash xor c) * 16777619. */
  function Fnv1aStep(h: bv64, c: bv8): bv64 { (h ^ (c as bv64)) * 16777619 }
  /** hash = hash xor ((hash << 5) + (hash >> 2) + c). */
  function XorStep(h: bv64, c: bv8): bv64 { h ^ ((h << 5) + (h >> 2) + (c as bv64)) }
  /** hash = (hash << 4) xor (hash >> 28) xor c. */
  function RotationalStep(h: bv64, c: bv8): bv64 { (h << 4) ^ (h >> 28) ^ (c as bv64) }
  /** hash = hash + c, on the number an unsigned long holds. */
  function AdditiveStep(h: int, c: bv8): int { (h + c as int) % ULongModulus }

  /** The cast (int)(hash % capacity) for a positive capacity. */
  function Reduce(h: bv64, capacity: int): (r: int)
    requires capacity > 0
    ensures 0 <= r < capacity
  {
    (h as int) % capacity
  }

  /** bernstein_hash: 0 for NULL, otherwise the fold from 5381 reduced to a bucket. */
  function BernsteinHash(key: Option<seq<bv8>>, capacity: int): (r: int)
    requires capacity > 0
    ensures 0 <= r < capacity && (key.None? ==> r == 0)
  {
    if key.None? then 0 else Reduce(FoldBytes(BernsteinStep, 5381, CString(key.value)), capacity)
  }

  /** fnv1a_hash: 0 for NULL, otherwise the fold from 2166136261 reduced to a bucket. */
  function Fnv1aHash(key: Option<seq<bv8>>, capacity: int): (r: int)
    requires capacity > 0
    ensures 0 <= r < capacity && (key.None? ==> r == 0)
  {
    if key.None? then 0 else Reduce(FoldBytes(Fnv1aStep, 2166136261, CString(key.value)), capacity)
  }

  /** xor_hash: 0 for NULL, otherwise the shift-xor fold from 0 reduced to a bucket. */
  function XorHash(key: Option<seq<bv8>>, capacity: int): (r: int)
    requires capacity > 0
    ensures 0 <= r < capacity && (key.None? ==> r == 0)
  {
    if key.None? then 0 else Reduce(FoldBytes(XorStep, 0, CString(key.value)), capacity)
  }

  /** rotational_hash: 0 for NULL, otherwise the rotating fold from 0 reduced to a bucket. */
  function RotationalHash(key: Option<seq<bv8>>, capacity: int): (r: int)
    requires capacity > 0
    ensures 0 <= r < capacity && (key.None? ==> r == 0)
  {
    if key.None? then 0 else Reduce(FoldBytes(RotationalStep, 0, CString(key.value)), capacity)
  }

  /** additive_hash: 0 for NULL, otherwise the byte sum modulo 2^64 reduced to a bucket. */
  function AdditiveHash(key: Option<seq<bv8>>, capacity: int): (r: int)
    requires capacity > 0
    ensures 0 <= r < capacity && (key.None? ==> r == 0)
  {
    if key.None? then 0 else FoldBytes(AdditiveStep, 0, CString(key.value)) % capacity
  }

  /** A step whose bytes can be combined in either order. */
  ghost predicate Commutes<H(!new)>(step: (H, bv8) -> H)
  {
    forall h, x, y :: step(step(h, x), y) == step(step(h, y), x)
  }

  lemma SwapLastTwo<H(!new)>(step: (H, bv8) -> H, h: H, x: bv8, y: bv8)
    requires Commutes(step)
    ensures step(step(h, x), y) == step(step(h, y), x)
  {
  }

  /** Adding bytes modulo 2^64 commutes. */
  lemma AdditiveStepCommutes()
    ensures Commutes(AdditiveStep)
  {
    forall h: int, x: bv8, y: bv8
      ensures AdditiveStep(AdditiveStep(h, x), y) == AdditiveStep(AdditiveStep(h, y), x)
    {
      AdditiveStepSwap(h, x, y);
    }
  }

  lemma AdditiveStepSwap(h: int, x: bv8, y: bv8)
    ensures AdditiveStep(AdditiveStep(h, x), y) == AdditiveStep(AdditiveStep(h, y), x)
  {
    ModOfSum(h + x as int, y as int);
    ModOfSum(h + y as int, x as int);
    assert h + x as int + y as int == h + y as int + x as int;
  }

  /** Reducing a summand first does not change the sum's remainder. */
  lemma ModOfSum(a: int, b: int)
    ensures (a % ULongModulus + b) % ULongModulus == (a + b) % ULongModulus
  {
    var q := a / ULongModulus;
    assert a == q * ULongModulus + a % ULongModulus;
    assert a + b == q * ULongModulus + (a % ULongModulus + b);
  }

  /** With a commuting step, byte j can be combined last. */
  lemma {:induction false} FoldRemove<H(!new)>(step: (H, bv8) -> H, seed: H, text: seq<bv8>, j: nat)
    requires Commutes(step) && j < |text|
    ensures FoldBytes(step, seed, text) == step(FoldBytes(step, seed, RemoveAt(text, j)), text[j])
    decreases |text|
  {
    var n := |text| - 1;
    var init, last := text[..n], text[n];
    if j < n {
      var shorter := RemoveAt(init, j);
      assert RemoveAt(text, j)[..n - 1] == shorter;
      FoldRemove(step, seed, init, j);
      var h := FoldBytes(step, seed, shorter);
      calc {
        FoldBytes(step, seed, text);
        step(FoldBytes(step, seed, init), last);
        step(step(h, init[j]), last);
        { SwapLastTwo(step, h, init[j], last); }
        step(step(h, last), init[j]);
        step(FoldBytes(step, seed, RemoveAt(text, j)), text[j]);
      }
    } else {
      assert RemoveAt(text, j) == init;
    }
  }

  /** With a commuting step, the fold depends only on which bytes occur, not their order. */
  lemma {:induction false} FoldPermutation<H(!new)>(step: (H, bv8) -> H, seed: H, a: seq<bv8>, b: seq<bv8>)
    requires Commutes(step) && multiset(a) == multiset(b)
    ensures FoldBytes(step, seed, a) == FoldBytes(step, seed, b)
    decreases |a|
  {
    if a == [] {
      assert |b| == |multiset(b)| == 0;
    } else {
      var n := |a| - 1;
      var x := a[n];
      assert a == a[..n] + [x];
      assert x in multiset(b);
      var j :| 0 <= j < |b| && b[j] == x;
      RemoveAtMultiset(b, j);
      assert multiset(a[..n]) == multiset(a) - multiset{x};
      FoldPermutation(step, seed, a[..n], RemoveAt(b, j));
      FoldRemove(step, seed, b, j);
    }
  }

  /** additive_hash gives the same bucket for any two strings made of the same bytes. */
  lemma AdditiveHashIgnoresOrder(k1: seq<bv8>, k2: seq<bv8>, capacity: int)
    requires capacity > 0 && multiset(CString(k1)) == multiset(CString(k2))
    ensures AdditiveHash(Some(k1), capacity) == AdditiveHash(Some(k2), capacity)
  {
    AdditiveStepCommutes();
    FoldPermutation(AdditiveStep, 0, CString(k1), CString(k2));
  }

  /** hash_functions[kind]: 0 bernstein, 1 fnv1a, 2 xor, 3 rotational, 4 additive. */
  function HashAt(kind: int, key: Option<seq<bv8>>, capacity: int): (r: int)
    requires 0 <= kind < 5 && capacity > 0
    ensures 0 <= r < capacity && (key.None? ==> r == 0)
  {
    match kind
    case 0 => BernsteinHash(key, capacity)
    case 1 => Fnv1aHash(key, capacity)
    case 2 => XorHash(key, capacity)
    case 3 => RotationalHash(key, capacity)
    case _ => AdditiveHash(key, capacity)
  }

  /** The `while (*str)` loop: combine the bytes before the NUL into seed. */
  method Accumulate<H>(step: (H, bv8) -> H, seed: H, str: seq<bv8>) returns (hash: H)
    requires 0 in str
    ensures hash == FoldBytes(step, seed, CString(str))
  {
    ghost var nul :| 0 <= nul < |str| && str[nul] == 0;
    hash := seed;
    var i := 0;
    while str[i] != 0
      invariant 0 <= i <= nul
      invariant forall k :: 0 <= k < i ==> str[k] != 0
      invariant hash == FoldBytes(step, seed, str[..i])
      decreases |str| - i
    {
      assert str[..i + 1][..i] == str[..i];
      hash := step(hash, str[i]);
      i := i + 1;
    }
    NulAt(str, i);
  }

  /**
   * hash_functions[kind](key, capacity): 0 for NULL, otherwise the loop over
   * the string's bytes and the remainder modulo the capacity.
   */
  method Hash(kind: int, key: Option<seq<bv8>>, capacity: int) returns (r: int)
    requires 0 <= kind < 5 && capacity > 0
    requires key.Some? ==> 0 in key.value
    ensures r == HashAt(kind, key, capacity)
    ensures 0 <= r < capacity
  {
    if key.None? {
      return 0;
    }
    var str := key.value;
    if kind == 4 {
      var sum := Accumulate(AdditiveStep, 0, str);
      return sum % capacity;
    }
    var hash: bv64;
    if kind == 0 {
      hash := Accumulate(BernsteinStep, 5381, str);
    } else if kind == 1 {
      hash := Accumulate(Fnv1aStep, 2166136261, str);
    } else if kind == 2 {
      hash := Accumulate(XorStep, 0, str);
    } else {
      hash := Accumulate(RotationalStep, 0, str);
    }
    r := Reduce(hash, capacity);
  }
}
