/** The Bloom filter of a sorted table: built, written to bytes, and asked again by a reader. */
module BloomFilters {
  import opened Types
  import opened Coding

  // The i-th hash of a key; which function it is does not matter.
  type Hash = (Bytes, nat) -> nat

  // ---- bits ----

  function Pow2(n: nat): (p: nat)
    ensures p >= 1
  {
    if n == 0 then 1 else 2 * Pow2(n - 1)
  }

  predicate HasBit(b: nat, k: nat) {
    if k == 0 then b % 2 == 1 else HasBit(b / 2, k - 1)
  }

  function WithBit(b: nat, k: nat): nat {
    if k == 0 then b / 2 * 2 + 1 else b % 2 + 2 * WithBit(b / 2, k - 1)
  }

  lemma {:induction false} WithBitFits(b: nat, k: nat, n: nat)
    requires b < Pow2(n) && k < n
    ensures WithBit(b, k) < Pow2(n)
  {
    assert Pow2(n) == 2 * Pow2(n - 1) && b / 2 < Pow2(n - 1);
    if k > 0 {
      WithBitFits(b / 2, k - 1, n - 1);
    }
  }

  lemma {:induction false} WithBitSets(b: nat, k: nat, j: nat)
    ensures HasBit(WithBit(b, k), j) <==> j == k || HasBit(b, j)
  {
    if k == 0 {
      assert WithBit(b, k) / 2 == b / 2;
    } else {
      var high := WithBit(b / 2, k - 1);
      assert WithBit(b, k) % 2 == b % 2 && WithBit(b, k) / 2 == high;
      if j > 0 {
        WithBitSets(b / 2, k - 1, j - 1);
      }
    }
  }

  function SetIn(b: Byte, k: nat): (r: Byte)
    requires k < 8
  {
    assert Pow2(8) == 256;
    WithBitFits(b, k, 8);
    WithBit(b, k)
  }

  // ---- bit arrays ----

  predicate GetBit(bits: Bytes, index: nat) {
    index / 8 < |bits| && HasBit(bits[index / 8], index % 8)
  }

  function SetBit(bits: Bytes, index: nat): (r: Bytes)
    ensures |r| == |bits|
  {
    if index / 8 < |bits| then bits[index / 8 := SetIn(bits[index / 8], index % 8)] else bits
  }

  lemma SetBitSets(bits: Bytes, index: nat, j: nat)
    ensures GetBit(SetBit(bits, index), j) <==> (j == index && index / 8 < |bits|) || GetBit(bits, j)
  {
    if index / 8 < |bits| && j / 8 == index / 8 {
      WithBitSets(bits[index / 8], index % 8, j % 8);
      assert j == index <==> j % 8 == index % 8;
    }
  }

  function ByteSize(bitSize: nat): nat {
    (bitSize + 7) / 8
  }

  lemma IndexInArray(bitSize: nat, index: nat)
    requires index < bitSize
    ensures index / 8 < ByteSize(bitSize)
  {
  }

  function BitOf(hash: Hash, key: Bytes, i: nat, bitSize: nat): (r: nat)
    requires bitSize > 0
    ensures r < bitSize
  {
    hash(key, i) % bitSize
  }

  // The bits a key sets, those of its first n hashes.
  predicate Marks(hash: Hash, key: Bytes, n: nat, bitSize: nat, j: nat)
    requires bitSize > 0
  {
    exists i: nat | i < n :: BitOf(hash, key, i, bitSize) == j
  }

  // Exactly the bits of these keys are set.
  ghost predicate HoldsKeys(hash: Hash, count: nat, bitSize: nat, keys: seq<Bytes>, bits: Bytes)
    requires bitSize > 0
  {
    forall j: nat :: GetBit(bits, j) <==> exists k | 0 <= k < |keys| :: Marks(hash, keys[k], count, bitSize, j)
  }

  // What the filter says of a key: maybe, if every bit of the key is set.
  predicate Maybe(hash: Hash, count: nat, bitSize: nat, bits: Bytes, key: Bytes)
    requires bitSize > 0
  {
    forall i: nat | i < count :: GetBit(bits, BitOf(hash, key, i, bitSize))
  }

  // No false negatives.
  lemma AddedKeyIsMaybe(hash: Hash, count: nat, bitSize: nat, keys: seq<Bytes>, bits: Bytes, key: Bytes)
    requires bitSize > 0 && HoldsKeys(hash, count, bitSize, keys, bits) && key in keys
    ensures Maybe(hash, count, bitSize, bits, key)
  {
    var k :| 0 <= k < |keys| && keys[k] == key;
    forall i: nat | i < count
      ensures GetBit(bits, BitOf(hash, key, i, bitSize))
    {
      assert Marks(hash, keys[k], count, bitSize, BitOf(hash, key, i, bitSize));
    }
  }

  // ---- the filter ----

  class StandardBloomFilter {
    const hash: Hash
    const bitSize: nat
    const count: nat
    const bits: array<Byte>
    var elements: nat
    // For the proofs: the keys added.
    ghost var keys: seq<Bytes>

    constructor (hash: Hash, bitSize: nat, count: nat)
      ensures Valid() && fresh(bits) && elements == 0 && keys == []
      ensures this.hash == hash && this.bitSize == bitSize && this.count == count
    {
      this.hash, this.bitSize, this.count := hash, bitSize, count;
      bits := new Byte[ByteSize(bitSize)](_ => 0);
      elements, keys := 0, [];
      new;
      forall j: nat
        ensures !GetBit(bits[..], j)
      {
        NoBits(j % 8);
      }
    }

    ghost predicate Valid()
      reads this, bits
    {
      bits.Length == ByteSize(bitSize) && (bitSize > 0 ==> HoldsKeys(hash, count, bitSize, keys, bits[..]) && elements == |keys|)
    }

    method Add(key: Bytes)
      requires Valid()
      modifies this, bits
      ensures Valid() && keys == old(keys) + [key]
      ensures elements == if bitSize == 0 then old(elements) else old(elements) + 1
    {
      keys := keys + [key];
      if bitSize == 0 {
        return;
      }
      ghost var was := bits[..];
      for i := 0 to count
        invariant bits.Length == ByteSize(bitSize) && keys == old(keys) + [key] && elements == old(elements)
        invariant forall j: nat :: GetBit(bits[..], j) <==> GetBit(was, j) || Marks(hash, key, i, bitSize, j)
      {
        var index := BitOf(hash, key, i, bitSize);
        ghost var before := bits[..];
        IndexInArray(bitSize, index);
        bits[index / 8] := SetIn(bits[index / 8], index % 8);
        assert bits[..] == SetBit(before, index);
        forall j: nat
          ensures GetBit(bits[..], j) <==> GetBit(was, j) || Marks(hash, key, i + 1, bitSize, j)
        {
          SetBitSets(before, index, j);
          OneMoreMark(hash, key, i, bitSize, j);
        }
      }
      elements := elements + 1;
      OneMoreKey(hash, count, bitSize, old(keys), was, key, bits[..]);
    }

    method MayContain(key: Bytes) returns (maybe: bool)
      requires Valid()
      ensures maybe <==> bitSize == 0 || Maybe(hash, count, bitSize, bits[..], key)
    {
      if bitSize == 0 {
        return true;
      }
      for i := 0 to count
        invariant forall j: nat | j < i :: GetBit(bits[..], BitOf(hash, key, j, bitSize))
      {
        var index := BitOf(hash, key, i, bitSize);
        IndexInArray(bitSize, index);
        if !HasBit(bits[index / 8], index % 8) {
          assert !GetBit(bits[..], index);
          return false;
        }
      }
      maybe := true;
    }

    method Serialize() returns (data: Bytes)
      requires Valid()
      ensures data == Serialized(bitSize, count, elements, bits[..])
    {
      data := PutFixed(bitSize % WORD_SPAN, 8) + PutFixed(count % WORD32_SPAN, 4) + PutFixed(elements % WORD_SPAN, 8) + bits[..];
    }
  }

  lemma {:induction false} NoBits(k: nat)
    ensures !HasBit(0, k)
  {
    if k > 0 {
      NoBits(k - 1);
    }
  }

  lemma OneMoreMark(hash: Hash, key: Bytes, i: nat, bitSize: nat, j: nat)
    requires bitSize > 0
    ensures Marks(hash, key, i + 1, bitSize, j) <==> Marks(hash, key, i, bitSize, j) || BitOf(hash, key, i, bitSize) == j
  {
  }

  lemma OneMoreKey(hash: Hash, count: nat, bitSize: nat, keys: seq<Bytes>, bits: Bytes, key: Bytes, bits': Bytes)
    requires bitSize > 0 && HoldsKeys(hash, count, bitSize, keys, bits)
    requires forall j: nat :: GetBit(bits', j) <==> GetBit(bits, j) || Marks(hash, key, count, bitSize, j)
    ensures HoldsKeys(hash, count, bitSize, keys + [key], bits')
  {
    var keys' := keys + [key];
    forall j: nat
      ensures GetBit(bits', j) <==> exists k | 0 <= k < |keys'| :: Marks(hash, keys'[k], count, bitSize, j)
    {
      if GetBit(bits, j) {
        var k :| 0 <= k < |keys| && Marks(hash, keys[k], count, bitSize, j);
        assert Marks(hash, keys'[k], count, bitSize, j);
      } else if Marks(hash, key, count, bitSize, j) {
        assert Marks(hash, keys'[|keys|], count, bitSize, j);
      } else {
        forall k | 0 <= k < |keys'|
          ensures !Marks(hash, keys'[k], count, bitSize, j)
        {
          assert k < |keys| ==> keys'[k] == keys[k];
        }
      }
    }
  }

  // ---- as bytes ----

  const FILTER_HEADER: nat := 20

  function Serialized(bitSize: nat, count: nat, elements: nat, bits: Bytes): (b: Bytes)
    ensures |b| == FILTER_HEADER + |bits|
  {
    PutFixed(bitSize % WORD_SPAN, 8) + PutFixed(count % WORD32_SPAN, 4) + PutFixed(elements % WORD_SPAN, 8) + bits
  }

  lemma HeaderReadsBack(bitSize: nat, count: nat, elements: nat, bits: Bytes)
    requires bitSize < WORD_SPAN && count < WORD32_SPAN
    ensures var b := Serialized(bitSize, count, elements, bits);
            DecodeFixed(b[..8]) == bitSize && DecodeFixed(b[8..12]) == count && b[FILTER_HEADER..] == bits
  {
    hide PutFixed, DecodeFixed;
    var x, y, z := PutFixed(bitSize % WORD_SPAN, 8), PutFixed(count % WORD32_SPAN, 4), PutFixed(elements % WORD_SPAN, 8);
    var b := Serialized(bitSize, count, elements, bits);
    assert b == x + y + z + bits;
    assert b[..8] == x && b[8..12] == y && b[20..] == bits;
    SpanOf8();
    SpanOf4();
    FixedRoundTrip(bitSize, 8);
    FixedRoundTrip(count, 4);
  }

  // ---- the builder ----

  // The filter is sized when it is finished, by the number of keys.
  class BloomFilterBuilder {
    const hash: Hash
    const sizeFor: nat -> nat
    const count: nat
    var keys: seq<Bytes>

    constructor (hash: Hash, sizeFor: nat -> nat, count: nat)
      ensures keys == [] && this.hash == hash && this.sizeFor == sizeFor && this.count == count
    {
      this.hash, this.sizeFor, this.count, keys := hash, sizeFor, count, [];
    }

    method AddKey(key: Bytes)
      modifies this
      ensures keys == old(keys) + [key]
    {
      keys := keys + [key];
    }

    method Finish() returns (data: Bytes)
      ensures FilterOf(hash, count, sizeFor(|keys|), keys, data)
    {
      if keys == [] {
        return [];
      }
      var filter := new StandardBloomFilter(hash, sizeFor(|keys|), count);
      for i := 0 to |keys|
        invariant filter.Valid() && filter.keys == keys[..i] && fresh(filter) && fresh(filter.bits)
        invariant filter.hash == hash && filter.bitSize == sizeFor(|keys|) && filter.count == count
      {
        filter.Add(keys[i]);
      }
      assert keys[..|keys|] == keys;
      data := filter.Serialize();
      assert IsFilter(hash, count, filter.bitSize, keys, filter.bits[..], filter.elements, data);
    }
  }

  ghost predicate IsFilter(hash: Hash, count: nat, bitSize: nat, keys: seq<Bytes>, bits: Bytes, elements: nat, data: Bytes) {
    && data == Serialized(bitSize, count, elements, bits) && |bits| == ByteSize(bitSize)
    && (bitSize > 0 ==> HoldsKeys(hash, count, bitSize, keys, bits))
  }

  // The bytes of a filter of these keys; none for no keys.
  ghost predicate FilterOf(hash: Hash, count: nat, bitSize: nat, keys: seq<Bytes>, data: Bytes) {
    if keys == [] then data == []
    else exists bits, elements: nat :: IsFilter(hash, count, bitSize, keys, bits, elements, data)
  }

  // ---- the reader ----

  class BloomFilterReader {
    const hash: Hash
    var data: Bytes
    var bitSize: nat
    var count: nat
    var initialized: bool

    constructor (hash: Hash)
      ensures !initialized && this.hash == hash
    {
      this.hash, data, bitSize, count, initialized := hash, [], 0, 0, false;
    }

    ghost predicate Valid()
      reads this
    {
      initialized ==> |data| == FILTER_HEADER + ByteSize(bitSize)
    }

    method Initialize(filterData: Bytes) returns (ok: bool)
      requires !initialized
      modifies this
      ensures Valid() && ok == initialized
      ensures ok <==> |filterData| >= FILTER_HEADER && |filterData| == FILTER_HEADER + ByteSize(DecodeFixed(filterData[..8]))
      ensures ok ==> data == filterData && bitSize == DecodeFixed(data[..8]) && count == DecodeFixed(data[8..12])
    {
      if |filterData| < FILTER_HEADER {
        return false;
      }
      data, bitSize, count := filterData, DecodeFixed(filterData[..8]), DecodeFixed(filterData[8..12]);
      if |data| != FILTER_HEADER + ByteSize(bitSize) {
        return false;
      }
      initialized := true;
      ok := true;
    }

    // None is a division by zero: the reader, unlike the filter, does not look for an empty array.
    method MayContain(key: Bytes) returns (maybe: Option<bool>)
      requires Valid()
      ensures maybe == if initialized then Answer(hash, count, bitSize, data[FILTER_HEADER..], key) else Some(true)
    {
      if !initialized {
        return Some(true);
      }
      for i := 0 to count
        invariant bitSize == 0 ==> i == 0
        invariant bitSize > 0 ==> forall j: nat | j < i :: GetBit(data[FILTER_HEADER..], BitOf(hash, key, j, bitSize))
      {
        if bitSize == 0 {
          return None;
        }
        if !GetBit(data[FILTER_HEADER..], BitOf(hash, key, i, bitSize)) {
          return Some(false);
        }
      }
      maybe := Some(true);
    }
  }

  function Answer(hash: Hash, count: nat, bitSize: nat, bits: Bytes, key: Bytes): Option<bool> {
    if bitSize == 0 then (if count == 0 then Some(true) else None)
    else Some(Maybe(hash, count, bitSize, bits, key))
  }

  // A reader of a written filter: it answers at all exactly if the filter has bits or no hashes,
  // and then never denies a key that was added.
  lemma WrittenFilterAnswers(hash: Hash, count: nat, bitSize: nat, keys: seq<Bytes>, data: Bytes, key: Bytes)
    requires bitSize < WORD_SPAN && count < WORD32_SPAN && keys != [] && FilterOf(hash, count, bitSize, keys, data)
    ensures |data| >= FILTER_HEADER && DecodeFixed(data[..8]) == bitSize && DecodeFixed(data[8..12]) == count
    ensures |data| == FILTER_HEADER + ByteSize(bitSize)
    ensures var answer := Answer(hash, count, bitSize, data[FILTER_HEADER..], key);
            (answer == None <==> bitSize == 0 && count > 0) && (answer.Some? && key in keys ==> answer == Some(true))
  {
    hide PutFixed, DecodeFixed, HoldsKeys, Maybe;
    var bits, elements: nat :| IsFilter(hash, count, bitSize, keys, bits, elements, data);
    HeaderReadsBack(bitSize, count, elements, bits);
    if bitSize > 0 && key in keys {
      AddedKeyIsMaybe(hash, count, bitSize, keys, bits, key);
    }
  }
}
