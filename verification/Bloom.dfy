/** A Bloom filter: a bit array that stands for a set of positions. */
module Bloom {
  import opened GoTypes

  /** The two FNV hashes of a key, left abstract. */
  datatype Hashes = Hashes(fnv1a: Bytes -> UInt32, fnv1: Bytes -> UInt32)

  // ---------------------------------------------------------------------------------------------
  // Positions
  // ---------------------------------------------------------------------------------------------

  /** `h1 + uint32(i) * h2` in uint32 arithmetic. */
  function CombinedHash(h1: UInt32, h2: UInt32, i: nat): UInt32 {
    (h1 + i % TWO_32 * h2 % TWO_32) % TWO_32
  }

  /** The wrap-arounds in between do not matter. */
  lemma CombinedHashIs(h1: UInt32, h2: UInt32, i: nat)
    ensures CombinedHash(h1, h2, i) == (h1 + i * h2) % TWO_32
  {
    var q, low := i / TWO_32, i % TWO_32;
    var p := low * h2;
    Distribute(q * TWO_32, low, h2);
    Swap(q, TWO_32, h2);
    assert h1 + i * h2 == h1 + p % TWO_32 + (p / TWO_32 + q * h2) * TWO_32;
    ModDrop(h1 + p % TWO_32, p / TWO_32 + q * h2);
  }

  lemma Distribute(a: int, b: int, c: int)
    ensures (a + b) * c == a * c + b * c
  {
  }

  lemma Swap(a: int, b: int, c: int)
    ensures a * b * c == a * c * b
  {
  }

  lemma ModDrop(x: int, k: int)
    ensures (x + k * TWO_32) % TWO_32 == x % TWO_32
  {
    assert x + k * TWO_32 == (x / TWO_32 + k) * TWO_32 + x % TWO_32;
  }

  function Position(m: int, h1: UInt32, h2: UInt32, i: nat): (p: nat)
    requires 0 < m
    ensures p < m
  {
    CombinedHash(h1, h2, i) % m
  }

  /** The positions of the first `k` hashes. */
  function Spots(m: int, k: int, h1: UInt32, h2: UInt32): (spots: set<nat>)
    requires 0 < m
    ensures forall p :: p in spots ==> p < m
  {
    set i: nat | i < k :: Position(m, h1, h2, i)
  }

  /** The positions of a key. */
  function Positions(hs: Hashes, m: int, k: int, key: Bytes): set<nat>
    requires 0 < m
  {
    Spots(m, k, hs.fnv1a(key), hs.fnv1(key))
  }

  // ---------------------------------------------------------------------------------------------
  // Bits
  // ---------------------------------------------------------------------------------------------

  function Mask(i: nat): bv8
    requires i < 8
  {
    (1 as bv8) << i
  }

  lemma MaskValues(i: nat)
    requires i < 8
    ensures Mask(i) == if i == 0 then 1 else if i == 1 then 2 else if i == 2 then 4 else if i == 3 then 8
                       else if i == 4 then 16 else if i == 5 then 32 else if i == 6 then 64 else 128
  {
  }

  predicate TestBit(b: bv8, i: nat)
    requires i < 8
  {
    b & Mask(i) != 0
  }

  lemma OrMask(b: bv8, i: nat, j: nat)
    requires i < 8 && j < 8
    ensures TestBit(b | Mask(i), j) <==> i == j || TestBit(b, j)
  {
    MaskValues(i);
    MaskValues(j);
  }

  lemma OrByte(a: bv8, b: bv8, j: nat)
    requires j < 8
    ensures TestBit(a | b, j) <==> TestBit(a, j) || TestBit(b, j)
  {
    MaskValues(j);
  }

  lemma ZeroByte(j: nat)
    requires j < 8
    ensures !TestBit(0, j)
  {
  }

  /** Whether bit `p` is set; there is none past the end. */
  predicate BitAt(bytes: seq<bv8>, p: nat) {
    p / 8 < |bytes| && TestBit(bytes[p / 8], p % 8)
  }

  /** The positions below `m` whose bit is set. */
  function BitSet(bytes: seq<bv8>, m: int): set<nat> {
    set p: nat | p < m && BitAt(bytes, p)
  }

  lemma BitSetAfterSet(bytes: seq<bv8>, m: int, pos: nat)
    requires pos < m <= 8 * |bytes|
    ensures BitSet(bytes[pos / 8 := bytes[pos / 8] | Mask(pos % 8)], m) == BitSet(bytes, m) + {pos}
  {
    var bytes' := bytes[pos / 8 := bytes[pos / 8] | Mask(pos % 8)];
    forall p: nat | p < m
      ensures BitAt(bytes', p) <==> p == pos || BitAt(bytes, p)
    {
      if p / 8 == pos / 8 {
        OrMask(bytes[pos / 8], pos % 8, p % 8);
      }
    }
  }

  function OrBytes(x: bv8, y: bv8): bv8 {
    x | y
  }

  /** `r` is `a` with its first `n` bytes joined with those of `b`. */
  ghost predicate OredUpTo(a: seq<bv8>, b: seq<bv8>, r: seq<bv8>, n: nat) {
    && |r| == |a| && n <= |a| && n <= |b|
    && forall i :: 0 <= i < |a| ==> r[i] == if i < n then OrBytes(a[i], b[i]) else a[i]
  }

  /** The bits of `b` that have a byte in `a` are joined once one of the two is used up. */
  lemma BitSetAfterOr(a: seq<bv8>, b: seq<bv8>, r: seq<bv8>, n: nat, m: int)
    requires OredUpTo(a, b, r, n) && (n == |a| || n == |b|)
    ensures BitSet(r, m) == BitSet(a, m) + set p | p in BitSet(b, m) && p < 8 * |a|
  {
    forall p: nat | p < m
      ensures BitAt(r, p) <==> BitAt(a, p) || (BitAt(b, p) && p < 8 * |a|)
    {
      if p / 8 < n {
        OrByte(a[p / 8], b[p / 8], p % 8);
      }
    }
  }

  lemma BitSetOfZeros(bytes: seq<bv8>, m: int)
    requires forall i :: 0 <= i < |bytes| ==> bytes[i] == 0
    ensures BitSet(bytes, m) == {}
  {
    forall p: nat | p < m
      ensures !BitAt(bytes, p)
    {
      if p / 8 < |bytes| {
        ZeroByte(p % 8);
      }
    }
  }

  /** Or the bytes of `b` into those of `a`, in place, as far as both reach; they may be one array. */
  method OrInto(a: array<bv8>, b: array<bv8>) returns (n: nat)
    modifies a
    ensures n == (if b.Length < a.Length then b.Length else a.Length)
    ensures OredUpTo(old(a[..]), old(b[..]), a[..], n)
  {
    n := 0;
    while n < a.Length && n < b.Length
      invariant n <= a.Length && n <= b.Length
      invariant OredUpTo(old(a[..]), old(b[..]), a[..], n)
    {
      a[n] := OrBytes(a[n], b[n]);
      n := n + 1;
    }
  }

  datatype MergeResult = Merged | Incompatible | OutOfRange

  class BloomFilter {
    const hs: Hashes
    const bitArray: array<bv8>
    const numBits: int
    const numHashes: int
    var itemCount: int

    /** The number of bits as the uint32 that positions are reduced by. */
    function Size(): (m: int)
      ensures 0 <= m < TWO_32 && (0 <= numBits < TWO_32 ==> m == numBits)
    {
      numBits % TWO_32
    }

    /** There is a position, and the bytes hold as many bits as there are positions, perhaps more. */
    ghost predicate Valid() {
      0 < Size() <= 8 * bitArray.Length
    }

    /** The positions set so far. */
    ghost function Bits(): set<nat>
      reads bitArray
    {
      BitSet(bitArray[..], Size())
    }

    /** An empty filter; its size comes from a floating-point estimate that is an input here. */
    constructor (hs: Hashes, numBits: int, numHashes: int)
      requires 0 <= numBits
      ensures Bits() == {} && itemCount == 0 && fresh(bitArray) && bitArray.Length == (numBits + 7) / 8
      ensures numBits % TWO_32 != 0 ==> Valid()
      ensures this.hs == hs && this.numBits == numBits && this.numHashes == numHashes
    {
      this.hs, this.numBits, this.numHashes, itemCount := hs, numBits, numHashes, 0;
      bitArray := new bv8[(numBits + 7) / 8](_ => 0);
      new;
      BitSetOfZeros(bitArray[..], Size());
    }

    /** A filter around bits received from another peer. */
    constructor Deserialize(hs: Hashes, bitArray: array<bv8>, numBits: Int32, numHashes: Int32, itemCount: Int32)
      ensures this.hs == hs && this.bitArray == bitArray && this.numBits == numBits
      ensures this.numHashes == numHashes && this.itemCount == itemCount
    {
      this.hs, this.bitArray, this.numBits, this.numHashes, this.itemCount := hs, bitArray, numBits, numHashes,
          itemCount;
    }

    method SetBit(pos: nat)
      requires Valid() && pos < Size()
      modifies bitArray
      ensures Bits() == old(Bits()) + {pos}
    {
      var byteIndex, bitIndex := pos / 8, pos % 8;
      BitSetAfterSet(bitArray[..], Size(), pos);
      bitArray[byteIndex] := bitArray[byteIndex] | Mask(bitIndex);
      assert bitArray[..] == old(bitArray[..])[byteIndex := bitArray[byteIndex]];
    }

    method GetBit(pos: nat) returns (isSet: bool)
      requires Valid() && pos < Size()
      ensures isSet <==> pos in Bits()
    {
      isSet := bitArray[pos / 8] & Mask(pos % 8) != 0;
    }

    /** Exactly the positions of the key are added. */
    method Add(key: Bytes)
      requires Valid()
      modifies this, bitArray
      ensures Bits() == old(Bits()) + Positions(hs, Size(), numHashes, key) && itemCount == old(itemCount) + 1
    {
      var h1, h2 := hs.fnv1a(key), hs.fnv1(key);
      var i: nat := 0;
      while i < numHashes
        invariant i == 0 || i <= numHashes
        invariant Bits() == old(Bits()) + Spots(Size(), i, h1, h2) && itemCount == old(itemCount)
      {
        SpotsGrow(Size(), i, h1, h2);
        SetBit(CombinedHash(h1, h2, i) % Size());
        i := i + 1;
      }
      assert Spots(Size(), i, h1, h2) == Spots(Size(), numHashes, h1, h2);
      itemCount := itemCount + 1;
    }

    method MightContain(key: Bytes) returns (maybe: bool)
      requires Valid()
      ensures maybe <==> Positions(hs, Size(), numHashes, key) <= Bits()
    {
      var h1, h2 := hs.fnv1a(key), hs.fnv1(key);
      var i: nat := 0;
      while i < numHashes
        invariant i == 0 || i <= numHashes
        invariant Spots(Size(), i, h1, h2) <= Bits()
      {
        var bit := GetBit(CombinedHash(h1, h2, i) % Size());
        SpotsGrow(Size(), i, h1, h2);
        if !bit {
          assert Position(Size(), h1, h2, i) in Spots(Size(), numHashes, h1, h2);
          return false;
        }
        i := i + 1;
      }
      assert Spots(Size(), i, h1, h2) == Spots(Size(), numHashes, h1, h2);
      return true;
    }

    /**
     * A union of the bits, refused only when the sizes differ; the hash counts are not compared.  An
     * other filter with fewer bytes makes the loop over the receiver's bytes run out of range, with
     * the union done as far as it goes.  Merging a filter with itself would wait for its own lock.
     */
    method Merge(other: BloomFilter) returns (r: MergeResult)
      requires other != this
      modifies bitArray
      ensures r.Incompatible? <==> numBits != other.numBits
      ensures r.OutOfRange? <==> numBits == other.numBits && other.bitArray.Length < bitArray.Length
      ensures r.Incompatible? ==> Bits() == old(Bits())
      ensures !r.Incompatible? ==>
        Bits() == old(Bits()) + set p | p in old(other.Bits()) && p < 8 * bitArray.Length
      ensures !r.Incompatible? && Valid() ==> Bits() == old(Bits()) + old(other.Bits())
    {
      if numBits != other.numBits {
        return Incompatible;
      }
      var n := OrInto(bitArray, other.bitArray);
      BitSetAfterOr(old(bitArray[..]), old(other.bitArray[..]), bitArray[..], n, Size());
      r := if n < bitArray.Length then OutOfRange else Merged;
    }

    /** A copy of the bits for the network, detached from the filter. */
    method Serialize() returns (dataCopy: array<bv8>, bits: Int32, hashes: Int32, items: Int32)
      ensures fresh(dataCopy) && dataCopy[..] == bitArray[..]
      ensures bits == Wrap32(numBits) && hashes == Wrap32(numHashes) && items == Wrap32(itemCount)
    {
      dataCopy := new bv8[bitArray.Length];
      for i := 0 to bitArray.Length
        invariant dataCopy[..i] == bitArray[..i]
      {
        dataCopy[i] := bitArray[i];
      }
      assert dataCopy[..] == dataCopy[..bitArray.Length] && bitArray[..] == bitArray[..bitArray.Length];
      return dataCopy, Wrap32(numBits), Wrap32(numHashes), Wrap32(itemCount);
    }
  }

  /**
   * A filter whose hash count fits an int32 answers every question alike after it is sent and received.
   * A size that does not fit comes out negative and equals the old one no more, so that the two could
   * not be merged, but positions use it as a uint32, which undoes that.
   */
  method SendAndReceive(bf: BloomFilter) returns (copy: BloomFilter)
    requires bf.Valid()
    ensures copy.bitArray != bf.bitArray && copy.Valid() && copy.Size() == bf.Size() && copy.Bits() == bf.Bits()
    ensures -0x8000_0000 <= bf.numHashes <= MAX_INT32 ==> SameAnswers(bf, copy)
    ensures copy.numBits == bf.numBits <==> -0x8000_0000 <= bf.numBits <= MAX_INT32
  {
    var data, bits, hashes, items := bf.Serialize();
    copy := new BloomFilter.Deserialize(bf.hs, data, bits, hashes, items);
    SameSize(bf.numBits);
  }

  ghost predicate SameAnswers(bf: BloomFilter, copy: BloomFilter)
    requires bf.Valid() && copy.Valid()
    reads bf.bitArray, copy.bitArray
  {
    forall key ::
      Positions(copy.hs, copy.Size(), copy.numHashes, key) <= copy.Bits() <==>
      Positions(bf.hs, bf.Size(), bf.numHashes, key) <= bf.Bits()
  }

  lemma SameSize(numBits: int)
    ensures Wrap32(numBits) % TWO_32 == numBits % TWO_32
  {
  }

  lemma SpotsGrow(m: int, i: nat, h1: UInt32, h2: UInt32)
    requires 0 < m
    ensures Spots(m, i + 1, h1, h2) == Spots(m, i, h1, h2) + {Position(m, h1, h2, i)}
  {
  }
}
