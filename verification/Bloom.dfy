/** The Bloom filter kept in every SSTable, over any pair of hash functions. */
module Bloom {
  import opened Base
  import opened LittleEndian

  /** What hashfunc computes of a series. */
  type Hash = uint64 -> (uint64, uint64)

  // ----- bits of a byte

  /** b & (1 << i) != 0 */
  predicate Bit(b: nat, i: nat)
    decreases i
  {
    if i == 0 then b % 2 == 1 else Bit(b / 2, i - 1)
  }

  /** b | (1 << i) */
  function WithBit(b: nat, i: nat): nat
    decreases i
  {
    if i == 0 then b - b % 2 + 1 else b % 2 + 2 * WithBit(b / 2, i - 1)
  }

  lemma {:induction false} WithBitBits(b: nat, i: nat, j: nat)
    ensures Bit(WithBit(b, i), j) <==> j == i || Bit(b, j)
    decreases i
  {
    if i > 0 && j > 0 {
      WithBitBits(b / 2, i - 1, j - 1);
    }
  }

  lemma {:induction false} ZeroHasNoBits(i: nat)
    ensures !Bit(0, i)
  {
    if i > 0 {
      ZeroHasNoBits(i - 1);
    }
  }

  /** Bit i has the weight 2^i. */
  lemma {:induction false} BitIsDigit(b: nat, i: nat)
    ensures Pow2(i) > 0 && (Bit(b, i) <==> b / Pow2(i) % 2 == 1)
    decreases i
  {
    if i > 0 {
      BitIsDigit(b / 2, i - 1);
      HalfTwice(b, Pow2(i - 1));
    } else {
      assert b / 1 == b;
    }
  }

  lemma TwiceTimes(q: nat, p: nat)
    ensures q * (2 * p) == 2 * (q * p)
  {}

  lemma HalfTwice(b: nat, p: nat)
    requires p > 0
    ensures 2 * p > 0 && (b / 2) / p == b / (2 * p)
  {
    var half := b / 2;
    var q, r := half / p, half % p;
    assert half == q * p + r;
    TwiceTimes(q, p);
    QuotientOf(b, 2 * p, q, 2 * r + b % 2);
  }

  function Pow2(n: nat): nat {
    if n == 0 then 1 else 2 * Pow2(n - 1)
  }

  lemma {:induction false} WithBitBound(b: nat, i: nat, n: nat)
    requires i < n && b < Pow2(n)
    ensures WithBit(b, i) < Pow2(n)
    decreases i
  {
    if i > 0 {
      WithBitBound(b / 2, i - 1, n - 1);
    } else {
      EvenPow2(n);
    }
  }

  lemma EvenPow2(n: nat)
    requires n > 0
    ensures Pow2(n) % 2 == 0
  {}

  function SetBit(b: byte, i: nat): (r: byte)
    requires i < 8
    ensures forall j: nat :: Bit(r, j) <==> j == i || Bit(b, j)
  {
    assert Pow2(8) == 256 by { assert Pow2(4) == 16; }
    WithBitBound(b, i, 8);
    assert forall j: nat :: Bit(WithBit(b, i), j) <==> j == i || Bit(b, j) by {
      forall j: nat ensures Bit(WithBit(b, i), j) <==> j == i || Bit(b, j) {
        WithBitBits(b, i, j);
      }
    }
    WithBit(b, i)
  }

  // ----- the filter

  datatype Filter = Filter(bits: Bytes, numBits: uint64, numHashes: uint32)

  /** The bytes hold numBits bits, as NewBloomFilter allocates them. */
  predicate Sized(f: Filter) {
    |f.bits| == (f.numBits + 7) / 8
  }

  /** (h1 + uint64(i) * h2) % numBits in uint64 arithmetic, which wraps. */
  function Position(h: (uint64, uint64), i: nat, numBits: uint64): (p: nat)
    requires numBits >= 1
    ensures p < numBits
  {
    (h.0 + i * h.1) % TWO_64 % numBits
  }

  /** Double hashing in uint64 arithmetic: h1, h1 + h2, h1 + 2 h2, ... */
  ghost function Mixed(h: (uint64, uint64), i: nat): uint64 {
    if i == 0 then h.0 else (Mixed(h, i - 1) + h.1) % 0x1_0000_0000_0000_0000
  }

  lemma AddWrapped(x: nat, y: nat)
    ensures (x % TWO_64 + y) % TWO_64 == (x + y) % TWO_64
  {}

  lemma {:induction false} PositionIsDoubleHash(h: (uint64, uint64), i: nat, numBits: uint64)
    requires numBits >= 1
    ensures Mixed(h, i) == (h.0 + i * h.1) % TWO_64
    ensures Position(h, i, numBits) == Mixed(h, i) % numBits
  {
    if i > 0 {
      PositionIsDoubleHash(h, i - 1, numBits);
      var before := h.0 + (i - 1) * h.1;
      assert before + h.1 == h.0 + i * h.1;
      AddWrapped(before, h.1);
    }
  }

  predicate BitAt(bits: Bytes, p: nat) {
    p / 8 < |bits| && Bit(bits[p / 8], p % 8)
  }

  /** Every position the key hashes to is set. */
  ghost predicate Covers(bits: Bytes, numBits: uint64, numHashes: nat, h: (uint64, uint64))
    requires numBits >= 1
  {
    forall i :: 0 <= i < numHashes ==> BitAt(bits, Position(h, i, numBits))
  }

  class BloomFilter {
    const bits: array<byte>
    const numBits: uint64
    const numHashes: uint32

    ghost predicate Valid()
      reads this
    {
      numBits >= 1 && bits.Length == (numBits + 7) / 8
    }

    constructor (numBits: uint64, numHashes: uint32)
      requires numBits >= 1
      ensures Valid() && fresh(bits) && this.numBits == numBits && this.numHashes == numHashes
      ensures forall p: nat :: !BitAt(bits[..], p)
    {
      this.bits := new byte[(numBits + 7) / 8](_ => 0);
      this.numBits, this.numHashes := numBits, numHashes;
      new;
      forall p: nat ensures !BitAt(bits[..], p) {
        ZeroHasNoBits(p % 8);
      }
    }

    /** Sets exactly the bits the key hashes to. */
    method Add(hash: Hash, key: uint64)
      requires Valid()
      modifies bits
      ensures Covers(bits[..], numBits, numHashes, hash(key))
      ensures forall p: nat :: BitAt(bits[..], p) <==>
                BitAt(old(bits[..]), p) || Hits(hash(key), numBits, numHashes, p)
    {
      var h := hash(key);
      for i := 0 to numHashes
        invariant forall p: nat :: BitAt(bits[..], p) <==> BitAt(old(bits[..]), p) || Hits(h, numBits, i, p)
      {
        var position := Position(h, i, numBits);
        ghost var before := bits[..];
        bits[position / 8] := SetBit(bits[position / 8], position % 8);
        SetPosition(before, position);
        HitsNext(h, numBits, i);
      }
      HitsCover(bits[..], h, numBits, numHashes);
    }

    method Encode() returns (data: Bytes)
      requires Valid()
      ensures data == FilterBytes(Filter(bits[..], numBits, numHashes))
    {
      hide Put;
      var buf := new byte[12 + bits.Length];
      Store(buf, 0, numBits, 8);
      Store(buf, 8, numHashes, 4);
      Copy(buf, 12, bits[..]);
      assert buf[..] == buf[..12 + bits.Length];
      data := buf[..];
    }
  }

  /** p is one of the first n positions of the key. */
  ghost predicate Hits(h: (uint64, uint64), numBits: uint64, n: nat, p: nat)
    requires numBits >= 1
  {
    exists i :: 0 <= i < n && Position(h, i, numBits) == p
  }

  lemma HitsNext(h: (uint64, uint64), numBits: uint64, n: nat)
    requires numBits >= 1
    ensures forall p: nat :: Hits(h, numBits, n + 1, p) <==> p == Position(h, n, numBits) || Hits(h, numBits, n, p)
  {
    assert Hits(h, numBits, n + 1, Position(h, n, numBits));
  }

  lemma SetPosition(bits: Bytes, q: nat)
    requires q / 8 < |bits|
    ensures forall p: nat :: BitAt(bits[q / 8 := SetBit(bits[q / 8], q % 8)], p) <==> p == q || BitAt(bits, p)
  {
    forall p: nat ensures BitAt(bits[q / 8 := SetBit(bits[q / 8], q % 8)], p) <==> p == q || BitAt(bits, p) {
      if p / 8 == q / 8 {
        assert p == 8 * (p / 8) + p % 8 && q == 8 * (q / 8) + q % 8;
      }
    }
  }

  lemma HitsCover(bits: Bytes, h: (uint64, uint64), numBits: uint64, n: nat)
    requires numBits >= 1 && forall p: nat :: Hits(h, numBits, n, p) ==> BitAt(bits, p)
    ensures Covers(bits, numBits, n, h)
  {
    forall i | 0 <= i < n ensures BitAt(bits, Position(h, i, numBits)) {
      assert Hits(h, numBits, n, Position(h, i, numBits));
    }
  }

  /** NumBits(8) | NumHashes(4) | Bits */
  function FilterBytes(f: Filter): (b: Bytes)
    ensures |b| == 12 + |f.bits|
  {
    Put64(f.numBits) + Put32(f.numHashes) + f.bits
  }

  function DecodeFilter(data: Bytes): Result<Filter> {
    if |data| < 12 then Err("corrupt bloom filter")
    else Ok(Filter(data[12..], Get64(data[0..8]), Get32(data[8..12])))
  }

  lemma FilterParts(f: Filter)
    ensures var b := FilterBytes(f);
            b[0..8] == Put64(f.numBits) && b[8..12] == Put32(f.numHashes) && b[12..] == f.bits
  {
    hide Put64;
    hide Put32;
  }

  lemma FilterRoundTrip(f: Filter)
    ensures DecodeFilter(FilterBytes(f)) == Ok(f)
  {
    var b := FilterBytes(f);
    assert b[0..8] == Put64(f.numBits) && b[8..12] == Put32(f.numHashes) && b[12..] == f.bits;
  }

  /** False is definitive: some position of the key is not set. */
  method MayContain(f: Filter, hash: Hash, key: uint64) returns (may: bool)
    requires Sized(f)
    ensures may <==> f.numBits > 0 && f.numHashes > 0 && Covers(f.bits, f.numBits, f.numHashes, hash(key))
  {
    if f.numBits == 0 || f.numHashes == 0 {
      return false;
    }
    var h := hash(key);
    for i := 0 to f.numHashes
      invariant Covers(f.bits, f.numBits, i, h)
    {
      var position := Position(h, i, f.numBits);
      if !Bit(f.bits[position / 8], position % 8) {
        assert !BitAt(f.bits, Position(h, i, f.numBits));
        return false;
      }
    }
    return true;
  }
}
