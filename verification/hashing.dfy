/** The masked, reduced hash that both bucketing and displacement use
    (`GetBucketIndex`, `Phi` and the static `Hash(key, seed, mod)`). */
module Hashing {
  import opened Types

  /** 2^28, one more than the largest masked hash. */
  const MaskBound: nat := 0x1000_0000

  /** The raw hash with every bit above bit 27 cleared (`& SignMask`, the
      mask 0xfffffff): its remainder by 2^28 (see `MaskKeepsLowBits`). */
  function MaskedHash(x: Uint32): (r: nat)
    ensures r < MaskBound
  {
    Remainder(x, MaskBound)
  }

  /** Clearing the bits above bit 27 of a 32-bit pattern leaves the number
      `MaskedHash` computes. */
  lemma MaskKeepsLowBits(x: bv32)
    ensures MaskedHash(x as int) == ((x & 0x0FFF_FFFF) as bv28) as int
  {
    LowBitsSplit(x);
    RemainderOfSplit(x as int, (x >> 28) as int, ((x & 0x0FFF_FFFF) as bv28) as int);
    RemainderIsMod(x as int, MaskBound);
  }

  lemma LowBitsSplit(x: bv32)
    ensures x as int == ((x >> 28) as int) * 0x1000_0000 + ((x & 0x0FFF_FFFF) as bv28) as int
  {
  }

  lemma RemainderOfSplit(v: int, hi: nat, lo: nat)
    requires v == hi * MaskBound + lo && lo < MaskBound
    ensures v % MaskBound == lo
  {
  }

  /** The static `Hash(key, seed, mod)`: the masked hash of `key` under
      `seed`, reduced modulo `mod`. Division by zero is excluded by the
      requires clause. */
  function Reduce(h: Hasher, key: Key, seed: Uint32, mod: nat): (r: nat)
    requires mod > 0
    ensures r < mod
    ensures r < MaskBound
  {
    Remainder(MaskedHash(h(key, seed)), mod)
  }

  /** The remainder of `m` by `mod`, by repeated subtraction. The same
      number as `m % mod` (see `RemainderIsMod`); the recursive form keeps
      division out of every proof that only needs its range. */
  function Remainder(m: nat, mod: nat): (r: nat)
    requires mod > 0
    ensures r < mod && r <= m
    decreases m
  {
    if m < mod then m else Remainder(m - mod, mod)
  }

  /** `Remainder` is the modulus of the C# `%` operator on non-negative
      operands. */
  lemma {:induction false} RemainderIsMod(m: nat, mod: nat)
    requires mod > 0
    ensures Remainder(m, mod) == m % mod
    decreases m
  {
    if m >= mod {
      RemainderIsMod(m - mod, mod);
      var q := (m - mod) / mod;
      assert m - mod == q * mod + (m - mod) % mod;
      assert m == (q + 1) * mod + (m - mod) % mod;
      ModUnique(m, mod, q + 1, (m - mod) % mod);
    }
  }

  lemma ModUnique(m: nat, mod: nat, q: int, r: int)
    requires mod > 0 && 0 <= r < mod && m == q * mod + r
    ensures m % mod == r
  {
    var q', r' := m / mod, m % mod;
    assert (q - q') * mod == r' - r by {
      assert m == q' * mod + r';
      assert q * mod - q' * mod == (q - q') * mod;
    }
    if q > q' {
      MulAtLeast(q - q', mod);
    } else if q < q' {
      MulAtLeast(q' - q, mod);
    }
  }

  lemma MulAtLeast(a: int, b: nat)
    requires a >= 1
    ensures a * b >= b
  {
  }

  /** `GetBucketIndex`: the bucket of a key, always hashed with seed 0. */
  function BucketIndex(h: Hasher, numBuckets: nat, key: Key): (r: nat)
    requires numBuckets > 0
    ensures r < numBuckets
  {
    Reduce(h, key, InitSeed, numBuckets)
  }

  /** `Phi`: the bin of a key under displacement seed `d`. */
  function Phi(h: Hasher, numBins: nat, key: Key, d: Uint32): (r: nat)
    requires numBins > 0
    ensures r < numBins
  {
    Reduce(h, key, d, numBins)
  }

  /** The bins of the keys of a bucket under seed `d`, in bucket order. */
  function Bins(h: Hasher, numBins: nat, bucket: seq<Key>, d: Uint32): (r: seq<nat>)
    requires numBins > 0
    ensures |r| == |bucket|
    ensures forall i :: 0 <= i < |r| ==> r[i] == Phi(h, numBins, bucket[i], d)
  {
    seq(|bucket|, i requires 0 <= i < |bucket| => Phi(h, numBins, bucket[i], d))
  }
}
