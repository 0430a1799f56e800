/** The Bloom filter (`src/bloom.rs`) over its array of 64-bit words. */
module Bloom {
  import opened Bytes
  import opened BigEndian
  import opened FxHash

  const CURRENT_HASH_VERSION: nat := 2
  const SEED_A: u64 := 0x5365_7244_424c_4f4f
  const SEED_B: u64 := 0x5744_425f_464c_4f57

  function HashPair(data: bytes): (u64, u64) {
    (Hash(Xor(SEED_A, SEED_B), data), Hash(Xor(0xFFFF_FFFF_FFFF_FFFF - SEED_A, SEED_B), data))
  }

  /** The i-th bit position of a key in a filter of so many words. */
  function Position(key: bytes, i: nat, words: nat): (p: nat)
    requires 0 < words
    ensures p < 64 * words
  {
    var (h1, h2) := HashPair(key);
    (h1 + i * h2 % 0x1_0000_0000_0000_0000) % 0x1_0000_0000_0000_0000 % (64 * words)
  }

  /** A 64-bit word, as the set of its one-bits. */
  type word = w: set<nat> | forall b :: b in w ==> b < 64

  /** `1u64 << bit`. */
  function Mask(bit: nat): word
    requires bit < 64
  {
    {bit}
  }

  /** `w & (1u64 << bit) != 0`. */
  predicate HasBit(w: word, bit: nat)
    requires bit < 64
  {
    w * Mask(bit) != {}
  }

  predicate BitSet(bits: seq<word>, p: nat)
    requires p < 64 * |bits|
  {
    HasBit(bits[p / 64], p % 64)
  }

  lemma OrMask(x: word, s: nat, t: nat)
    requires s < 64 && t < 64
    ensures HasBit(x + Mask(s), t) <==> HasBit(x, t) || s == t
  {
    assert HasBit(x, t) <==> t in x by { if t in x { assert t in x * Mask(t); } }
    assert HasBit(x + Mask(s), t) <==> t in x + Mask(s) by {
      if t in x + Mask(s) { assert t in (x + Mask(s)) * Mask(t); }
    }
  }

  /** `bits[q / 64] |= 1u64 << (q % 64)`. */
  function WithBit(bits: seq<word>, q: nat): seq<word>
    requires q < 64 * |bits|
  {
    bits[q / 64 := bits[q / 64] + Mask(q % 64)]
  }

  /** Some key has the bit among its first n positions. */
  ghost predicate Covered(keys: set<bytes>, n: nat, words: nat, p: nat)
    requires 0 < words
  {
    exists k, i :: k in keys && 0 <= i < n && Position(k, i, words) == p
  }

  /** The bits are the positions of the keys and no others. */
  ghost predicate Represents(bits: seq<word>, n: nat, keys: set<bytes>) {
    |bits| > 0 && forall p :: 0 <= p < 64 * |bits| ==> (BitSet(bits, p) <==> Covered(keys, n, |bits|, p))
  }

  /** Half-way through an insertion: the key's first m positions are in too. */
  ghost predicate Partly(bits: seq<word>, n: nat, keys: set<bytes>, key: bytes, m: nat) {
    |bits| > 0
    && forall p :: 0 <= p < 64 * |bits| ==>
         (BitSet(bits, p) <==> Covered(keys, n, |bits|, p) || Covered({key}, m, |bits|, p))
  }

  lemma SetOne(bits: seq<word>, bits': seq<word>, q: nat, p: nat)
    requires q < 64 * |bits| && p < 64 * |bits|
    requires bits' == WithBit(bits, q)
    ensures BitSet(bits', p) <==> BitSet(bits, p) || p == q
  {
    hide Mask, HasBit;
    assert p == q <==> p / 64 == q / 64 && p % 64 == q % 64 by {
      assert p == p / 64 * 64 + p % 64 && q == q / 64 * 64 + q % 64;
    }
    if p / 64 == q / 64 { OrMask(bits[q / 64], q % 64, p % 64); }
  }

  lemma SetNext(bits: seq<word>, bits': seq<word>, n: nat, keys: set<bytes>, key: bytes, m: nat)
    requires Partly(bits, n, keys, key, m)
    requires bits' == WithBit(bits, Position(key, m, |bits|))
    ensures Partly(bits', n, keys, key, m + 1)
  {
    hide Position, BitSet, Mask, HasBit;
    var q := Position(key, m, |bits|);
    forall p | 0 <= p < 64 * |bits'|
      ensures BitSet(bits', p) <==> Covered(keys, n, |bits'|, p) || Covered({key}, m + 1, |bits'|, p)
    {
      SetOne(bits, bits', q, p);
      assert Covered({key}, m + 1, |bits|, p) <==> Covered({key}, m, |bits|, p) || p == q by {
        if p == q { assert key in {key} && Position(key, m, |bits|) == p; }
      }
    }
  }

  lemma Inserted(bits: seq<word>, n: nat, keys: set<bytes>, key: bytes)
    requires Partly(bits, n, keys, key, n)
    ensures Represents(bits, n, keys + {key})
  {
    hide Position, BitSet;
    forall p | 0 <= p < 64 * |bits| ensures BitSet(bits, p) <==> Covered(keys + {key}, n, |bits|, p) {
      if Covered(keys + {key}, n, |bits|, p) {
        var k, i :| k in keys + {key} && 0 <= i < n && Position(k, i, |bits|) == p;
        assert k in keys || k in {key};
      }
    }
  }

  class BloomFilter {
    const bits: array<word>
    const numHashes: nat
    const hashVersion: nat
    ghost var inserted: set<bytes>

    ghost predicate Valid()
      reads this, bits
    {
      bits.Length > 0 && numHashes >= 2
      && (hashVersion == CURRENT_HASH_VERSION ==> Represents(bits[..], numHashes, inserted))
    }

    /** `with_bits_per_key`. */
    constructor (expectedKeys: nat, bitsPerKey: nat)
      ensures Valid() && inserted == {} && fresh(bits) && hashVersion == CURRENT_HASH_VERSION
      ensures 2 <= numHashes <= 30 && 64 * bits.Length >= expectedKeys * bitsPerKey
    {
      var wanted := (bitsPerKey * 69 + 99) / 100;
      numHashes := if wanted < 2 then 2 else if wanted > 30 then 30 else wanted;
      var numBits := if expectedKeys * bitsPerKey > 64 then expectedKeys * bitsPerKey else 64;
      bits := new word[(numBits + 63) / 64](_ => {});
      hashVersion := CURRENT_HASH_VERSION;
      inserted := {};
      new;
      EmptyFilter(bits[..], numHashes);
    }

    /** Afterwards the filter stands for one key more. */
    method Insert(key: bytes)
      requires Valid()
      modifies this`inserted, bits
      ensures Valid() && inserted == old(inserted) + {key}
    {
      hide Position, Represents, Partly, Mask, HashPair;
      ghost var keys := inserted;
      if hashVersion == CURRENT_HASH_VERSION { NothingYet(bits[..], numHashes, keys, key); }
      for i := 0 to numHashes
        invariant inserted == keys
        invariant hashVersion == CURRENT_HASH_VERSION ==> Partly(bits[..], numHashes, keys, key, i)
      {
        var position := Position(key, i, bits.Length);
        ghost var before := bits[..];
        bits[position / 64] := bits[position / 64] + Mask(position % 64);
        assert bits[..] == WithBit(before, position);
        if hashVersion == CURRENT_HASH_VERSION { SetNext(before, bits[..], numHashes, keys, key, i); }
      }
      inserted := inserted + {key};
      if hashVersion == CURRENT_HASH_VERSION { Inserted(bits[..], numHashes, keys, key); }
    }

    /** Yes for every inserted key; no exactly when some bit of the key belongs to none. */
    method MayContain(key: bytes) returns (yes: bool)
      requires Valid()
      ensures key in inserted ==> yes
      ensures yes <==> hashVersion != CURRENT_HASH_VERSION
                       || forall i :: 0 <= i < numHashes ==>
                            Covered(inserted, numHashes, bits.Length, Position(key, i, bits.Length))
    {
      hide Position, HasBit, HashPair;
      if hashVersion != CURRENT_HASH_VERSION {
        return true;
      }
      for i := 0 to numHashes
        invariant forall j :: 0 <= j < i ==> Covered(inserted, numHashes, bits.Length, Position(key, j, bits.Length))
      {
        var position := Position(key, i, bits.Length);
        assert BitSet(bits[..], position) <==> Covered(inserted, numHashes, bits.Length, position);
        if !HasBit(bits[position / 64], position % 64) {
          return false;
        }
      }
      return true;
    }
  }

  lemma EmptyFilter(bits: seq<word>, n: nat)
    requires |bits| > 0 && forall i :: 0 <= i < |bits| ==> bits[i] == {}
    ensures Represents(bits, n, {})
  {
    hide Position;
  }

  lemma NothingYet(bits: seq<word>, n: nat, keys: set<bytes>, key: bytes)
    requires Represents(bits, n, keys)
    ensures Partly(bits, n, keys, key, 0)
  {
    hide Position, BitSet;
  }

  /** `from_keys_with_bits`: a filter for a list of keys. */
  method FromKeys(keys: seq<bytes>, bitsPerKey: nat) returns (filter: BloomFilter)
    ensures fresh(filter) && fresh(filter.bits) && filter.Valid()
    ensures filter.hashVersion == CURRENT_HASH_VERSION && forall k :: k in filter.inserted <==> k in keys
  {
    filter := new BloomFilter(|keys|, bitsPerKey);
    for i := 0 to |keys|
      invariant fresh(filter) && fresh(filter.bits) && filter.Valid()
      invariant filter.hashVersion == CURRENT_HASH_VERSION && forall k :: k in filter.inserted <==> k in keys[..i]
    {
      filter.Insert(keys[i]);
      assert keys[..i + 1] == keys[..i] + [keys[i]];
    }
    assert keys[..|keys|] == keys;
  }
}
