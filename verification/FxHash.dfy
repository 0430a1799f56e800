/** The rotate-xor-multiply hash shared by WAL checksums and Bloom filters. */
module FxHash {
  import opened Bytes
  import opened BigEndian

  const MULT: u64 := 0x517c_c1b7_2722_0a95

  function Xor(a: u64, b: u64): u64 {
    ((a as bv64) ^ (b as bv64)) as int
  }

  function FromLe(s: bytes): (r: nat)
    requires |s| <= 8
    ensures r < Pow256(|s|)
  {
    if s == [] then 0 else s[0] + 256 * FromLe(s[1..])
  }

  /** A little-endian word of at most eight bytes, zero-extended. */
  function Word(s: bytes): u64
    requires |s| <= 8
  {
    Widths();
    Pow256Monotone(|s|, 8);
    FromLe(s)
  }

  lemma {:induction false} Pow256Monotone(a: nat, b: nat)
    requires a <= b
    ensures Pow256(a) <= Pow256(b)
    decreases b
  {
    if a < b { Pow256Monotone(a, b - 1); }
  }

  function RotateLeft5(h: u64): u64 {
    (h * 32) % 0x1_0000_0000_0000_0000 / 32 * 32 + h / 0x800_0000_0000_0000
  }

  function Mix(h: u64, w: u64): u64 {
    (Xor(RotateLeft5(h), w) * MULT) % 0x1_0000_0000_0000_0000
  }

  /** Eight bytes at a time, then the zero-padded remainder. */
  function Hash(seed: u64, data: bytes): u64
    decreases |data|
  {
    if |data| >= 8 then Hash(Mix(seed, Word(data[..8])), data[8..])
    else if data == [] then seed
    else Mix(seed, Word(data))
  }

  /** The loop of the source. */
  method FxHash64(data: bytes, seed: u64) returns (hash: u64)
    ensures hash == Hash(seed, data)
  {
    hide Mix, Word;
    hash := seed;
    var i := 0;
    while i + 8 <= |data|
      invariant 0 <= i <= |data| && Hash(seed, data) == Hash(hash, data[i..])
    {
      assert data[i..][..8] == data[i..i + 8] && data[i..][8..] == data[i + 8..];
      hash := Mix(hash, Word(data[i..i + 8]));
      i := i + 8;
    }
    if i < |data| {
      hash := Mix(hash, Word(data[i..]));
    }
  }

  /** Whole words can be hashed first and the rest afterwards. */
  lemma {:induction false} HashStreams(seed: u64, a: bytes, b: bytes)
    requires |a| % 8 == 0
    ensures Hash(seed, a + b) == Hash(Hash(seed, a), b)
    decreases |a|
  {
    hide Mix, Word;
    if a == [] {
      assert a + b == b;
    } else {
      assert (a + b)[..8] == a[..8] && (a + b)[8..] == a[8..] + b;
      HashStreams(Mix(seed, Word(a[..8])), a[8..], b);
    }
  }
}
