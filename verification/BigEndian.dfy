/** Fixed-width big-endian integers: `to_be_bytes` and `from_be_bytes`. */
module BigEndian {
  import opened Bytes

  type u16 = n: int | 0 <= n < 0x1_0000
  type u32 = n: int | 0 <= n < 0x1_0000_0000
  type u64 = n: int | 0 <= n < 0x1_0000_0000_0000_0000
  type i64 = n: int | -0x8000_0000_0000_0000 <= n < 0x8000_0000_0000_0000

  const TOP_BIT: int := 0x8000_0000_0000_0000

  function Pow256(w: nat): (r: nat)
    ensures r >= 1
  {
    if w == 0 then 1 else 256 * Pow256(w - 1)
  }

  /** The low `w` bytes of n, most significant first. */
  function ToBe(n: nat, w: nat): (s: bytes)
    ensures |s| == w
  {
    if w == 0 then [] else ToBe(n / 256, w - 1) + [n % 256]
  }

  function FromBe(s: bytes): nat {
    if s == [] then 0 else 256 * FromBe(s[..|s| - 1]) + s[|s| - 1]
  }

  lemma Widths()
    ensures Pow256(2) == 0x1_0000
    ensures Pow256(4) == 0x1_0000_0000
    ensures Pow256(8) == 0x1_0000_0000_0000_0000
  {
    assert Pow256(1) == 256 && Pow256(2) == 0x1_0000 && Pow256(3) == 0x100_0000;
    assert Pow256(4) == 0x1_0000_0000 && Pow256(5) == 0x100_0000_0000;
    assert Pow256(6) == 0x1_0000_0000_0000 && Pow256(7) == 0x100_0000_0000_0000;
  }

  /** Decoding undoes encoding for every number that fits. */
  lemma {:induction false} BeRoundTrip(n: nat, w: nat)
    requires n < Pow256(w)
    ensures FromBe(ToBe(n, w)) == n
  {
    if w > 0 {
      BeRoundTrip(n / 256, w - 1);
      var s := ToBe(n, w);
      assert s[..|s| - 1] == ToBe(n / 256, w - 1);
    }
  }

  lemma {:induction false} FromBeBound(s: bytes)
    ensures FromBe(s) < Pow256(|s|)
  {
    if s != [] { FromBeBound(s[..|s| - 1]); }
  }

  /** Encoding undoes decoding: no two byte strings of one length share a number. */
  lemma {:induction false} FromBeRoundTrip(s: bytes)
    ensures ToBe(FromBe(s), |s|) == s
  {
    if s != [] {
      FromBeRoundTrip(s[..|s| - 1]);
      assert s == s[..|s| - 1] + [s[|s| - 1]];
    }
  }

  /** Byte order of the encodings is numeric order. */
  lemma {:induction false} BeOrder(n: nat, m: nat, w: nat)
    requires n < Pow256(w) && m < Pow256(w)
    ensures Less(ToBe(n, w), ToBe(m, w)) <==> n < m
  {
    if w > 0 {
      BeOrder(n / 256, m / 256, w - 1);
      LessSnoc(ToBe(n / 256, w - 1), n % 256, ToBe(m / 256, w - 1), m % 256);
      BeRoundTrip(n / 256, w - 1);
      BeRoundTrip(m / 256, w - 1);
    }
  }

  lemma BeInjective(n: nat, m: nat, w: nat)
    requires n < Pow256(w) && m < Pow256(w) && ToBe(n, w) == ToBe(m, w)
    ensures n == m
  {
    BeRoundTrip(n, w);
    BeRoundTrip(m, w);
  }

  /** Two's complement: the `as u64` and `as i64` casts. */
  function AsU64(i: i64): u64 {
    if i < 0 then i + 2 * TOP_BIT else i
  }

  function AsI64(u: u64): (i: i64)
    ensures AsU64(i) == u
  {
    if u >= TOP_BIT then u - 2 * TOP_BIT else u
  }

  lemma CastRoundTrip(i: i64)
    ensures AsI64(AsU64(i)) == i
  {}

  /** `u ^ (1 << 63)`. */
  function FlipTop(u: u64): u64 {
    if u >= TOP_BIT then u - TOP_BIT else u + TOP_BIT
  }
}
