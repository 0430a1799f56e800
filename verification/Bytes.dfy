/** Byte strings, their lexicographic order, and the prefix arithmetic of `src/record.rs`.

    `Less` is the order of Rust's `[u8]: Ord`; Dafny's own `p <= k` on sequences means
    "p is a prefix of k" and is used for `starts_with`. */
module Bytes {

  type byte = b: int | 0 <= b < 256
  type bytes = seq<byte>

  const SEP: byte := 0x00

  predicate Less(a: bytes, b: bytes) {
    b != [] && (a == [] || a[0] < b[0] || (a[0] == b[0] && Less(a[1..], b[1..])))
  }

  predicate AtMost(a: bytes, b: bytes) {
    a == b || Less(a, b)
  }

  lemma {:induction false} LessIrreflexive(a: bytes)
    ensures !Less(a, a)
  {
    if a != [] { LessIrreflexive(a[1..]); }
  }

  lemma {:induction false} LessTransitive(a: bytes, b: bytes, c: bytes)
    requires Less(a, b) && Less(b, c)
    ensures Less(a, c)
  {
    if a != [] && a[0] == b[0] == c[0] { LessTransitive(a[1..], b[1..], c[1..]); }
  }

  lemma {:induction false} LessTotal(a: bytes, b: bytes)
    ensures Less(a, b) || a == b || Less(b, a)
  {
    if a != [] && b != [] && a[0] == b[0] {
      LessTotal(a[1..], b[1..]);
      if a[1..] == b[1..] { assert a == [a[0]] + a[1..] == b; }
    }
  }

  lemma LessAsymmetric(a: bytes, b: bytes)
    requires Less(a, b)
    ensures a != b && !Less(b, a)
  {
    LessIrreflexive(a);
    if Less(b, a) { LessTransitive(a, b, a); }
  }

  /** Exactly one of the three holds. */
  lemma Trichotomy(a: bytes, b: bytes)
    ensures Less(a, b) || a == b || Less(b, a)
    ensures Less(a, b) ==> a != b && !Less(b, a)
    ensures Less(b, a) ==> a != b && !Less(a, b)
  {
    LessTotal(a, b);
    if Less(a, b) { LessAsymmetric(a, b); }
    if Less(b, a) { LessAsymmetric(b, a); }
  }

  lemma AtMostTransitive(a: bytes, b: bytes, c: bytes)
    ensures AtMost(a, b) && AtMost(b, c) ==> AtMost(a, c)
  {
    if Less(a, b) && Less(b, c) { LessTransitive(a, b, c); }
  }

  lemma AtMostLess(a: bytes, b: bytes, c: bytes)
    requires AtMost(a, b) && Less(b, c)
    ensures Less(a, c)
  {
    if a != b { LessTransitive(a, b, c); }
  }

  lemma LessAtMost(a: bytes, b: bytes, c: bytes)
    requires Less(a, b) && AtMost(b, c)
    ensures Less(a, c)
  {
    if b != c { LessTransitive(a, b, c); }
  }

  /** A common prefix does not matter. */
  lemma {:induction false} LessCancel(p: bytes, a: bytes, b: bytes)
    ensures Less(p + a, p + b) <==> Less(a, b)
  {
    if p == [] {
      assert p + a == a && p + b == b;
    } else {
      assert (p + a)[1..] == p[1..] + a && (p + b)[1..] == p[1..] + b;
      LessCancel(p[1..], a, b);
    }
  }

  /** Once two strings differ, what follows them does not matter. */
  lemma {:induction false} LessDiverged(a: bytes, x: bytes, b: bytes, y: bytes)
    requires !(a <= b) && !(b <= a)
    ensures Less(a + x, b + y) <==> Less(a, b)
  {
    assert (a + x)[0] == a[0] && (b + y)[0] == b[0];
    if a[0] == b[0] {
      assert (a + x)[1..] == a[1..] + x && (b + y)[1..] == b[1..] + y;
      LessDiverged(a[1..], x, b[1..], y);
    }
  }

  /** A proper prefix is smaller. */
  lemma {:induction false} PrefixLess(p: bytes, k: bytes)
    requires p < k
    ensures Less(p, k)
  {
    if p != [] { PrefixLess(p[1..], k[1..]); }
  }

  lemma PrefixAtMost(p: bytes, k: bytes)
    requires p <= k
    ensures AtMost(p, k)
  {
    if p != k { PrefixLess(p, k); }
  }

  /** Equal-length strings compare by their heads first, then by their last byte. */
  lemma {:induction false} LessSnoc(a: bytes, x: byte, b: bytes, y: byte)
    requires |a| == |b|
    ensures Less(a + [x], b + [y]) <==> Less(a, b) || (a == b && x < y)
  {
    if a == [] {
      assert a + [x] == [x] && b + [y] == [y];
    } else {
      assert (a + [x])[1..] == a[1..] + [x] && (b + [y])[1..] == b[1..] + [y];
      LessSnoc(a[1..], x, b[1..], y);
      assert a == [a[0]] + a[1..] && b == [b[0]] + b[1..];
    }
  }

  // ---------------------------------------------------------------- prefix increment

  /** Some byte is below 255, so the prefix has a successor of at most its own length. */
  predicate Incrementable(p: bytes) {
    exists i :: 0 <= i < |p| && p[i] < 255
  }

  /** `increment_prefix_bytes`: drop trailing 255s, add one; an all-255 string becomes the
      string followed by a zero byte. */
  function Increment(p: bytes): bytes {
    if Incrementable(p) then Bump(p) else p + [0]
  }

  function Bump(p: bytes): bytes
    requires Incrementable(p)
  {
    var n := |p| - 1;
    if p[n] < 255 then p[..n] + [p[n] + 1]
    else assert Incrementable(p[..n]) by {
           var i :| 0 <= i < |p| && p[i] < 255;
           assert p[..n][i] < 255;
         }
         Bump(p[..n])
  }

  /** The popping loop of the source. */
  method IncrementPrefixBytes(key: bytes) returns (r: bytes)
    ensures r == Increment(key)
  {
    var buf := key;
    while buf != []
      invariant Incrementable(buf) <==> Incrementable(key)
      invariant Incrementable(key) ==> Bump(buf) == Bump(key)
      decreases |buf|
    {
      var n := |buf| - 1;
      if buf[n] < 255 {
        return buf[..n] + [buf[n] + 1];
      }
      if Incrementable(buf) {
        var i :| 0 <= i < |buf| && buf[i] < 255;
        assert buf[..n][i] < 255;
      }
      buf := buf[..n];
    }
    r := key + [0];
  }

  /** `Bump` seen from the front. */
  lemma {:induction false} BumpFront(p: bytes)
    requires Incrementable(p)
    ensures Incrementable(p[1..]) ==> Bump(p) == [p[0]] + Bump(p[1..])
    ensures !Incrementable(p[1..]) ==> p[0] < 255 && Bump(p) == [p[0] + 1]
  {
    var n := |p| - 1;
    var i :| 0 <= i < |p| && p[i] < 255;
    assert i > 0 ==> p[1..][i - 1] < 255;
    if p[n] < 255 {
      if n > 0 {
        assert p[1..][n - 1] == p[n] && p[..n] == [p[0]] + p[1..][..n - 1];
      }
    } else {
      assert p[..n][i] < 255 && p[..n][1..] == p[1..][..n - 1];
      BumpFront(p[..n]);
      if Incrementable(p[1..]) {
        var j :| 0 <= j < n && p[1..][j] < 255;
        assert p[1..][..n - 1][j] < 255;
      }
    }
  }

  /** No string of the same length is above an all-255 string. */
  lemma {:induction false} AboveAllMax(q: bytes, k: bytes)
    requires !Incrementable(q)
    ensures AtMost(q, k) <==> q <= k
  {
    if q == [] {
      PrefixAtMost(q, k);
    } else if k != [] {
      assert q[0] == 255 && forall i :: 0 <= i < |q| - 1 ==> q[1..][i] == q[i + 1];
      AboveAllMax(q[1..], k[1..]);
      HeadTail(q, k);
    }
  }

  /** Equality and prefix, one byte at a time. */
  lemma HeadTail(p: bytes, k: bytes)
    requires p != [] && k != []
    ensures p == k <==> p[0] == k[0] && p[1..] == k[1..]
    ensures p <= k <==> p[0] == k[0] && p[1..] <= k[1..]
  {
    assert p == [p[0]] + p[1..] && k == [k[0]] + k[1..];
  }

  /** `p <= k < increment(p)` means "k starts with p", for every p with a byte below 255. */
  lemma {:induction false} PrefixRangeMeansPrefix(p: bytes, k: bytes)
    requires Incrementable(p)
    ensures AtMost(p, k) && Less(k, Increment(p)) <==> p <= k
  {
    BumpFront(p);
    if k != [] {
      HeadTail(p, k);
      if Incrementable(p[1..]) {
        PrefixRangeMeansPrefix(p[1..], k[1..]);
        assert Increment(p)[1..] == Increment(p[1..]);
      } else {
        AboveAllMax(p[1..], k[1..]);
        assert Increment(p)[1..] == [];
      }
    }
  }

  /** The condition is exact: an all-255 string (the empty one included) has an
      "incremented" range that holds nothing but itself. */
  lemma PrefixRangeExact(p: bytes)
    ensures Incrementable(p) <==>
            forall k: bytes :: (AtMost(p, k) && Less(k, Increment(p)) <==> p <= k)
  {
    if Incrementable(p) {
      forall k: bytes ensures AtMost(p, k) && Less(k, Increment(p)) <==> p <= k {
        PrefixRangeMeansPrefix(p, k);
      }
    } else {
      var k := p + [1];
      LessCancel(p, [1], [0]);
      assert p <= k && !Less(k, Increment(p));
    }
  }
}
