/** The sortable encoding of index values and of composite index rows
    (`src/jsondb/encoding.rs`): a prefix-free, order-preserving code. */
module Encoding {
  import opened Bytes
  import opened BigEndian
  import opened Json

  const TAG_NULL: byte := 0x01
  const TAG_FALSE: byte := 0x02
  const TAG_TRUE: byte := 0x03
  const TAG_I64: byte := 0x04
  const TAG_F64: byte := 0x05
  const TAG_U64: byte := 0x06
  const TAG_STRING: byte := 0x07
  const TAG_OTHER: byte := 0x08

  function Tag(v: Json): byte {
    match v
    case Null => TAG_NULL
    case Bool(b) => if b then TAG_TRUE else TAG_FALSE
    case I64(_) => TAG_I64
    case U64(_) => TAG_U64
    case F64(_, _) => TAG_F64
    case Str(_) => TAG_STRING
    case Arr(_, _) => TAG_OTHER
    case Obj(_, _) => TAG_OTHER
  }

  /** `!bits` for a negative float, `bits ^ (1 << 63)` otherwise. */
  function AdjustFloat(bits: u64): u64 {
    if bits >= TOP_BIT then 2 * TOP_BIT - 1 - bits else FlipTop(bits)
  }

  function Payload(v: Json): bytes {
    match v
    case Null => []
    case Bool(_) => []
    case I64(i) => ToBe(FlipTop(AsU64(i)), 8)
    case U64(u) => ToBe(FlipTop(u), 8)
    case F64(bits, _) => ToBe(AdjustFloat(bits), 8)
    case Str(s) => s
    case Arr(_, t) => t
    case Obj(_, t) => t
  }

  /** `encode_index_value`. */
  function EncodeValue(v: Json): bytes {
    [Tag(v)] + Payload(v)
  }

  /** `encode_composite_value`: the encodings joined by a separator. */
  function EncodeRow(row: seq<Json>): bytes {
    if row == [] then []
    else if |row| == 1 then EncodeValue(row[0])
    else EncodeValue(row[0]) + [SEP] + EncodeRow(row[1..])
  }

  /** The source's loop over an enumerated slice. */
  method EncodeCompositeValue(row: seq<Json>) returns (buf: bytes)
    ensures buf == EncodeRow(row)
  {
    buf := [];
    for i := 0 to |row|
      invariant buf == EncodeRow(row[..i])
    {
      EncodeRowSnoc(row[..i], row[i]);
      assert row[..i + 1] == row[..i] + [row[i]];
      if i > 0 { buf := buf + [SEP]; }
      buf := buf + EncodeValue(row[i]);
    }
    assert row[..|row|] == row;
  }

  lemma {:induction false} EncodeRowSnoc(row: seq<Json>, v: Json)
    ensures EncodeRow(row + [v]) ==
            if row == [] then EncodeValue(v) else EncodeRow(row) + [SEP] + EncodeValue(v)
  {
    if row == [] {
      assert row + [v] == [v];
    } else {
      assert (row + [v])[1..] == row[1..] + [v];
      EncodeRowSnoc(row[1..], v);
    }
  }

  // ---------------------------------------------------------------- the intended order

  /** A string index value must not contain the separator; nothing else is restricted. */
  predicate NulFree(v: Json) {
    v.Str? ==> SEP !in v.s
  }

  predicate RowNulFree(row: seq<Json>) {
    forall i :: 0 <= i < |row| ==> NulFree(row[i])
  }

  function Pow2(n: nat): (r: nat)
    ensures r >= 1
  {
    if n == 0 then 1 else 2 * Pow2(n - 1)
  }

  const FRACTION: nat := 0x10_0000_0000_0000

  /** |x| of a binary64 datum as a multiple of its least subnormal (section 3.4 of
      IEEE 754-2019); the infinity pattern falls above every finite magnitude. */
  function Magnitude(bits: u64): nat {
    var m := bits % TOP_BIT;
    Scaled(m / FRACTION, m % FRACTION)
  }

  function Scaled(exponent: nat, fraction: nat): nat {
    if exponent == 0 then fraction else (FRACTION + fraction) * Pow2(exponent - 1)
  }

  /** totalOrder of section 5.10 of IEEE 754-2019, strictly, on data that are not NaN:
      numeric order, with -0 below +0. */
  predicate FloatBefore(x: u64, y: u64) {
    if x >= TOP_BIT then y < TOP_BIT || Magnitude(x) > Magnitude(y)
    else y < TOP_BIT && Magnitude(x) < Magnitude(y)
  }

  /** The kinds in the order the index promises. */
  function Rank(v: Json): nat {
    match v
    case Null => 0
    case Bool(b) => if b then 2 else 1
    case I64(_) => 3
    case F64(_, _) => 4
    case U64(_) => 5
    case Str(_) => 6
    case Arr(_, _) => 7
    case Obj(_, _) => 7
  }

  /** The order the index promises: null < false < true < integers < floats < large
      integers < strings < arrays and objects, each kind in its own order. */
  predicate ValueBefore(v: Json, w: Json) {
    Rank(v) < Rank(w)
    || (Rank(v) == Rank(w)
        && match v
           case I64(i) => i < w.i
           case U64(u) => u < w.u
           case F64(bits, _) => FloatBefore(bits, w.bits)
           case Str(s) => Less(s, w.s)
           case Arr(_, t) => Less(t, if w.Arr? then w.arrText else w.objText)
           case Obj(_, t) => Less(t, if w.Arr? then w.arrText else w.objText)
           case _ => false)
  }

  // ---------------------------------------------------------------- floats

  lemma {:induction false} Pow2Monotone(a: nat, b: nat)
    requires a < b
    ensures 2 * Pow2(a) <= Pow2(b)
    decreases b - a
  {
    if a + 1 < b { Pow2Monotone(a + 1, b); }
  }

  /** Magnitudes grow with exponent and fraction, across exponent boundaries too. */
  lemma ScaledMonotone(ex: nat, fx: nat, ey: nat, fy: nat)
    requires fx < FRACTION && fy < FRACTION
    requires ex < ey || (ex == ey && fx < fy)
    ensures Scaled(ex, fx) < Scaled(ey, fy)
  {
    if ex == ey {
      if ex > 0 { MulLess(FRACTION + fx, FRACTION + fy, Pow2(ex - 1)); }
    } else if ex == 0 {
      MulAtMost(1, Pow2(ey - 1), FRACTION + fy);
    } else {
      Pow2Monotone(ex - 1, ey - 1);
      MulLess(FRACTION + fx, 2 * FRACTION, Pow2(ex - 1));
      MulAtMost(2 * Pow2(ex - 1), Pow2(ey - 1), FRACTION);
      MulAtMost(FRACTION, FRACTION + fy, Pow2(ey - 1));
    }
  }

  lemma MulLess(a: nat, b: nat, c: nat)
    requires a < b && c > 0
    ensures a * c < b * c
  {}

  lemma MulAtMost(a: nat, b: nat, c: nat)
    requires a <= b
    ensures a * c <= b * c && c * a <= c * b
  {}

  lemma MagnitudeMonotone(x: u64, y: u64)
    requires x % TOP_BIT < y % TOP_BIT
    ensures Magnitude(x) < Magnitude(y)
  {
    var mx, my := x % TOP_BIT, y % TOP_BIT;
    ScaledMonotone(mx / FRACTION, mx % FRACTION, my / FRACTION, my % FRACTION);
  }

  lemma FloatOrder(x: u64, y: u64)
    ensures AdjustFloat(x) < AdjustFloat(y) <==> FloatBefore(x, y)
  {
    assert x % TOP_BIT == if x >= TOP_BIT then x - TOP_BIT else x;
    assert y % TOP_BIT == if y >= TOP_BIT then y - TOP_BIT else y;
    if x % TOP_BIT < y % TOP_BIT { MagnitudeMonotone(x, y); }
    if y % TOP_BIT < x % TOP_BIT { MagnitudeMonotone(y, x); }
    if x % TOP_BIT == y % TOP_BIT { assert Magnitude(x) == Magnitude(y); }
  }

  // ---------------------------------------------------------------- one value

  /** Strings terminated by a byte none of them contains order like the bare strings. */
  lemma {:induction false} TerminatedOrder(s: bytes, t: bytes)
    requires SEP !in s && SEP !in t
    ensures Less(s + [SEP], t + [SEP]) <==> Less(s, t)
    ensures s != t ==> !(s + [SEP] <= t + [SEP])
  {
    if s == [] || t == [] {
      assert s + [SEP] == if s == [] then [SEP] else [s[0]] + (s[1..] + [SEP]);
      assert t + [SEP] == if t == [] then [SEP] else [t[0]] + (t[1..] + [SEP]);
      assert s != [] ==> s[0] in s;
      assert t != [] ==> t[0] in t;
    } else {
      assert (s + [SEP])[1..] == s[1..] + [SEP] && (t + [SEP])[1..] == t[1..] + [SEP];
      TerminatedOrder(s[1..], t[1..]);
      HeadTail(s, t);
      HeadTail(s + [SEP], t + [SEP]);
    }
  }

  /** Equal-length strings, neither a proper prefix of the other. */
  lemma FixedWidthOrder(s: bytes, t: bytes)
    requires |s| == |t|
    ensures Less(s + [SEP], t + [SEP]) <==> Less(s, t)
    ensures s != t ==> !(s + [SEP] <= t + [SEP])
  {
    LessSnoc(s, SEP, t, SEP);
    if s + [SEP] <= t + [SEP] {
      assert s == (s + [SEP])[..|s|] == (t + [SEP])[..|s|] == t;
    }
  }

  /** Payloads of one tag: same terminated order, and prefix-free once terminated. */
  lemma PayloadCode(v: Json, w: Json)
    requires NulFree(v) && NulFree(w) && Tag(v) == Tag(w)
    ensures Less(Payload(v) + [SEP], Payload(w) + [SEP]) <==> Less(Payload(v), Payload(w))
    ensures Payload(v) != Payload(w) ==> !(Payload(v) + [SEP] <= Payload(w) + [SEP])
  {
    if v.Str? || v.Arr? || v.Obj? {
      TerminatedOrder(Payload(v), Payload(w));
    } else {
      FixedWidthOrder(Payload(v), Payload(w));
    }
  }

  /** Each encoded value followed by the separator is a prefix-free code. */
  lemma PrefixFree(v: Json, w: Json)
    requires NulFree(v) && NulFree(w)
    requires EncodeValue(v) + [SEP] <= EncodeValue(w) + [SEP]
    ensures EncodeValue(v) == EncodeValue(w)
  {
    var a, b := EncodeValue(v) + [SEP], EncodeValue(w) + [SEP];
    HeadTail(a, b);
    assert a[1..] == Payload(v) + [SEP] && b[1..] == Payload(w) + [SEP];
    PayloadCode(v, w);
  }

  /** The same, inside longer strings: what follows can be read off unambiguously. */
  lemma PrefixFreeCut(v: Json, x: bytes, w: Json, y: bytes)
    requires NulFree(v) && NulFree(w)
    requires EncodeValue(v) + [SEP] + x == EncodeValue(w) + [SEP] + y
    ensures EncodeValue(v) == EncodeValue(w) && x == y
  {
    var a, b := EncodeValue(v) + [SEP], EncodeValue(w) + [SEP];
    if |a| <= |b| {
      assert a == (a + x)[..|a|] == (b + y)[..|a|] == b[..|a|];
      PrefixFree(v, w);
    } else {
      assert b == (b + y)[..|b|] == (a + x)[..|b|] == a[..|b|];
      PrefixFree(w, v);
    }
    assert x == (a + x)[|a|..] && y == (b + y)[|b|..];
  }

  /** Byte order of two encodings is the promised order of the values. */
  lemma ValueOrder(v: Json, w: Json)
    ensures Less(EncodeValue(v), EncodeValue(w)) <==> ValueBefore(v, w)
  {
    assert EncodeValue(v)[1..] == Payload(v) && EncodeValue(w)[1..] == Payload(w);
    if Tag(v) == Tag(w) {
      match v {
        case I64(i) => Widths(); BeOrder(FlipTop(AsU64(i)), FlipTop(AsU64(w.i)), 8);
        case U64(u) => Widths(); BeOrder(FlipTop(u), FlipTop(w.u), 8);
        case F64(bits, _) =>
          Widths();
          BeOrder(AdjustFloat(bits), AdjustFloat(w.bits), 8);
          FloatOrder(bits, w.bits);
        case _ =>
      }
    }
  }

  /** Appending the separator and anything after it keeps the order of distinct values. */
  lemma TerminatedValueOrder(v: Json, x: bytes, w: Json, y: bytes)
    requires NulFree(v) && NulFree(w)
    ensures EncodeValue(v) != EncodeValue(w) ==>
              (Less(EncodeValue(v) + [SEP] + x, EncodeValue(w) + [SEP] + y) <==> ValueBefore(v, w))
    ensures EncodeValue(v) == EncodeValue(w) ==>
              (Less(EncodeValue(v) + [SEP] + x, EncodeValue(w) + [SEP] + y) <==> Less(x, y))
  {
    var a, b := EncodeValue(v) + [SEP], EncodeValue(w) + [SEP];
    if EncodeValue(v) == EncodeValue(w) {
      LessCancel(a, x, y);
    } else {
      if a <= b { PrefixFree(v, w); }
      if b <= a { PrefixFree(w, v); }
      LessDiverged(a, x, b, y);
      ValueOrder(v, w);
      assert a[1..] == Payload(v) + [SEP] && b[1..] == Payload(w) + [SEP];
      assert EncodeValue(v)[1..] == Payload(v) && EncodeValue(w)[1..] == Payload(w);
      if Tag(v) == Tag(w) { PayloadCode(v, w); }
    }
  }

  // ---------------------------------------------------------------- rows

  /** A row as it stands in an index key: separator-terminated. */
  function Terminated(row: seq<Json>): bytes
    requires row != []
  {
    EncodeRow(row) + [SEP]
  }

  /** Field-by-field order of rows. */
  predicate RowBefore(a: seq<Json>, b: seq<Json>)
    requires |a| == |b|
  {
    a != []
    && (ValueBefore(a[0], b[0])
        || (EncodeValue(a[0]) == EncodeValue(b[0]) && RowBefore(a[1..], b[1..])))
  }

  lemma TerminatedCons(row: seq<Json>)
    requires |row| > 1
    ensures Terminated(row) == EncodeValue(row[0]) + [SEP] + Terminated(row[1..])
  {}

  /** What follows the first field of an index row and its primary key. */
  function RowRest(row: seq<Json>, pk: bytes): bytes
    requires row != []
  {
    if |row| == 1 then pk else Terminated(row[1..]) + pk
  }

  lemma TerminatedSplit(row: seq<Json>, pk: bytes)
    requires row != []
    ensures Terminated(row) + pk == EncodeValue(row[0]) + [SEP] + RowRest(row, pk)
  {
    if |row| > 1 { TerminatedCons(row); }
  }

  /** Rows of one index cannot be confused: their terminated encodings, followed by any
      primary keys, are equal only if the encodings and the keys are. */
  lemma {:induction false} RowCut(a: seq<Json>, x: bytes, b: seq<Json>, y: bytes)
    requires |a| == |b| > 0 && RowNulFree(a) && RowNulFree(b)
    requires Terminated(a) + x == Terminated(b) + y
    ensures EncodeRow(a) == EncodeRow(b) && x == y
    ensures EncodeValue(a[0]) == EncodeValue(b[0])
  {
    if |a| == 1 {
      PrefixFreeCut(a[0], x, b[0], y);
    } else {
      TerminatedCons(a);
      TerminatedCons(b);
      var ta, tb := Terminated(a[1..]), Terminated(b[1..]);
      assert Terminated(a) + x == EncodeValue(a[0]) + [SEP] + (ta + x);
      assert Terminated(b) + y == EncodeValue(b[0]) + [SEP] + (tb + y);
      PrefixFreeCut(a[0], ta + x, b[0], tb + y);
      RowCut(a[1..], x, b[1..], y);
    }
  }

  /** Byte order of separator-terminated composites is field-by-field order, with the
      trailing primary key as the tie-break. */
  lemma {:induction false} RowOrder(a: seq<Json>, x: bytes, b: seq<Json>, y: bytes)
    requires |a| == |b| > 0 && RowNulFree(a) && RowNulFree(b)
    ensures Less(Terminated(a) + x, Terminated(b) + y) <==>
            RowBefore(a, b) || (EncodeRow(a) == EncodeRow(b) && Less(x, y))
  {
    hide EncodeValue, ValueBefore, Less, NulFree;
    if EncodeRow(a) == EncodeRow(b) {
      LessCancel(Terminated(a), x, y);
      RowCut(a, [], b, []);
    }
    ValueOrder(a[0], b[0]);
    LessIrreflexive(EncodeValue(a[0]));
    if |a| == 1 {
      TerminatedValueOrder(a[0], x, b[0], y);
    } else {
      TerminatedCons(a);
      TerminatedCons(b);
      var ta, tb := Terminated(a[1..]), Terminated(b[1..]);
      assert Terminated(a) + x == EncodeValue(a[0]) + [SEP] + (ta + x);
      assert Terminated(b) + y == EncodeValue(b[0]) + [SEP] + (tb + y);
      TerminatedValueOrder(a[0], ta + x, b[0], tb + y);
      RowOrder(a[1..], x, b[1..], y);
    }
  }

  // ---------------------------------------------------------------- equality

  /** Encodings of equal values are equal, except for the two float zeros. */
  lemma EqualEncodings(v: Json, w: Json)
    requires SameValue(v, w)
    ensures EncodeValue(v) == EncodeValue(w) <==> (v.F64? ==> v.bits == w.bits)
  {
    if v.F64? && v.bits != w.bits {
      Widths();
      if EncodeValue(v) == EncodeValue(w) {
        assert EncodeValue(v)[1..] == EncodeValue(w)[1..];
        BeInjective(AdjustFloat(v.bits), AdjustFloat(w.bits), 8);
      }
    }
  }
}
