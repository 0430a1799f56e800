/** The write-ahead log (`src/wal.rs`): record codec, torn-tail recovery, segment scanning
    and truncation. */
module Wal {
  import opened Bytes
  import opened BigEndian
  import opened Record
  import opened FxHash
  import opened Seqs

  const CHECKSUM_LEN := 4

  // ---------------------------------------------------------------- codec

  function OpByte(op: Op): byte {
    match op case Put => 0 case Delete => 1 case DeleteRange => 2
  }

  function OpFrom(b: byte): Op {
    if b == 1 then Delete else if b == 2 then DeleteRange else Put
  }

  function Checksum(data: bytes): (r: bytes)
    ensures |r| == CHECKSUM_LEN
  {
    ToBe(Hash(0, data), CHECKSUM_LEN)
  }

  function RangeBytes(r: Option<bytes>): bytes {
    match r case Some(re) => re case None => []
  }

  /** A length-prefixed field; the length is cut to w bytes, as the source's cast does. */
  function Sized(part: bytes, w: nat): bytes {
    ToBe(|part|, w) + part
  }

  // The record layout from a given field to the end.
  function FromRange(rec: InternalRecord, tail: bytes): bytes {
    Sized(RangeBytes(rec.rangeEnd), 4) + (Sized(rec.value, 4) + tail)
  }
  function FromTs(rec: InternalRecord, tail: bytes): bytes {
    ToBe(AsU64(rec.ts), 8) + (ToBe(AsU64(rec.expireAt), 8) + FromRange(rec, tail))
  }
  function FromOp(rec: InternalRecord, tail: bytes): bytes {
    [OpByte(rec.op)] + (Sized(rec.key, 2) + FromTs(rec, tail))
  }
  function Layout(rec: InternalRecord, tail: bytes): bytes {
    ToBe(rec.seqno, 8) + FromOp(rec, tail)
  }

  function Body(rec: InternalRecord): bytes {
    Layout(rec, [])
  }

  /** `encode_record`. */
  function Encode(rec: InternalRecord): bytes {
    Body(rec) + Checksum(Body(rec))
  }

  /** `encoded_size`. */
  function EncodedSize(rec: InternalRecord): nat {
    8 + 1 + 2 + |rec.key| + 8 + 8 + 4 + |RangeBytes(rec.rangeEnd)| + 4 + |rec.value| + CHECKSUM_LEN
  }

  function ReadU64(s: bytes): u64
    requires |s| == 8
  {
    FromBeBound(s);
    Widths();
    FromBe(s)
  }

  /** Moving the cursor past n bytes, if they are there. */
  function Take(d: bytes, n: nat): (r: Option<(bytes, bytes)>)
    ensures r.Some? ==> |r.value.0| == n && d == r.value.0 + r.value.1
  {
    if |d| < n then None else Some((d[..n], d[n..]))
  }

  function TakeSized(d: bytes, w: nat): (r: Option<(bytes, bytes)>)
    ensures r.Some? ==> |r.value.1| + w <= |d|
  {
    var (len, rest) :- Take(d, w);
    Take(rest, FromBe(len))
  }

  // The stages of `decode_record`, each returning its fields and the unread bytes.

  datatype Header = Header(seqno: u64, op: Op, key: bytes, rest: bytes)
  datatype Times = Times(ts: i64, expireAt: i64, rest: bytes)
  datatype Payload = Payload(range: bytes, value: bytes, rest: bytes)

  function ParseHeader(d: bytes): (r: Option<Header>)
    ensures r.Some? ==> |r.value.rest| + 11 <= |d|
  {
    var (seqno, d1) :- Take(d, 8);
    var (op, d2) :- Take(d1, 1);
    var (key, d3) :- TakeSized(d2, 2);
    Some(Header(ReadU64(seqno), OpFrom(op[0]), key, d3))
  }

  function ParseTimes(d: bytes): (r: Option<Times>)
    ensures r.Some? ==> |r.value.rest| + 16 == |d|
  {
    var (ts, d1) :- Take(d, 8);
    var (expire, d2) :- Take(d1, 8);
    Some(Times(AsI64(ReadU64(ts)), AsI64(ReadU64(expire)), d2))
  }

  function ParsePayload(d: bytes): (r: Option<Payload>)
    ensures r.Some? ==> |r.value.rest| + 8 <= |d|
  {
    var (range, d1) :- TakeSized(d, 4);
    var (value, d2) :- TakeSized(d1, 4);
    Some(Payload(range, value, d2))
  }

  function ParseFields(d: bytes): (r: Option<(InternalRecord, bytes)>)
    ensures r.Some? ==> |r.value.1| + 35 <= |d|
  {
    var h :- ParseHeader(d);
    var t :- ParseTimes(h.rest);
    var p :- ParsePayload(t.rest);
    Some((InternalRecord(h.seqno, h.op, h.key, t.ts, t.expireAt, p.value,
                         if p.range != [] then Some(p.range) else None), p.rest))
  }

  /** `decode_record`: the record and the number of bytes consumed. */
  function Decode(data: bytes): (r: Option<(InternalRecord, nat)>)
    ensures r.Some? ==> 0 < r.value.1 <= |data|
  {
    var (rec, rest) :- ParseFields(data);
    var n := |data| - |rest|;
    var (sum, _) :- Take(rest, CHECKSUM_LEN);
    if sum != Checksum(data[..n]) then None else Some((rec, n + CHECKSUM_LEN))
  }

  /** What fits the length fields; an empty range end would come back as none. */
  predicate WithinLimits(rec: InternalRecord) {
    |rec.key| < 0x1_0000 && |rec.value| < 0x1_0000_0000
    && |RangeBytes(rec.rangeEnd)| < 0x1_0000_0000 && rec.rangeEnd != Some([])
  }

  lemma SizeIsExact(rec: InternalRecord)
    ensures |Encode(rec)| == EncodedSize(rec)
  {
    LayoutSize(rec, []);
  }

  lemma LayoutSize(rec: InternalRecord, tail: bytes)
    ensures |Layout(rec, tail)| == EncodedSize(rec) - CHECKSUM_LEN + |tail|
    ensures Layout(rec, tail) == Body(rec) + tail
  {
    hide ToBe, FromOp, FromTs, FromRange;
    OpTail(rec, tail);
    OpTail(rec, []);
  }

  lemma OpTail(rec: InternalRecord, tail: bytes)
    ensures FromOp(rec, tail) == FromOp(rec, []) + tail
    ensures |FromOp(rec, tail)| == EncodedSize(rec) - CHECKSUM_LEN - 8 + |tail|
  {
    hide ToBe, FromTs, FromRange;
    TsTail(rec, tail);
  }

  lemma TsTail(rec: InternalRecord, tail: bytes)
    ensures FromTs(rec, tail) == FromTs(rec, []) + tail
    ensures |FromTs(rec, tail)| == 16 + 4 + |RangeBytes(rec.rangeEnd)| + 4 + |rec.value| + |tail|
  {
    hide ToBe;
    assert FromRange(rec, tail) == FromRange(rec, []) + tail;
  }

  lemma ReadBack(n: nat, w: nat)
    requires (w == 2 && n < 0x1_0000) || (w == 4 && n < 0x1_0000_0000) || (w == 8 && n < 0x1_0000_0000_0000_0000)
    ensures FromBe(ToBe(n, w)) == n
  {
    Widths();
    BeRoundTrip(n, w);
  }

  /** d is what is left of `whole` after a cut at an arbitrary place. */
  predicate Torn(d: bytes, whole: bytes) {
    d <= whole
  }

  /** Taking a field off a torn string: all of it, or nothing. */
  lemma TakeTorn(part: bytes, rest: bytes, d: bytes)
    requires Torn(d, part + rest)
    ensures |d| < |part| ==> Take(d, |part|) == None
    ensures |d| >= |part| ==> Take(d, |part|) == Some((part, d[|part|..])) && Torn(d[|part|..], rest)
  {
    assert d == (part + rest)[..|d|];
    if |d| >= |part| {
      assert d[..|part|] == (part + rest)[..|part|] == part;
      assert d[|part|..] == (part + rest)[|part|..|d|] == rest[..|d| - |part|];
    }
  }

  predicate Fits(part: bytes, w: nat) {
    (w == 2 && |part| < 0x1_0000) || (w == 4 && |part| < 0x1_0000_0000)
  }

  lemma TakeSizedTorn(part: bytes, w: nat, rest: bytes, d: bytes)
    requires Fits(part, w) && Torn(d, Sized(part, w) + rest)
    ensures |d| < w + |part| ==> TakeSized(d, w) == None
    ensures |d| >= w + |part| ==> TakeSized(d, w) == Some((part, d[w + |part|..])) && Torn(d[w + |part|..], rest)
  {
    var len := ToBe(|part|, w);
    assert Sized(part, w) + rest == len + (part + rest);
    TakeTorn(len, part + rest, d);
    ReadBack(|part|, w);
    if |d| >= w {
      TakeTorn(part, rest, d[w..]);
      if |d| >= w + |part| { assert d[w..][|part|..] == d[w + |part|..]; }
    }
  }

  lemma HeaderCut(rec: InternalRecord, tail: bytes, d: bytes)
    requires Fits(rec.key, 2) && Torn(d, Layout(rec, tail))
    ensures var n := 11 + |rec.key|;
            if |d| < n then ParseHeader(d) == None
            else ParseHeader(d) == Some(Header(rec.seqno, rec.op, rec.key, d[n..])) && Torn(d[n..], FromTs(rec, tail))
  {
    TakeTorn(ToBe(rec.seqno, 8), FromOp(rec, tail), d);
    if |d| >= 8 {
      ReadBack(rec.seqno, 8);
      TakeTorn([OpByte(rec.op)], Sized(rec.key, 2) + FromTs(rec, tail), d[8..]);
      if |d| >= 9 {
        assert d[8..][1..] == d[9..];
        TakeSizedTorn(rec.key, 2, FromTs(rec, tail), d[9..]);
        if |d| >= 11 + |rec.key| { assert d[9..][2 + |rec.key|..] == d[11 + |rec.key|..]; }
      }
    }
  }

  lemma TimesCut(rec: InternalRecord, tail: bytes, d: bytes)
    requires Torn(d, FromTs(rec, tail))
    ensures if |d| < 16 then ParseTimes(d) == None
            else ParseTimes(d) == Some(Times(rec.ts, rec.expireAt, d[16..])) && Torn(d[16..], FromRange(rec, tail))
  {
    var x := ToBe(AsU64(rec.expireAt), 8);
    TakeTorn(ToBe(AsU64(rec.ts), 8), x + FromRange(rec, tail), d);
    if |d| >= 8 {
      TakeTorn(x, FromRange(rec, tail), d[8..]);
      if |d| >= 16 {
        assert d[8..][8..] == d[16..];
        ReadBack(AsU64(rec.ts), 8);
        ReadBack(AsU64(rec.expireAt), 8);
        CastRoundTrip(rec.ts);
        CastRoundTrip(rec.expireAt);
      }
    }
  }

  lemma PayloadCut(rec: InternalRecord, tail: bytes, d: bytes)
    requires WithinLimits(rec) && Torn(d, FromRange(rec, tail))
    ensures var re := RangeBytes(rec.rangeEnd);
            var n := 8 + |re| + |rec.value|;
            if |d| < n then ParsePayload(d) == None
            else ParsePayload(d) == Some(Payload(re, rec.value, d[n..])) && Torn(d[n..], tail)
  {
    var re := RangeBytes(rec.rangeEnd);
    var m := 4 + |re|;
    TakeSizedTorn(re, 4, Sized(rec.value, 4) + tail, d);
    if |d| >= m {
      TakeSizedTorn(rec.value, 4, tail, d[m..]);
      if |d| >= m + 4 + |rec.value| { assert d[m..][4 + |rec.value|..] == d[m + 4 + |rec.value|..]; }
    }
  }

  lemma FieldsCut(rec: InternalRecord, tail: bytes, d: bytes)
    requires WithinLimits(rec) && Torn(d, Layout(rec, tail))
    ensures var n := EncodedSize(rec) - CHECKSUM_LEN;
            if |d| < n then ParseFields(d) == None
            else ParseFields(d) == Some((rec, d[n..])) && Torn(d[n..], tail)
  {
    hide ParseHeader, ParseTimes, ParsePayload, Layout, FromTs, FromRange;
    var a := 11 + |rec.key|;
    HeaderCut(rec, tail, d);
    if |d| >= a {
      TimesCut(rec, tail, d[a..]);
      if |d| >= a + 16 {
        PayloadCut(rec, tail, d[a..][16..]);
        var n := EncodedSize(rec) - CHECKSUM_LEN;
        if |d| >= n { assert d[a..][16..][n - a - 16..] == d[n..]; }
      }
    }
  }

  /** Any torn prefix of a record decodes to nothing; a whole record decodes to itself,
      whatever follows it. */
  lemma DecodeCut(rec: InternalRecord, rest: bytes, data: bytes)
    requires WithinLimits(rec) && Torn(data, Encode(rec) + rest)
    ensures |data| < EncodedSize(rec) ==> Decode(data) == None
    ensures |data| >= EncodedSize(rec) ==> Decode(data) == Some((rec, EncodedSize(rec)))
  {
    hide ParseFields, Layout, Body, Checksum;
    var sum, n := Checksum(Body(rec)), EncodedSize(rec) - CHECKSUM_LEN;
    LayoutSize(rec, sum + rest);
    LayoutSize(rec, []);
    assert Encode(rec) + rest == Body(rec) + (sum + rest);
    FieldsCut(rec, sum + rest, data);
    if |data| >= n {
      TakeTorn(Body(rec), sum + rest, data);
      TakeTorn(sum, rest, data[n..]);
    }
  }

  lemma TakeSizedBound(d: bytes, w: nat)
    requires TakeSized(d, w).Some?
    ensures |TakeSized(d, w).value.0| < Pow256(w)
  {
    FromBeBound(d[..w]);
  }

  lemma DecodedWithinLimits(data: bytes)
    requires ParseFields(data).Some?
    ensures WithinLimits(ParseFields(data).value.0)
  {
    Widths();
    TakeSizedBound(data[8..][1..], 2);
    var d := ParseTimes(ParseHeader(data).value.rest).value.rest;
    TakeSizedBound(d, 4);
    TakeSizedBound(TakeSized(d, 4).value.1, 4);
  }

  // ---------------------------------------------------------------- nothing else decodes

  lemma TakeSizedShape(d: bytes, w: nat)
    requires TakeSized(d, w).Some?
    ensures var (part, rest) := TakeSized(d, w).value;
            d == Sized(part, w) + rest
  {
    FromBeRoundTrip(d[..w]);
    var (part, rest) := TakeSized(d, w).value;
    assert d == d[..w] + (part + rest);
  }

  lemma HeaderShape(d: bytes)
    requires ParseHeader(d).Some? && d[8] <= 2
    ensures var h := ParseHeader(d).value;
            d == ToBe(h.seqno, 8) + ([OpByte(h.op)] + (Sized(h.key, 2) + h.rest))
  {
    hide ToBe, FromBe, Sized;
    FromBeRoundTrip(d[..8]);
    TakeSizedShape(d[8..][1..], 2);
    assert d[8..][0] == d[8] && d[8..] == [d[8]] + d[8..][1..];
    assert d == d[..8] + d[8..];
  }

  lemma TimesShape(d: bytes)
    requires ParseTimes(d).Some?
    ensures var t := ParseTimes(d).value;
            d == ToBe(AsU64(t.ts), 8) + (ToBe(AsU64(t.expireAt), 8) + t.rest)
  {
    hide ToBe, FromBe;
    FromBeRoundTrip(d[..8]);
    FromBeRoundTrip(d[8..][..8]);
    assert d == d[..8] + (d[8..][..8] + d[8..][8..]);
  }

  lemma PayloadShape(d: bytes)
    requires ParsePayload(d).Some?
    ensures var p := ParsePayload(d).value;
            d == Sized(p.range, 4) + (Sized(p.value, 4) + p.rest)
  {
    hide Sized;
    TakeSizedShape(d, 4);
    TakeSizedShape(TakeSized(d, 4).value.1, 4);
  }

  lemma FieldsShape(d: bytes)
    requires ParseFields(d).Some? && d[8] <= 2
    ensures d == Layout(ParseFields(d).value.0, ParseFields(d).value.1)
  {
    hide ParseHeader, ParseTimes, ParsePayload, ToBe, Sized;
    HeaderShape(d);
    var h := ParseHeader(d).value;
    TimesShape(h.rest);
    PayloadShape(ParseTimes(h.rest).value.rest);
  }

  /** An operation byte that the writer does not use reads as a put. */
  lemma UnknownOpIsPut(data: bytes)
    requires Decode(data).Some? && data[8] > 2
    ensures Decode(data).value.0.op.Put?
  {
    assert data[8..][0] == data[8];
  }

  /** Whatever decodes, with an operation byte the writer uses, is the encoding of what it decodes
      to: no other bytes pass the length fields and the checksum. */
  lemma DecodedIsEncoded(data: bytes)
    requires Decode(data).Some? && data[8] <= 2
    ensures data[..Decode(data).value.1] == Encode(Decode(data).value.0)
  {
    hide ParseFields, Checksum;
    FieldsShape(data);
    var (rec, rest) := ParseFields(data).value;
    LayoutSize(rec, rest);
    var n := |data| - |rest|;
    assert data[..n] == Body(rec) && rest == data[n..];
    assert data[..n + CHECKSUM_LEN] == data[..n] + rest[..CHECKSUM_LEN];
  }

  /** The limits are exactly what the round trip needs. */
  lemma RoundTripExact(rec: InternalRecord, rest: bytes)
    ensures Decode(Encode(rec) + rest) == Some((rec, EncodedSize(rec))) <==> WithinLimits(rec)
  {
    var data := Encode(rec) + rest;
    if WithinLimits(rec) {
      SizeIsExact(rec);
      DecodeCut(rec, rest, data);
    } else if Decode(data).Some? {
      DecodedWithinLimits(data);
    }
  }

  // ---------------------------------------------------------------- logs

  function EncodeLog(recs: seq<InternalRecord>): bytes {
    if recs == [] then [] else Encode(recs[0]) + EncodeLog(recs[1..])
  }

  /** The replay loop over one segment: decode until the first failure. */
  function DecodeLog(data: bytes): seq<InternalRecord>
    decreases |data|
  {
    match Decode(data)
    case None => []
    case Some((rec, n)) => [rec] + DecodeLog(data[n..])
  }

  /** How many records lie wholly within the first `len` bytes. */
  function Fitting(recs: seq<InternalRecord>, len: int): nat {
    if recs == [] || EncodedSize(recs[0]) > len then 0
    else 1 + Fitting(recs[1..], len - EncodedSize(recs[0]))
  }

  lemma {:induction false} FittingBound(recs: seq<InternalRecord>, len: int)
    ensures Fitting(recs, len) <= |recs|
  {
    if recs != [] { FittingBound(recs[1..], len - EncodedSize(recs[0])); }
  }

  /** Torn-tail recovery: decoding any byte prefix of a log yields exactly the records whose
      encodings fit wholly in that prefix. */
  lemma {:induction false} TornTailRecovery(recs: seq<InternalRecord>, data: bytes)
    requires forall i :: 0 <= i < |recs| ==> WithinLimits(recs[i])
    requires data <= EncodeLog(recs)
    ensures Fitting(recs, |data|) <= |recs|
    ensures DecodeLog(data) == recs[..Fitting(recs, |data|)]
    decreases |recs|
  {
    hide Decode, Encode, EncodedSize;
    FittingBound(recs, |data|);
    if recs == [] {
      assert data == [];
    } else {
      var first, rest := Encode(recs[0]), EncodeLog(recs[1..]);
      SizeIsExact(recs[0]);
      DecodeCut(recs[0], rest, data);
      TakeTorn(first, rest, data);
      if |data| >= |first| { TornTailRecovery(recs[1..], data[|first|..]); }
    }
  }

  lemma {:induction false} FittingAll(recs: seq<InternalRecord>)
    ensures Fitting(recs, |EncodeLog(recs)|) == |recs|
  {
    if recs != [] {
      SizeIsExact(recs[0]);
      FittingAll(recs[1..]);
    }
  }

  /** The whole log round-trips. */
  lemma LogRoundTrip(recs: seq<InternalRecord>)
    requires forall i :: 0 <= i < |recs| ==> WithinLimits(recs[i])
    ensures DecodeLog(EncodeLog(recs)) == recs
  {
    FittingAll(recs);
    TornTailRecovery(recs, EncodeLog(recs));
  }

  lemma {:induction false} EncodeLogAppend(a: seq<InternalRecord>, b: seq<InternalRecord>)
    ensures EncodeLog(a + b) == EncodeLog(a) + EncodeLog(b)
  {
    if a == [] {
      assert a + b == b;
    } else {
      assert (a + b)[1..] == a[1..] + b;
      EncodeLogAppend(a[1..], b);
    }
  }

  // ---------------------------------------------------------------- scanning without decoding

  /** `skip_record`: the length of the record at `start`, read from its length fields only. */
  function SkipAt(data: bytes, start: nat): (r: Option<nat>)
    ensures r.Some? ==> r.value > 0
  {
    var p0 := start + 9;
    if p0 + 2 > |data| then None else
    var p1 := p0 + 2 + FromBe(data[p0..p0 + 2]);
    if p1 + 16 > |data| then None else
    var p2 := p1 + 16;
    if p2 + 4 > |data| then None else
    var p3 := p2 + 4 + FromBe(data[p2..p2 + 4]);
    if p3 + 4 > |data| then None else
    Some(p3 + 4 + FromBe(data[p3..p3 + 4]) + CHECKSUM_LEN - start)
  }

  /** Skipping agrees with decoding wherever decoding succeeds. */
  lemma SkipAgrees(data: bytes, start: nat)
    requires start <= |data| && Decode(data[start..]).Some?
    ensures SkipAt(data, start) == Some(Decode(data[start..]).value.1)
    ensures start + 8 <= |data| && ReadU64(data[start..start + 8]) == Decode(data[start..]).value.0.seqno
  {
    hide ParseHeader, ParsePayload, Checksum, ReadU64, FromBe;
    HeaderAt(data, start);
    var h := ParseHeader(data[start..]).value;
    var a := start + 11 + |h.key|;
    assert ParseTimes(h.rest).value.rest == data[a..][8..][8..] == data[a + 16..];
    PayloadAt(data, a + 16);
  }

  lemma HeaderAt(data: bytes, start: nat)
    requires start <= |data| && ParseHeader(data[start..]).Some?
    ensures start + 11 <= |data|
    ensures var h := ParseHeader(data[start..]).value;
            ReadU64(data[start..start + 8]) == h.seqno && FromBe(data[start + 9..start + 11]) == |h.key|
            && start + 11 + |h.key| <= |data| && h.rest == data[start + 11 + |h.key|..]
  {
    var d := data[start..];
    assert data[start..start + 8] == d[..8] && d[8..][1..] == data[start + 9..];
    SizedAt(data, start + 9, d[8..][1..], 2);
  }

  lemma PayloadAt(data: bytes, pos: nat)
    requires pos <= |data| && ParsePayload(data[pos..]).Some?
    ensures var p := ParsePayload(data[pos..]).value;
            var q := pos + 4 + |p.range|;
            q + 4 <= |data| && FromBe(data[pos..pos + 4]) == |p.range| && FromBe(data[q..q + 4]) == |p.value|
            && q + 4 + |p.value| <= |data| && p.rest == data[q + 4 + |p.value|..]
  {
    var d := data[pos..];
    SizedAt(data, pos, d, 4);
    SizedAt(data, pos + 4 + |TakeSized(d, 4).value.0|, TakeSized(d, 4).value.1, 4);
  }

  /** A length-prefixed field seen from the whole segment. */
  lemma SizedAt(data: bytes, pos: nat, d: bytes, w: nat)
    requires pos <= |data| && d == data[pos..] && TakeSized(d, w).Some?
    ensures pos + w <= |data| && FromBe(data[pos..pos + w]) == |TakeSized(d, w).value.0|
    ensures pos + w + |TakeSized(d, w).value.0| <= |data|
    ensures TakeSized(d, w).value.1 == data[pos + w + |TakeSized(d, w).value.0|..]
  {
    assert data[pos..pos + w] == d[..w];
    assert d[w..][FromBe(d[..w])..] == data[pos + w + FromBe(d[..w])..];
  }

  function Max(a: u64, b: u64): u64 { if a >= b then a else b }

  /** `find_max_seq_in_segment` from position pos on. */
  function MaxSeqFrom(data: bytes, pos: nat, best: u64): (r: u64)
    ensures r >= best
    decreases |data| - pos
  {
    if pos >= |data| || pos + 8 > |data| then best
    else match SkipAt(data, pos)
      case None => best
      case Some(n) => MaxSeqFrom(data, pos + n, Max(best, ReadU64(data[pos..pos + 8])))
  }

  /** The source's loop. */
  method FindMaxSeqInSegment(data: bytes) returns (best: u64)
    ensures best == MaxSeqFrom(data, 0, 0)
  {
    hide SkipAt, ReadU64;
    best := 0;
    var pos := 0;
    while pos < |data|
      invariant pos >= 0
      invariant MaxSeqFrom(data, pos, best) == MaxSeqFrom(data, 0, 0)
      decreases |data| - pos
    {
      if pos + 8 > |data| { return; }
      var seqno := ReadU64(data[pos..pos + 8]);
      match SkipAt(data, pos) {
        case None => return;
        case Some(n) =>
          best := Max(best, seqno);
          pos := pos + n;
      }
    }
  }

  /** The scanned maximum covers every record replay would decode. */
  lemma {:induction false} MaxSeqCovers(data: bytes, pos: nat, best: u64)
    requires pos <= |data|
    ensures forall i :: 0 <= i < |DecodeLog(data[pos..])| ==>
            DecodeLog(data[pos..])[i].seqno <= MaxSeqFrom(data, pos, best)
    decreases |data| - pos
  {
    hide Decode, SkipAt, ReadU64;
    var d := data[pos..];
    if Decode(d).Some? {
      var (rec, n) := Decode(d).value;
      SkipAgrees(data, pos);
      assert d[n..] == data[pos + n..];
      MaxSeqCovers(data, pos + n, Max(best, rec.seqno));
    }
  }

  /** On a whole log the scanned maximum is one of its sequence numbers. */
  lemma {:induction false} MaxSeqIsAttained(data: bytes, pos: nat, best: u64, recs: seq<InternalRecord>)
    requires pos <= |data| && data[pos..] == EncodeLog(recs)
    requires forall i :: 0 <= i < |recs| ==> WithinLimits(recs[i])
    ensures var m := MaxSeqFrom(data, pos, best);
            (m == best || exists r :: r in recs && r.seqno == m) && forall r :: r in recs ==> r.seqno <= m
    decreases |recs|
  {
    hide Decode, SkipAt, ReadU64, Encode, WithinLimits;
    if recs != [] {
      var first, rest := recs[0], recs[1..];
      DecodeFirst(data[pos..], first, EncodeLog(rest));
      SkipAgrees(data, pos);
      assert data[pos..][EncodedSize(first)..] == data[pos + EncodedSize(first)..];
      MaxSeqIsAttained(data, pos + EncodedSize(first), Max(best, first.seqno), rest);
      assert recs == [first] + rest;
    }
  }

  lemma DecodeFirst(d: bytes, rec: InternalRecord, rest: bytes)
    requires WithinLimits(rec) && d == Encode(rec) + rest
    ensures Decode(d) == Some((rec, EncodedSize(rec))) && d[EncodedSize(rec)..] == rest
  {
    SizeIsExact(rec);
    DecodeCut(rec, rest, d);
  }

  // ---------------------------------------------------------------- segments

  /** A segment file: its bytes, how many of them an fsync has made durable, and the
      bookkeeping kept beside the writer. */
  datatype Segment = Segment(id: nat, data: bytes, written: nat, maxSeq: u64, synced: nat)

  function FreshSegment(id: nat): Segment {
    Segment(id, [], 0, 0, 0)
  }

  /** `write_encoded`: append to the last segment, roll over once it is full. */
  function WriteEncoded(segs: seq<Segment>, nextId: nat, limit: nat, buf: bytes, batchMax: u64): (seq<Segment>, nat) {
    var (ss, id) := if segs == [] then ([FreshSegment(nextId)], nextId + 1) else (segs, nextId);
    var n := |ss| - 1;
    var last := ss[n].(data := ss[n].data + buf, written := ss[n].written + |buf|, maxSeq := Max(ss[n].maxSeq,
        batchMax));
    if last.written >= limit then (ss[..n] + [last] + [FreshSegment(id)], id + 1)
    else (ss[..n] + [last], id)
  }

  /** `sync_all`. */
  function SyncAll(segs: seq<Segment>): seq<Segment> {
    seq(|segs|, i requires 0 <= i < |segs| => segs[i].(synced := |segs[i].data|))
  }

  predicate Survives(s: Segment, n: u64) {
    s.maxSeq == 0 || s.maxSeq > n
  }

  function Surviving(n: u64): Segment -> bool {
    (s: Segment) => Survives(s, n)
  }

  /** `truncate_before`. */
  function TruncateBefore(segs: seq<Segment>, nextId: nat, n: u64): (seq<Segment>, nat) {
    var kept := Keep(segs, Surviving(n));
    if kept == [] then ([FreshSegment(nextId)], nextId + 1) else (kept, nextId)
  }

  function AllRecords(segs: seq<Segment>): seq<InternalRecord> {
    if segs == [] then [] else AllRecords(segs[..|segs| - 1]) + DecodeLog(segs[|segs| - 1].data)
  }

  function BySeq(): (InternalRecord, InternalRecord) -> bool {
    (a: InternalRecord, b: InternalRecord) => a.seqno <= b.seqno
  }

  function Newer(after: u64): InternalRecord -> bool {
    (r: InternalRecord) => r.seqno > after
  }

  /** `replay_from`. */
  function ReplayFrom(segs: seq<Segment>, after: u64): seq<InternalRecord> {
    Sort(Keep(AllRecords(segs), Newer(after)), BySeq())
  }

  predicate InSegments(segs: seq<Segment>, r: InternalRecord) {
    exists i :: 0 <= i < |segs| && r in DecodeLog(segs[i].data)
  }

  lemma {:induction false} AllRecordsMember(segs: seq<Segment>, r: InternalRecord)
    ensures r in AllRecords(segs) <==> InSegments(segs, r)
  {
    hide DecodeLog;
    if segs != [] {
      var n := |segs| - 1;
      var last := DecodeLog(segs[n].data);
      AllRecordsMember(segs[..n], r);
      assert r in AllRecords(segs) <==> r in AllRecords(segs[..n]) || r in last;
      hide AllRecords;
      if InSegments(segs, r) {
        var i :| 0 <= i < |segs| && r in DecodeLog(segs[i].data);
        if i < n { assert r in DecodeLog(segs[..n][i].data); }
      }
      if r in AllRecords(segs[..n]) {
        var i :| 0 <= i < n && r in DecodeLog(segs[..n][i].data);
        assert r in DecodeLog(segs[i].data);
      }
    }
  }

  /** Replay returns exactly the decodable records above the given sequence number, in
      sequence order. */
  lemma ReplayExact(segs: seq<Segment>, after: u64)
    ensures forall r :: r in ReplayFrom(segs, after) <==> r.seqno > after && InSegments(segs, r)
    ensures Sorted(ReplayFrom(segs, after), BySeq())
  {
    hide DecodeLog, AllRecords, InSegments, Keep, Sort;
    var all, newer, out := AllRecords(segs), Keep(AllRecords(segs), Newer(after)), ReplayFrom(segs, after);
    KeepMembers(all, Newer(after));
    assert TotalPreorder(BySeq());
    SortSorts(newer, BySeq());
    forall r ensures r in out <==> r.seqno > after && InSegments(segs, r) {
      AllRecordsMember(segs, r);
      assert r in out <==> r in multiset(out);
      assert r in newer <==> r in multiset(newer);
    }
  }

  /** A segment's bookkeeping covers what its bytes hold. */
  ghost predicate Covers(s: Segment) {
    forall r :: r in DecodeLog(s.data) ==> r.seqno <= s.maxSeq
  }

  /** Truncation never drops a segment that holds a decodable record above its argument. */
  lemma TruncateKeepsNewer(segs: seq<Segment>, nextId: nat, n: u64, i: nat, r: InternalRecord)
    requires i < |segs| && Covers(segs[i]) && r in DecodeLog(segs[i].data) && r.seqno > n
    ensures segs[i] in TruncateBefore(segs, nextId, n).0
  {
    hide DecodeLog;
    KeepMembers(segs, Surviving(n));
    assert segs[i] in segs && segs[i] in Keep(segs, Surviving(n));
  }

  /** It drops exactly the segments with a maximum that is known and not above its argument, and
      leaves a fresh one when none remains. */
  lemma TruncateExactly(segs: seq<Segment>, nextId: nat, n: u64)
    ensures var (out, id) := TruncateBefore(segs, nextId, n);
            && out != []
            && ((exists s :: s in segs && (s.maxSeq == 0 || s.maxSeq > n)) ==>
                  id == nextId && forall s :: s in out <==> s in segs && (s.maxSeq == 0 || s.maxSeq > n))
            && ((forall s :: s in segs ==> 0 < s.maxSeq <= n) ==>
                  id == nextId + 1 && |out| == 1 && out[0].id == nextId && out[0].data == [])
  {
    var kept := Keep(segs, Surviving(n));
    KeepMembers(segs, Surviving(n));
    if s :| s in segs && (s.maxSeq == 0 || s.maxSeq > n) { assert s in kept; }
    if kept != [] { assert kept[0] in kept; }
  }

  /** A write goes to the end of the last segment; a segment that is full is followed by a fresh
      one, so the last segment is never full. */
  lemma WriteExactly(segs: seq<Segment>, nextId: nat, limit: nat, buf: bytes, batchMax: u64)
    requires segs != [] && limit > 0
    ensures var (out, id) := WriteEncoded(segs, nextId, limit, buf, batchMax);
            var n := |segs| - 1;
            && |out| >= |segs| && out[..n] == segs[..n]
            && out[n].data == segs[n].data + buf && out[n].id == segs[n].id && out[n].synced == segs[n].synced
            && out[n].maxSeq >= segs[n].maxSeq && out[n].maxSeq >= batchMax
            && (out[n].maxSeq == segs[n].maxSeq || out[n].maxSeq == batchMax)
            && out[|out| - 1].written < limit
            && (|out| > |segs| ==> |out| == |segs| + 1 && out[n + 1].data == [] && out[n + 1].id == nextId)
            && (|out| > |segs| <==> segs[n].written + |buf| >= limit)
  {}

  /** On reopening, the scanned maximum establishes that bookkeeping. */
  lemma ReopenedCovers(id: nat, data: bytes)
    ensures Covers(Segment(id, data, 0, MaxSeqFrom(data, 0, 0), |data|))
  {
    assert data[0..] == data;
    MaxSeqCovers(data, 0, 0);
  }

  /** The log object. */
  class Writer {
    var segments: seq<Segment>
    var nextId: nat
    const limit: nat

    constructor (files: seq<(nat, bytes)>, limit: nat)
      ensures this.limit == limit
      ensures files != [] ==> |segments| == |files|
      ensures files == [] ==> |segments| == 1 && segments[0].data == []
      ensures forall i :: 0 <= i < |segments| ==> Covers(segments[i]) && segments[i].synced == |segments[i].data|
      ensures forall i :: 0 <= i < |files| ==> segments[i].data == files[i].1 && files[i].0 < nextId
    {
      var segs: seq<Segment>, top := [], 0;
      for i := 0 to |files|
        invariant |segs| == i
        invariant forall j :: 0 <= j < i ==>
                    segs[j].data == files[j].1 && Covers(segs[j]) && segs[j].synced ==
                      |segs[j].data| && files[j].0 <= top
      {
        if files[i].0 > top { top := files[i].0; }
        var best := FindMaxSeqInSegment(files[i].1);
        ReopenedCovers(files[i].0, files[i].1);
        segs := segs + [Segment(files[i].0, files[i].1, 0, best, |files[i].1|)];
      }
      if segs == [] {
        segs := [FreshSegment(top + 1)];
        top := top + 1;
      }
      segments, nextId, this.limit := segs, top + 1, limit;
    }

    method Write(buf: bytes, batchMax: u64)
      modifies this
      ensures (segments, nextId) == WriteEncoded(old(segments), old(nextId), limit, buf, batchMax)
    {
      if segments == [] {
        segments, nextId := [FreshSegment(nextId)], nextId + 1;
      }
      var n := |segments| - 1;
      var seg := segments[n];
      seg := seg.(data := seg.data + buf, written := seg.written + |buf|);
      if batchMax > seg.maxSeq { seg := seg.(maxSeq := batchMax); }
      segments := segments[..n] + [seg];
      if seg.written >= limit {
        segments, nextId := segments + [FreshSegment(nextId)], nextId + 1;
      }
    }

    method Truncate(n: u64)
      modifies this
      ensures (segments, nextId) == TruncateBefore(old(segments), old(nextId), n)
    {
      var kept := [];
      for i := 0 to |segments|
        invariant kept == Keep(segments[..i], Surviving(n))
        invariant segments == old(segments) && nextId == old(nextId)
      {
        assert segments[..i + 1][..i] == segments[..i];
        if Survives(segments[i], n) { kept := kept + [segments[i]]; }
      }
      assert segments[..|segments|] == segments;
      segments := kept;
      if segments == [] {
        segments, nextId := [FreshSegment(nextId)], nextId + 1;
      }
    }

    method Replay(after: u64) returns (records: seq<InternalRecord>)
      ensures records == ReplayFrom(segments, after)
    {
      hide Keep, DecodeLog, Sort;
      var all := [];
      KeepNone([], Newer(after));
      for i := 0 to |segments|
        invariant all == Keep(AllRecords(segments[..i]), Newer(after))
      {
        assert segments[..i + 1][..i] == segments[..i];
        var more := ReplaySegment(segments[i].data, after);
        KeepAppend(AllRecords(segments[..i]), DecodeLog(segments[i].data), Newer(after));
        all := all + more;
      }
      assert segments[..|segments|] == segments;
      records := Sort(all, BySeq());
    }
  }

  /** The cursor loop over one segment's bytes. */
  method ReplaySegment(data: bytes, after: u64) returns (records: seq<InternalRecord>)
    ensures records == Keep(DecodeLog(data), Newer(after))
  {
    hide Decode, DecodeLog, Keep;
    EmptyDecodes(after);
    records := [];
    var pos := 0;
    ghost var done: seq<InternalRecord> := [];
    assert data[0..] == data;
    while pos < |data|
      invariant 0 <= pos <= |data|
      invariant DecodeLog(data) == done + DecodeLog(data[pos..])
      invariant records == Keep(done, Newer(after))
      decreases |data| - pos
    {
      DecodeLogStep(data, pos);
      match Decode(data[pos..]) {
        case None =>
          assert done + [] == done;
          return;
        case Some((rec, n)) =>
          KeepSnoc(done, rec, Newer(after));
          assert done + ([rec] + DecodeLog(data[pos + n..])) == (done + [rec]) + DecodeLog(data[pos + n..]);
          if rec.seqno > after { records := records + [rec]; }
          done := done + [rec];
          pos := pos + n;
      }
    }
    assert data[pos..] == [] && done + [] == done;
  }

  lemma DecodeLogStep(data: bytes, pos: nat)
    requires pos <= |data|
    ensures Decode(data[pos..]).None? ==> DecodeLog(data[pos..]) == []
    ensures Decode(data[pos..]).Some? ==>
              var (rec, n) := Decode(data[pos..]).value;
              pos + n <= |data| && DecodeLog(data[pos..]) == [rec] + DecodeLog(data[pos + n..])
  {
    hide Decode;
    if Decode(data[pos..]).Some? {
      var (rec, n) := Decode(data[pos..]).value;
      assert data[pos..][n..] == data[pos + n..];
    }
  }

  lemma EmptyDecodes(after: u64)
    ensures DecodeLog([]) == [] && Keep([], Newer(after)) == []
  {}
}
