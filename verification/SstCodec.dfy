/** Block contents and block headers of SST files (`src/sstable.rs`). */
module SstCodec {
  import opened Bytes
  import opened BigEndian
  import opened Record
  import opened Wal

  // ---------------------------------------------------------------- records in a block

  // The record layout from a given field to the end; the sequence number is not stored.
  function FromRangeEnd(rec: InternalRecord, tail: bytes): bytes {
    Sized(RangeBytes(rec.rangeEnd), 2) + (Sized(rec.value, 4) + tail)
  }

  function Fixed(rec: InternalRecord): (s: bytes)
    ensures |s| == 17
  {
    ToBe(AsU64(rec.ts), 8) + ToBe(AsU64(rec.expireAt), 8) + [OpByte(rec.op)]
  }

  function EncodeOne(rec: InternalRecord, tail: bytes): bytes {
    Sized(rec.key, 2) + (Fixed(rec) + FromRangeEnd(rec, tail))
  }

  /** `encode_records`. */
  function EncodeRecords(recs: seq<InternalRecord>): bytes {
    if recs == [] then [] else EncodeOne(recs[0], EncodeRecords(recs[1..]))
  }

  /** One turn of the loop of `decode_records`: a record and the unread bytes. */
  function DecodeOne(d: bytes): (r: Option<(InternalRecord, bytes)>)
    ensures r.Some? ==> |r.value.1| < |d|
  {
    var (key, d1) :- TakeSized(d, 2);
    var (fixed, d2) :- Take(d1, 17);
    var (range, d3) :- TakeSized(d2, 2);
    var (value, d4) :- TakeSized(d3, 4);
    Some((InternalRecord(0, OpFrom(fixed[16]), key, AsI64(ReadU64(fixed[..8])), AsI64(ReadU64(fixed[8..16])),
                         value, if range != [] then Some(range) else None), d4))
  }

  function DecodeRecords(d: bytes, count: nat): seq<InternalRecord> {
    if count == 0 then []
    else match DecodeOne(d)
      case None => []
      case Some((rec, rest)) => [rec] + DecodeRecords(rest, count - 1)
  }

  /** What fits the length fields; an empty range end would come back as none. */
  predicate Storable(rec: InternalRecord) {
    |rec.key| < 0x1_0000 && |rec.value| < 0x1_0000_0000
    && |RangeBytes(rec.rangeEnd)| < 0x1_0000 && rec.rangeEnd != Some([])
  }

  lemma TakeWhole(part: bytes, rest: bytes)
    ensures Take(part + rest, |part|) == Some((part, rest))
  {
    TakeTorn(part, rest, part + rest);
    assert (part + rest)[|part|..] == rest;
  }

  lemma TakeSizedWhole(part: bytes, w: nat, rest: bytes)
    requires Fits(part, w)
    ensures TakeSized(Sized(part, w) + rest, w) == Some((part, rest))
  {
    var d := Sized(part, w) + rest;
    TakeSizedTorn(part, w, rest, d);
    assert d[w + |part|..] == rest;
  }

  lemma FixedReads(rec: InternalRecord)
    ensures var f := Fixed(rec);
            AsI64(ReadU64(f[..8])) == rec.ts && AsI64(ReadU64(f[8..16])) == rec.expireAt && OpFrom(f[16]) == rec.op
  {
    var f := Fixed(rec);
    assert f[..8] == ToBe(AsU64(rec.ts), 8) && f[8..16] == ToBe(AsU64(rec.expireAt), 8);
    ReadBack(AsU64(rec.ts), 8);
    ReadBack(AsU64(rec.expireAt), 8);
    CastRoundTrip(rec.ts);
    CastRoundTrip(rec.expireAt);
  }

  lemma DecodesOne(rec: InternalRecord, tail: bytes)
    requires Storable(rec)
    ensures DecodeOne(EncodeOne(rec, tail)) == Some((rec.(seqno := 0), tail))
  {
    hide TakeSized, Take, Fixed, ReadU64;
    TakeSizedWhole(rec.key, 2, Fixed(rec) + FromRangeEnd(rec, tail));
    TakeWhole(Fixed(rec), FromRangeEnd(rec, tail));
    TakeSizedWhole(RangeBytes(rec.rangeEnd), 2, Sized(rec.value, 4) + tail);
    TakeSizedWhole(rec.value, 4, tail);
    FixedReads(rec);
  }

  /** A block's contents come back, except for the sequence numbers. */
  lemma {:induction false} RecordsRoundTrip(recs: seq<InternalRecord>)
    requires forall i :: 0 <= i < |recs| ==> Storable(recs[i])
    ensures DecodeRecords(EncodeRecords(recs), |recs|) == Unnumbered(recs)
  {
    hide DecodeOne, EncodeOne, Storable;
    if recs != [] {
      DecodesOne(recs[0], EncodeRecords(recs[1..]));
      RecordsRoundTrip(recs[1..]);
      assert Unnumbered(recs) == [recs[0].(seqno := 0)] + Unnumbered(recs[1..]);
    }
  }

  lemma DecodedStorable(d: bytes)
    requires DecodeOne(d).Some?
    ensures Storable(DecodeOne(d).value.0)
  {
    hide Take, ReadU64;
    Widths();
    TakeSizedBound(d, 2);
    var d2 := Take(TakeSized(d, 2).value.1, 17).value.1;
    TakeSizedBound(d2, 2);
    TakeSizedBound(TakeSized(d2, 2).value.1, 4);
  }

  /** The limits are exactly what a record needs to come back. */
  lemma StorableExact(rec: InternalRecord, tail: bytes)
    ensures DecodeOne(EncodeOne(rec, tail)) == Some((rec.(seqno := 0), tail)) <==> Storable(rec)
  {
    hide DecodeOne, EncodeOne;
    if Storable(rec) { DecodesOne(rec, tail); }
    if DecodeOne(EncodeOne(rec, tail)).Some? { DecodedStorable(EncodeOne(rec, tail)); }
  }

  // ---------------------------------------------------------------- the loops of the codec

  lemma {:induction false} EncodeSnoc(recs: seq<InternalRecord>, r: InternalRecord)
    ensures EncodeRecords(recs + [r]) == EncodeRecords(recs) + EncodeOne(r, [])
  {
    if recs == [] {
      assert recs + [r] == [r] && [r][1..] == [];
    } else {
      assert (recs + [r])[1..] == recs[1..] + [r];
      EncodeSnoc(recs[1..], r);
      OneThen(recs[0], EncodeRecords(recs[1..]), EncodeOne(r, []));
    }
  }

  lemma OneThen(rec: InternalRecord, a: bytes, b: bytes)
    ensures EncodeOne(rec, a + b) == EncodeOne(rec, a) + b
  {
    assert FromRangeEnd(rec, a + b) == FromRangeEnd(rec, a) + b;
  }

  lemma OneInPieces(buf: bytes, rec: InternalRecord)
    ensures buf + Sized(rec.key, 2) + Fixed(rec) + Sized(RangeBytes(rec.rangeEnd), 2) + Sized(rec.value, 4)
            == buf + EncodeOne(rec, [])
  {
    hide Sized, Fixed;
  }

  /** The body of the loop of `encode_records`. */
  method AppendRecord(buf: bytes, rec: InternalRecord) returns (more: bytes)
    ensures more == buf + EncodeOne(rec, [])
  {
    hide ToBe, EncodeOne;
    OneInPieces(buf, rec);
    more := buf + ToBe(|rec.key|, 2) + rec.key;
    assert more == buf + Sized(rec.key, 2);
    ghost var a := more;
    more := more + ToBe(AsU64(rec.ts), 8) + ToBe(AsU64(rec.expireAt), 8) + [OpByte(rec.op)];
    assert more == a + Fixed(rec);
    ghost var b := more;
    match rec.rangeEnd {
      case Some(re) => more := more + ToBe(|re|, 2) + re;
      case None => more := more + ToBe(0, 2);
    }
    assert more == b + Sized(RangeBytes(rec.rangeEnd), 2);
    ghost var c := more;
    more := more + ToBe(|rec.value|, 4) + rec.value;
    assert more == c + Sized(rec.value, 4);
  }

  method EncodeAll(recs: seq<InternalRecord>) returns (buf: bytes)
    ensures buf == EncodeRecords(recs)
  {
    hide EncodeOne;
    buf := [];
    for i := 0 to |recs|
      invariant buf == EncodeRecords(recs[..i])
    {
      assert recs[..i + 1] == recs[..i] + [recs[i]];
      EncodeSnoc(recs[..i], recs[i]);
      buf := AppendRecord(buf, recs[i]);
    }
    assert recs[..|recs|] == recs;
  }

  method DecodeAll(data: bytes, count: nat) returns (recs: seq<InternalRecord>)
    ensures recs == DecodeRecords(data, count)
  {
    hide DecodeOne;
    recs := [];
    var rest, left := data, count;
    while left > 0
      invariant DecodeRecords(data, count) == recs + DecodeRecords(rest, left)
    {
      match DecodeOne(rest) {
        case None => return;
        case Some((rec, tail)) =>
          recs := recs + [rec];
          rest, left := tail, left - 1;
      }
    }
  }

  // ---------------------------------------------------------------- block headers

  const BLOCK_MAGIC: u32 := 0x54534E42
  const HEADER_SIZE := 48

  datatype BlockHeader = BlockHeader(
    numRecords: u32, minTs: i64, maxTs: i64, minExpire: i64, maxExpire: i64, dataLen: u32, compressedLen: u32)

  datatype ReadError = TooShort | InvalidMagic | BlockNotFound | OutOfBounds | Truncated | BadCompression

  datatype Read<+T> = Ok(value: T) | Failed(error: ReadError)

  function Lengths(h: BlockHeader): bytes {
    ToBe(h.dataLen, 4) + ToBe(h.compressedLen, 4)
  }

  function Stamps(h: BlockHeader): bytes {
    ToBe(AsU64(h.minTs), 8) + ToBe(AsU64(h.maxTs), 8) + ToBe(AsU64(h.minExpire), 8) + ToBe(AsU64(h.maxExpire), 8)
  }

  /** `BlockHeader::to_bytes`. */
  function HeaderBytes(h: BlockHeader): (s: bytes)
    ensures |s| == HEADER_SIZE
  {
    ToBe(BLOCK_MAGIC, 4) + ToBe(h.numRecords, 4) + Stamps(h) + Lengths(h)
  }

  function ReadU32(s: bytes): u32
    requires |s| == 4
  {
    FromBeBound(s);
    Widths();
    FromBe(s)
  }

  function ReadI64(s: bytes): i64
    requires |s| == 8
  {
    AsI64(ReadU64(s))
  }

  /** `BlockHeader::from_bytes`. */
  function ReadHeader(d: bytes): Read<BlockHeader> {
    if |d| < HEADER_SIZE then Failed(TooShort)
    else if ReadU32(d[..4]) != BLOCK_MAGIC then Failed(InvalidMagic)
    else Ok(BlockHeader(ReadU32(d[4..8]), ReadI64(d[8..16]), ReadI64(d[16..24]), ReadI64(d[24..32]),
                        ReadI64(d[32..40]), ReadU32(d[40..44]), ReadU32(d[44..48])))
  }

  lemma StampReads(n: i64)
    ensures ReadI64(ToBe(AsU64(n), 8)) == n
  {
    ReadBack(AsU64(n), 8);
    CastRoundTrip(n);
  }

  lemma HeaderSlices(h: BlockHeader)
    ensures var d := HeaderBytes(h);
            && d[..4] == ToBe(BLOCK_MAGIC, 4) && d[4..8] == ToBe(h.numRecords, 4)
            && d[8..16] == ToBe(AsU64(h.minTs), 8) && d[16..24] == ToBe(AsU64(h.maxTs), 8)
            && d[24..32] == ToBe(AsU64(h.minExpire), 8) && d[32..40] == ToBe(AsU64(h.maxExpire), 8)
            && d[40..44] == ToBe(h.dataLen, 4) && d[44..48] == ToBe(h.compressedLen, 4)
  {
    hide ToBe, AsU64;
    var d, t, l := HeaderBytes(h), Stamps(h), Lengths(h);
    assert d[8..40] == t && d[40..48] == l;
    assert d[8..16] == t[0..8] && d[16..24] == t[8..16] && d[24..32] == t[16..24] && d[32..40] == t[24..32];
    assert d[40..44] == l[0..4] && d[44..48] == l[4..8];
  }

  /** A header reads back whatever follows it. */
  lemma HeaderRoundTrip(h: BlockHeader)
    ensures ReadHeader(HeaderBytes(h)) == Ok(h)
  {
    hide ToBe, ReadI64, HeaderBytes, FromBe;
    HeaderSlices(h);
    ReadBack(BLOCK_MAGIC, 4);
    ReadBack(h.numRecords, 4);
    ReadBack(h.dataLen, 4);
    ReadBack(h.compressedLen, 4);
    StampReads(h.minTs);
    StampReads(h.maxTs);
    StampReads(h.minExpire);
    StampReads(h.maxExpire);
  }
}
