/** Records of the engine and the translation of scan ranges into key filters
    (`src/record.rs`). */
module Record {
  import opened Bytes
  import opened BigEndian

  datatype Option<+T> = None | Some(value: T) {
    predicate IsFailure() { None? }
    function PropagateFailure<U>(): Option<U> requires None? { None }
    function Extract(): T requires Some? { value }
  }

  datatype Op = Put | Delete | DeleteRange

  datatype InternalRecord = InternalRecord(
    seqno: u64, op: Op, key: bytes, ts: i64, expireAt: i64, value: bytes,
    rangeEnd: Option<bytes>)

  /** SST records come back without their sequence number. */
  function Unnumbered(s: seq<InternalRecord>): (z: seq<InternalRecord>)
    ensures |z| == |s| && forall i :: 0 <= i < |s| ==> z[i] == s[i].(seqno := 0)
  {
    seq(|s|, i requires 0 <= i < |s| => s[i].(seqno := 0))
  }

  // ---------------------------------------------------------------- scan ranges

  datatype Bound = Included(k: bytes) | Excluded(k: bytes) | Unbounded

  datatype KeyFilter = Prefix(p: bytes) | Range(start: bytes, end: bytes) | All

  predicate IsPrefixRange(start: bytes, end: bytes) {
    end == Increment(start)
  }

  /** `ScanRange::to_query_params`, the key half. */
  function ToKeyFilter(lo: Bound, hi: Bound): KeyFilter {
    match (lo, hi)
    case (Included(s), Excluded(e)) => if IsPrefixRange(s, e) then Prefix(s) else Range(s, e)
    case (Included(s), Included(e)) => Range(s, e)
    case _ => All
  }

  /** How every scan source tests a key (`filter_sst_block`, `MemTable::query_*`). */
  predicate Matches(f: KeyFilter, k: bytes) {
    match f
    case Prefix(p) => p <= k
    case Range(s, e) => AtMost(s, k) && AtMost(k, e)
    case All => true
  }

  /** What the caller of `Engine::scan` asked for. */
  predicate InBounds(lo: Bound, hi: Bound, k: bytes) {
    && (match lo case Included(s) => AtMost(s, k) case Excluded(s) => Less(s, k) case Unbounded => true)
    && (match hi case Included(e) => AtMost(k, e) case Excluded(e) => Less(k, e) case Unbounded => true)
  }

  /** The filter accepts k exactly when k was requested, or k is an exclusive end that is
      not a prefix end. */
  predicate FilterAgrees(s: bytes, hi: Bound, k: bytes)
    requires !hi.Unbounded?
  {
    Matches(ToKeyFilter(Included(s), hi), k) <==>
    (InBounds(Included(s), hi, k)
     || (hi.Excluded? && !IsPrefixRange(s, hi.k) && k == hi.k && AtMost(s, k)))
  }

  lemma FilterKeepsRange(s: bytes, hi: Bound, k: bytes)
    requires !hi.Unbounded?
    requires hi.Excluded? && IsPrefixRange(s, hi.k) ==> Incrementable(s)
    ensures FilterAgrees(s, hi, k)
  {
    if hi.Excluded? && IsPrefixRange(s, hi.k) {
      PrefixRangeMeansPrefix(s, k);
    }
  }

  /** The one exception is an all-255 start scanned to its own increment: that range holds a
      single key, while the filter it becomes accepts every extension. */
  lemma FilterKeepsRangeExact(s: bytes, hi: Bound)
    requires !hi.Unbounded?
    ensures (forall k: bytes :: FilterAgrees(s, hi, k)) <==>
            !(hi.Excluded? && IsPrefixRange(s, hi.k) && !Incrementable(s))
  {
    if hi.Excluded? && IsPrefixRange(s, hi.k) && !Incrementable(s) {
      LessCancel(s, [1], [0]);
      assert !FilterAgrees(s, hi, s + [1]);
    } else {
      forall k: bytes ensures FilterAgrees(s, hi, k) { FilterKeepsRange(s, hi, k); }
    }
  }

  // ---------------------------------------------------------------- other bounds

  /** Any other pair of bounds, an exclusive or missing lower one or a missing upper one, is
      dropped: the scan then asks for every key.  That is what was requested only without an upper
      bound and with none, or the empty key, below. */
  lemma OtherBoundsDropped(lo: Bound, hi: Bound)
    requires !lo.Included? || hi.Unbounded?
    ensures forall k: bytes :: Matches(ToKeyFilter(lo, hi), k)
    ensures (forall k: bytes :: Matches(ToKeyFilter(lo, hi), k) <==> InBounds(lo, hi, k)) <==>
            hi.Unbounded? && (lo.Unbounded? || lo == Included([]))
  {
    if hi.Unbounded? && lo.Included? && lo.k == [] {
      forall k: bytes ensures InBounds(lo, hi, k) { EmptyIsLeast(k); }
    }
    match lo {
      case Included(s) => if s != [] { assert !AtMost(s, []); assert !InBounds(lo, hi, []); }
      case Excluded(s) => LessIrreflexive(s); assert !InBounds(lo, hi, s);
      case Unbounded =>
    }
    if !hi.Unbounded? {
      var k := hi.k + [0];
      PrefixLess(hi.k, k);
      LessAsymmetric(hi.k, k);
      assert !InBounds(lo, hi, k);
    }
  }

  lemma EmptyIsLeast(k: bytes)
    ensures AtMost([], k)
  {}
}
