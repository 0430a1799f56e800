/** The memtables (`src/memtable.rs`) as the objects they are, refining the map of last
    writes for point reads (`Engine::get_bytes`) and scans. */
module Memtable {
  import opened Bytes
  import opened BigEndian
  import opened Record
  import opened Seqs
  import opened RecordOrder
  import opened LatestWins
  import opened ScanMerge
  import opened ScanBuild

  function Hit(filter: KeyFilter, now: i64): InternalRecord -> bool {
    (r: InternalRecord) => Matches(filter, r.key) && r.expireAt >= now
  }

  class MemTable {
    var records: seq<InternalRecord>
    var pointIndex: map<Pair, nat>

    /** The index, where it has an entry, points at the newest record of the pair. */
    ghost predicate Valid()
      reads this
    {
      forall p :: p in pointIndex ==>
        pointIndex[p] < |records| && Newest(records, p, records[pointIndex[p]])
    }

    constructor ()
      ensures Valid() && records == []
    {
      records, pointIndex := [], map[];
    }

    method Insert(rec: InternalRecord)
      modifies this
      ensures records == old(records) + [rec]
      ensures old(Valid()) && (forall r :: r in old(records) ==> r.seqno < rec.seqno) ==> Valid()
    {
      pointIndex := pointIndex[PairOf(rec) := |records|];
      records := records + [rec];
    }

    /** The newest record of the pair, by the index or by a linear search. */
    method Get(key: bytes, ts: i64) returns (r: Option<InternalRecord>)
      requires Valid()
      ensures r.None? <==> !Has(records, (key, ts))
      ensures r.Some? ==> Newest(records, (key, ts), r.value)
    {
      if (key, ts) in pointIndex {
        return Some(records[pointIndex[(key, ts)]]);
      }
      r := None;
      for i := 0 to |records|
        invariant r.None? ==> !Has(records[..i], (key, ts))
        invariant r.Some? ==> Newest(records[..i], (key, ts), r.value)
      {
        assert records[..i + 1] == records[..i] + [records[i]];
        if records[i].key == key && records[i].ts == ts && (r.None? || records[i].seqno >= r.value.seqno) {
          r := Some(records[i]);
        }
      }
      assert records[..|records|] == records;
    }

    /** `query_prefix` and `query_key_range`. */
    method QueryTable(filter: KeyFilter, now: i64) returns (hits: seq<InternalRecord>)
      ensures hits == Keep(records, Hit(filter, now))
    {
      hits := [];
      for i := 0 to |records|
        invariant hits == Keep(records[..i], Hit(filter, now))
      {
        assert records[..i + 1] == records[..i] + [records[i]];
        KeepSnoc(records[..i], records[i], Hit(filter, now));
        if Matches(filter, records[i].key) && records[i].expireAt >= now {
          hits := hits + [records[i]];
        }
      }
      assert records[..|records|] == records;
    }

    /** Sorting reorders the records and clears the index. */
    method SortTable()
      modifies this
      ensures Valid() && records == Sort(old(records), Before) && multiset(records) == multiset(old(records))
    {
      BeforeIsTotal();
      SortSorts(records, Before);
      records := Sort(records, Before);
      pointIndex := map[];
    }
  }

  lemma SameNewest(a: seq<InternalRecord>, b: seq<InternalRecord>, p: Pair)
    requires multiset(a) == multiset(b)
    ensures Has(a, p) <==> Has(b, p)
    ensures forall w :: Newest(a, p, w) <==> Newest(b, p, w)
  {
    assert forall r :: r in a <==> r in multiset(a);
    assert forall r :: r in b <==> r in multiset(b);
  }

  lemma ActiveNewest(parts: seq<seq<InternalRecord>>, active: seq<InternalRecord>, p: Pair, r: Option<InternalRecord>)
    requires Increasing(Flatten(parts) + active)
    requires r.None? <==> !Has(active, p)
    requires r.Some? ==> Newest(active, p, r.value)
    ensures r == LookUp(Latest(active), p)
    ensures r.Some? ==> r.value in Flatten(parts) + active
  {
    IncreasingSplit(Flatten(parts), active);
    LatestHas(active, p);
    if r.Some? { LatestIsNewest(active, p, r.value); }
  }

  lemma PartNewest(parts: seq<seq<InternalRecord>>, active: seq<InternalRecord>, i: nat, p: Pair,
                   r: Option<InternalRecord>, now: i64)
    requires Increasing(Flatten(parts) + active) && i < |parts|
    requires r.None? <==> !Has(parts[i], p)
    requires r.Some? ==> Newest(parts[i], p, r.value)
    ensures OldestLive(parts[i..], p, now) ==
            if r.Some? && r.value.expireAt >= now then r else OldestLive(parts[i + 1..], p, now)
  {
    IncreasingSplit(Flatten(parts), active);
    PartIncreasing(parts, i);
    LatestHas(parts[i], p);
    if r.Some? { LatestIsNewest(parts[i], p, r.value); }
  }

  /** Sequence numbers as `write_internal` assigns them. */
  function Numbered(records: seq<InternalRecord>, base: nat): (s: seq<InternalRecord>)
    requires base + |records| <= 0x1_0000_0000_0000_0000
    ensures |s| == |records|
  {
    seq(|records|, i requires 0 <= i < |records| => records[i].(seqno := base + i))
  }

  ghost predicate Above(written: seq<InternalRecord>, base: nat) {
    forall r :: r in written ==> r.seqno < base
  }

  ghost predicate NeverExpires(written: seq<InternalRecord>, now: i64) {
    forall r :: r in written ==> r.expireAt >= now
  }

  ghost predicate NoRangeDeletes(written: seq<InternalRecord>) {
    forall r :: r in written ==> !r.op.DeleteRange?
  }

  /** The keys a scan asks the memtables for: an unrestricted scan stops at "~". */
  function MemFilter(filter: KeyFilter): KeyFilter {
    if filter.All? then Range([], [126]) else filter
  }

  class MemTables {
    var active: MemTable
    var frozen: seq<MemTable>

    /** Everything written so far, and the part of it that went into each frozen table. */
    ghost var written: seq<InternalRecord>
    ghost var parts: seq<seq<InternalRecord>>

    ghost predicate Valid()
      reads this, active, frozen
    {
      && active !in frozen && active.Valid()
      && |parts| == |frozen|
      && (forall i :: 0 <= i < |frozen| ==> frozen[i].Valid() && multiset(frozen[i].records) == multiset(parts[i]))
      && written == Flatten(parts) + active.records && Increasing(written)
    }

    constructor ()
      ensures Valid() && written == [] && frozen == [] && fresh(active)
    {
      active := new MemTable();
      frozen, written, parts := [], [], [];
    }

    method Insert(rec: InternalRecord)
      requires Valid() && Above(written, rec.seqno)
      modifies this`written, active
      ensures Valid() && written == old(written) + [rec]
      ensures active.records == old(active.records) + [rec]
    {
      active.Insert(rec);
      written := written + [rec];
    }

    /** `write_internal` numbers a batch, `process_batch_inner` inserts it record by record. */
    method WriteBatch(records: seq<InternalRecord>, base: nat)
      requires Valid() && Above(written, base) && base + |records| <= 0x1_0000_0000_0000_0000
      modifies this`written, active
      ensures Valid() && written == old(written) + Numbered(records, base)
      ensures Above(written, base + |records|)
    {
      hide Flatten, Increasing, Newest;
      var numbered := Numbered(records, base);
      for i := 0 to |records|
        invariant Valid() && written == old(written) + numbered[..i] && Above(written, base + i)
      {
        Insert(numbered[i]);
        assert numbered[..i + 1] == numbered[..i] + [numbered[i]];
      }
      assert numbered[..|records|] == numbered;
    }

    /** Freezing changes where records are and nothing else. */
    method Freeze() returns (done: bool)
      requires Valid()
      modifies this`active, this`frozen, this`parts, active
      ensures Valid() && written == old(written) && (fresh(active) || active == old(active))
      ensures done <==> old(active.records) != []
      ensures frozen == if done then old(frozen) + [old(active)] else old(frozen)
    {
      if active.records == [] {
        return false;
      }
      parts := parts + [active.records];
      active.SortTable();
      frozen := frozen + [active];
      active := new MemTable();
      assert parts[..|parts| - 1] == old(parts);
      return true;
    }

    /** The search order of the source: the active table, then the frozen ones from the oldest,
        passing over tables whose newest record of the pair has expired. */
    method Get(key: bytes, ts: i64, now: i64) returns (r: Option<InternalRecord>)
      requires Valid()
      ensures r == SearchLive(parts, active.records, (key, ts), now)
      ensures r.Some? ==> r.value.expireAt >= now
      ensures NeverExpires(written, now) && |frozen| <= 1 ==> r == LookUp(Latest(written), (key, ts))
    {
      hide Latest, Increasing, Flatten, Search, Newest;
      ghost var p := (key, ts);
      SearchExact(parts, active.records, p);
      if NeverExpires(written, now) { AllAlive(parts, active.records, p, now); }
      r := active.Get(key, ts);
      ActiveNewest(parts, active.records, p, r);
      if r.Some? && r.value.expireAt >= now {
        return r;
      }
      for i := 0 to |frozen|
        invariant SearchLive(parts, active.records, p, now) == OldestLive(parts[i..], p, now)
      {
        r := frozen[i].Get(key, ts);
        SameNewest(frozen[i].records, parts[i], p);
        PartNewest(parts, active.records, i, p, r, now);
        if r.Some? && r.value.expireAt >= now {
          return r;
        }
      }
      return None;
    }

    /** `Engine::get_bytes` while everything is in the memtables: anything but a delete; without
        expiry and range deletes, a look-up in the map of last writes. */
    method PointRead(key: bytes, ts: i64, now: i64) returns (r: Option<InternalRecord>)
      requires Valid()
      ensures var found := SearchLive(parts, active.records, (key, ts), now);
              r == if found.Some? && !found.value.op.Delete? then found else None
      ensures NeverExpires(written, now) && NoRangeDeletes(written) && |frozen| <= 1 ==>
                r == LiveAt(Latest(written), (key, ts))
    {
      hide Latest, SearchLive, Increasing, Flatten;
      var found := Get(key, ts, now);
      LatestHas(written, (key, ts));
      if found.Some? && !found.value.op.Delete? {
        return found;
      }
      return None;
    }

    /** `query_prefix` and `query_key_range`: matching records of every table, active first. */
    method QueryAll(filter: KeyFilter, now: i64) returns (hits: seq<InternalRecord>)
      requires Valid()
      ensures forall r :: r in hits <==> r in written && Hit(filter, now)(r)
    {
      hits := active.QueryTable(filter, now);
      KeepMembers(active.records, Hit(filter, now));
      for i := 0 to |frozen|
        invariant forall r :: r in hits <==> (r in active.records || InSome(parts[..i], r)) && Hit(filter, now)(r)
      {
        var more := frozen[i].QueryTable(filter, now);
        KeepMembers(frozen[i].records, Hit(filter, now));
        hits := hits + more;
        NextPart(frozen[i].records, parts, i);
      }
      assert parts[..|frozen|] == parts;
      forall r ensures r in Flatten(parts) <==> InSome(parts, r) { FlattenHolds(parts, r); }
    }

    /** A scan while everything is in the memtables: in order, one record per pair, the last
        unexpired write of its pair if that is a put under no range tombstone, and none left
        out; without expiry and range deletes, the live entries of the map of last writes. */
    method ScanMemory(filter: KeyFilter, now: i64) returns (out: seq<InternalRecord>)
      requires Valid()
      ensures StrictlyAscending(out)
      ensures forall r :: r in out <==>
                Matches(MemFilter(filter), r.key) && LiveAt(Latest(Unexpired(written, now)), PairOf(r)) == Some(r)
                && !RangeDeleted(written, MemFilter(filter), now, r.key)
      ensures NeverExpires(written, now) && NoRangeDeletes(written) ==>
                forall r :: r in out <==>
                  Matches(MemFilter(filter), r.key) && LiveAt(Latest(written), PairOf(r)) == Some(r)
    {
      hide Latest, Winners, Keep, StrictlyAscending, Unexpired, Increasing, Flatten;
      var hits := QueryAll(MemFilter(filter), now);
      var q := Query(filter, None, now);
      out := ScanAll(hits, [], q, filter.All? || filter == Prefix([]));
      ghost var ws :| Winners(Sources(hits, [], q, filter.All? || filter == Prefix([])), ws)
                      && out == Keep(ws, Shown(Tombstones(hits, [], q)));
      ScanIsLatest(written, hits, q, MemFilter(filter), filter.All? || filter == Prefix([]), ws);
      if NeverExpires(written, now) { AllUnexpired(written, now); }
    }
  }

  /** The written key 127 is found by a point read and dropped by an unrestricted scan. */
  method ScanDropsKey() returns (tables: MemTables, rec: InternalRecord, found: Option<InternalRecord>,
                                 out: seq<InternalRecord>)
    ensures fresh(tables) && tables.Valid() && tables.written == [rec] && rec.op.Put? && rec.key == [127]
    ensures found == Some(rec) && out == []
  {
    hide Latest, Increasing, Flatten, StrictlyAscending, RangeDeleted, Unexpired, SearchLive, Matches, MemFilter;
    tables := new MemTables();
    var put := InternalRecord(0, Put, [127], 0, 0, [], None);
    tables.WriteBatch([put], 0);
    rec := put;
    assert Numbered([put], 0) == [put] && tables.written == [rec];
    out := tables.ScanMemory(All, 0);
    OneWrite(rec);
    NothingShown(rec, out);
    found := tables.PointRead([127], 0, 0);
  }

  lemma OneWrite(rec: InternalRecord)
    ensures Latest([rec]) == map[PairOf(rec) := rec]
  {
    assert [rec][..0] == [];
  }

  /** A key above "~" is outside an unrestricted scan. */
  lemma NothingShown(rec: InternalRecord, out: seq<InternalRecord>)
    requires rec.key == [127]
    requires forall r :: r in out ==>
               Matches(MemFilter(All), r.key) && LiveAt(Latest([rec]), PairOf(r)) == Some(r)
    ensures out == []
  {
    OneWrite(rec);
    assert !Matches(MemFilter(All), [127]);
    NoMembers(out);
  }

  // ---------------------------------------------------------------- expiry

  function Alive(now: i64): InternalRecord -> bool {
    (r: InternalRecord) => r.expireAt >= now
  }

  function Unexpired(written: seq<InternalRecord>, now: i64): seq<InternalRecord> {
    Keep(written, Alive(now))
  }

  lemma {:induction false} KeepIncreasing(s: seq<InternalRecord>, test: InternalRecord -> bool)
    requires Increasing(s)
    ensures Increasing(Keep(s, test))
  {
    if s != [] {
      var n := |s| - 1;
      KeepIncreasing(s[..n], test);
      KeepMembers(s[..n], test);
      var kept := Keep(s[..n], test);
      forall i | 0 <= i < |kept| ensures kept[i].seqno < s[n].seqno { assert kept[i] in kept && kept[i] in s[..n]; }
    }
  }

  lemma {:induction false} AllUnexpired(s: seq<InternalRecord>, now: i64)
    requires NeverExpires(s, now)
    ensures Unexpired(s, now) == s
  {
    if s != [] {
      assert s[|s| - 1] in s;
      AllUnexpired(s[..|s| - 1], now);
    }
  }

  /** How the frozen tables are searched when records expire. */
  function OldestLive(parts: seq<seq<InternalRecord>>, p: Pair, now: i64): Option<InternalRecord> {
    if parts == [] then None
    else
      var first := Latest(parts[0]);
      if p in first && first[p].expireAt >= now then Some(first[p]) else OldestLive(parts[1..], p, now)
  }

  /** `MemTables::get`. */
  function SearchLive(parts: seq<seq<InternalRecord>>, active: seq<InternalRecord>, p: Pair,
                      now: i64): Option<InternalRecord> {
    if p in Latest(active) && Latest(active)[p].expireAt >= now then Some(Latest(active)[p])
    else OldestLive(parts, p, now)
  }

  /** What a point read finds has not expired. */
  lemma {:induction false} FoundAlive(parts: seq<seq<InternalRecord>>, active: seq<InternalRecord>, p: Pair, now: i64)
    ensures SearchLive(parts, active, p, now).Some? ==> SearchLive(parts, active, p, now).value.expireAt >= now
  {
    hide Latest;
    if parts != [] { FoundAlive(parts[1..], active, p, now); }
  }

  /** Without expiry it is the plain search. */
  lemma AllAlive(parts: seq<seq<InternalRecord>>, active: seq<InternalRecord>, p: Pair, now: i64)
    requires NeverExpires(Flatten(parts) + active, now)
    ensures SearchLive(parts, active, p, now) == Search(parts, active, p)
  {
    hide Latest, Flatten;
    LatestHas(active, p);
    forall i, r | 0 <= i < |parts| && r in parts[i] ensures r.expireAt >= now { FlattenHolds(parts, r); }
    PartsAlive(parts, p, now);
  }

  lemma {:induction false} PartsAlive(parts: seq<seq<InternalRecord>>, p: Pair, now: i64)
    requires forall i, r :: 0 <= i < |parts| && r in parts[i] ==> r.expireAt >= now
    ensures OldestLive(parts, p, now) == OldestFirst(parts, p)
  {
    hide Latest;
    if parts != [] {
      LatestHas(parts[0], p);
      forall i, r | 0 <= i < |parts[1..]| && r in parts[1..][i] ensures r.expireAt >= now { assert r in parts[i + 1]; }
      PartsAlive(parts[1..], p, now);
    }
  }

  // ---------------------------------------------------------------- range tombstones

  /** An unexpired range delete among the records asked for covers the key. */
  ghost predicate RangeDeleted(written: seq<InternalRecord>, filter: KeyFilter, now: i64, k: bytes) {
    exists x :: x in written && Hit(filter, now)(x) && IsRange(x) && AtMost(x.key, k) && Less(k, x.rangeEnd.value)
  }

  lemma {:induction false} TombstonedBy(s: seq<InternalRecord>, k: bytes)
    ensures Tombstoned(Ranges(s), k) <==>
            exists x :: x in s && IsRange(x) && AtMost(x.key, k) && Less(k, x.rangeEnd.value)
  {
    hide Less, AtMost;
    if s != [] {
      var n := |s| - 1;
      var last, front, all := s[n], Ranges(s[..n]), Ranges(s);
      TombstonedBy(s[..n], k);
      assert s == s[..n] + [last];
      if i :| 0 <= i < |all| && AtMost(all[i].0, k) && Less(k, all[i].1) {
        assert i < |front| ==> all[i] == front[i];
      }
      if i :| 0 <= i < |front| && AtMost(front[i].0, k) && Less(k, front[i].1) { assert all[i] == front[i]; }
      if IsRange(last) && AtMost(last.key, k) && Less(k, last.rangeEnd.value) {
        assert all[|front|] == (last.key, last.rangeEnd.value);
      }
    }
  }

  ghost predicate InSome(parts: seq<seq<InternalRecord>>, r: InternalRecord) {
    exists i :: 0 <= i < |parts| && r in parts[i]
  }

  lemma NextPart(records: seq<InternalRecord>, parts: seq<seq<InternalRecord>>, i: nat)
    requires i < |parts| && multiset(records) == multiset(parts[i])
    ensures forall r :: InSome(parts[..i + 1], r) <==> InSome(parts[..i], r) || r in records
  {
    var front, more := parts[..i], parts[..i + 1];
    forall r ensures InSome(more, r) <==> InSome(front, r) || r in records {
      assert r in records <==> r in multiset(records);
      assert r in parts[i] <==> r in multiset(parts[i]);
      if j :| 0 <= j < |more| && r in more[j] { assert j < i ==> r in front[j]; }
      if j :| 0 <= j < |front| && r in front[j] { assert r in more[j]; }
      if r in records { assert r in more[i]; }
    }
  }

  /** The live value of a pair: its last write, unless that is a delete. */
  function LiveAt(m: map<Pair, InternalRecord>, p: Pair): Option<InternalRecord> {
    if p in m && m[p].op.Put? then Some(m[p]) else None
  }

  /** Merging the hits of a scan yields the last unexpired writes. */
  lemma ScanIsLatest(written: seq<InternalRecord>, hits: seq<InternalRecord>, q: Query, filter: KeyFilter, full: bool,
                     ws: seq<InternalRecord>)
    requires Increasing(written)
    requires forall r :: r in hits <==> r in written && Hit(filter, q.now)(r)
    requires Winners(Sources(hits, [], q, full), ws)
    ensures var out := Keep(ws, Shown(Tombstones(hits, [], q)));
            StrictlyAscending(out)
            && forall r :: r in out <==>
                 Matches(filter, r.key) && LiveAt(Latest(Unexpired(written, q.now)), PairOf(r)) == Some(r)
                 && !RangeDeleted(written, filter, q.now, r.key)
  {
    hide Latest, Keep, StrictlyAscending, Increasing, Sources, Present, Winners, Tombstoned, RangeDeleted, Ranges;
    var shown := Shown(Tombstones(hits, [], q));
    assert Tombstones(hits, [], q) == Ranges(hits) + [] == Ranges(hits);
    WinnersAscend(Sources(hits, [], q, full), ws);
    KeepAscending(ws, shown);
    KeepMembers(ws, shown);
    WinnersAreLatest(written, hits, q, filter, full, ws);
    forall k ensures Tombstoned(Ranges(hits), k) <==> RangeDeleted(written, filter, q.now, k) {
      HitsTombstone(written, hits, q, filter, k);
    }
  }

  lemma WinnersAscend(input: seq<seq<InternalRecord>>, ws: seq<InternalRecord>)
    requires Winners(input, ws)
    ensures StrictlyAscending(ws)
  {}

  lemma HitsTombstone(written: seq<InternalRecord>, hits: seq<InternalRecord>, q: Query, filter: KeyFilter, k: bytes)
    requires forall r :: r in hits <==> r in written && Hit(filter, q.now)(r)
    ensures Tombstoned(Ranges(hits), k) <==> RangeDeleted(written, filter, q.now, k)
  {
    hide Less, AtMost, Ranges, Tombstoned, Hit;
    TombstonedBy(hits, k);
  }

  lemma WinnersAreLatest(written: seq<InternalRecord>, hits: seq<InternalRecord>, q: Query, filter: KeyFilter,
                         full: bool,
                         ws: seq<InternalRecord>)
    requires Increasing(written)
    requires forall r :: r in hits <==> r in written && Hit(filter, q.now)(r)
    requires Winners(Sources(hits, [], q, full), ws)
    ensures forall r :: r in ws <==>
              Matches(filter, r.key) && LookUp(Latest(Unexpired(written, q.now)), PairOf(r)) == Some(r)
  {
    hide Latest, Keep, StrictlyAscending, Increasing, Sources, Present;
    var input, alive := Sources(hits, [], q, full), Unexpired(written, q.now);
    KeepIncreasing(written, Alive(q.now));
    KeepMembers(written, Alive(q.now));
    forall r ensures Present(input, r) <==> r in hits { SourcesHold(hits, [], q, full, r); }
    forall r ensures r in ws <==> Matches(filter, r.key) && LookUp(Latest(alive), PairOf(r)) == Some(r) {
      LatestIsNewest(alive, PairOf(r), r);
      if r in ws {
        assert Highest(input, r);
      } else if r in hits && Newest(alive, PairOf(r), r) {
        assert Present(input, r) && HasPair(ws, PairOf(r));
        var w :| w in ws && PairOf(w) == PairOf(r);
        assert Highest(input, w);
        IncreasingDistinct(alive, r, w);
      }
    }
  }
}
