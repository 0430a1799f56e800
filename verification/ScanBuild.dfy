/** Assembling a scan (`ScanIterator::build` and `filter_sst_block` in `src/engine.rs`) from
    memtable results and candidate SST blocks, and running it to the end. */
module ScanBuild {
  import opened Bytes
  import opened BigEndian
  import opened Record
  import opened Seqs
  import opened RecordOrder
  import opened ScanMerge
  import opened Scan

  datatype Query = Query(filter: KeyFilter, times: Option<(i64, i64)>, now: i64)

  predicate Wanted(q: Query, r: InternalRecord) {
    Matches(q.filter, r.key) && (q.times.Some? ==> q.times.value.0 <= r.ts <= q.times.value.1)
  }

  /** What a block contributes to a bounded scan: live records that match, deletes included. */
  function InBlock(q: Query): InternalRecord -> bool {
    (r: InternalRecord) => r.expireAt > q.now && !r.op.DeleteRange? && Wanted(q, r)
  }

  /** What a block contributes to a full scan. */
  function LivePut(now: i64): InternalRecord -> bool {
    (r: InternalRecord) => r.expireAt > now && r.op.Put?
  }

  function LiveRange(now: i64): InternalRecord -> bool {
    (r: InternalRecord) => r.expireAt > now && IsRange(r)
  }

  predicate IsRange(r: InternalRecord) {
    r.op.DeleteRange? && r.rangeEnd.Some?
  }

  /** The key ranges of range deletes. */
  function Ranges(s: seq<InternalRecord>): seq<(bytes, bytes)> {
    if s == [] then []
    else
      var n := |s| - 1;
      Ranges(s[..n]) + (if IsRange(s[n]) then [(s[n].key, s[n].rangeEnd.value)] else [])
  }

  function BlockSource(records: seq<InternalRecord>, q: Query, full: bool): seq<InternalRecord> {
    if full then Keep(records, LivePut(q.now)) else Unnumbered(Keep(records, InBlock(q)))
  }

  /** The non-empty sources of the first blocks. */
  function BlockSources(blocks: seq<seq<InternalRecord>>, q: Query, full: bool): seq<seq<InternalRecord>> {
    if blocks == [] then []
    else
      var n := |blocks| - 1;
      var source := BlockSource(blocks[n], q, full);
      BlockSources(blocks[..n], q, full) + (if source == [] then [] else [source])
  }

  function BlockRanges(blocks: seq<seq<InternalRecord>>, q: Query): seq<(bytes, bytes)> {
    if blocks == [] then []
    else
      var n := |blocks| - 1;
      BlockRanges(blocks[..n], q) + Ranges(Keep(blocks[n], LiveRange(q.now)))
  }

  function Sources(mem: seq<InternalRecord>, blocks: seq<seq<InternalRecord>>, q: Query,
                   full: bool): seq<seq<InternalRecord>> {
    (if mem == [] then [] else [Sort(mem, Before)]) + BlockSources(blocks, q, full)
  }

  function Tombstones(mem: seq<InternalRecord>, blocks: seq<seq<InternalRecord>>, q: Query): seq<(bytes, bytes)> {
    Ranges(mem) + BlockRanges(blocks, q)
  }

  // ---------------------------------------------------------------- the loops of build

  lemma UnnumberedSnoc(s: seq<InternalRecord>, r: InternalRecord)
    ensures Unnumbered(s + [r]) == Unnumbered(s) + [r.(seqno := 0)]
  {}

  lemma RangesSnoc(s: seq<InternalRecord>, r: InternalRecord)
    ensures Ranges(s + [r]) == Ranges(s) + (if IsRange(r) then [(r.key, r.rangeEnd.value)] else [])
  {
    assert (s + [r])[..|s|] == s;
  }

  /** `filter_sst_block`, as a bounded scan calls it. */
  method FilterSstBlock(records: seq<InternalRecord>, q: Query, tombstones: seq<(bytes, bytes)>)
    returns (filtered: seq<InternalRecord>, tombstones': seq<(bytes, bytes)>)
    ensures filtered == BlockSource(records, q, false)
    ensures tombstones' == tombstones + Ranges(Keep(records, LiveRange(q.now)))
  {
    hide Keep, Ranges;
    filtered, tombstones' := [], tombstones;
    KeepNone([], InBlock(q));
    KeepNone([], LiveRange(q.now));
    assert Ranges([]) == [] by { EmptyRanges(); }
    for i := 0 to |records|
      invariant filtered == Unnumbered(Keep(records[..i], InBlock(q)))
      invariant tombstones' == tombstones + Ranges(Keep(records[..i], LiveRange(q.now)))
    {
      var rec := records[i];
      assert records[..i + 1] == records[..i] + [rec];
      KeepSnoc(records[..i], rec, InBlock(q));
      KeepSnoc(records[..i], rec, LiveRange(q.now));
      UnnumberedSnoc(Keep(records[..i], InBlock(q)), rec);
      RangesSnoc(Keep(records[..i], LiveRange(q.now)), rec);
      if rec.expireAt <= q.now { continue; }
      if rec.op.DeleteRange? {
        if rec.rangeEnd.Some? {
          tombstones' := tombstones' + [(rec.key, rec.rangeEnd.value)];
        }
        continue;
      }
      if !Matches(q.filter, rec.key) { continue; }
      if q.times.Some? && (rec.ts < q.times.value.0 || rec.ts > q.times.value.1) { continue; }
      filtered := filtered + [rec.(seqno := 0)];
    }
    assert records[..|records|] == records;
  }

  lemma EmptyRanges()
    ensures Ranges([]) == []
  {}

  /** The loop of the full-scan branch of `build`. */
  method FilterFullBlock(records: seq<InternalRecord>, q: Query, tombstones: seq<(bytes, bytes)>)
    returns (filtered: seq<InternalRecord>, tombstones': seq<(bytes, bytes)>)
    ensures filtered == BlockSource(records, q, true)
    ensures tombstones' == tombstones + Ranges(Keep(records, LiveRange(q.now)))
  {
    hide Keep, Ranges;
    filtered, tombstones' := [], tombstones;
    KeepNone([], LivePut(q.now));
    KeepNone([], LiveRange(q.now));
    EmptyRanges();
    for i := 0 to |records|
      invariant filtered == Keep(records[..i], LivePut(q.now))
      invariant tombstones' == tombstones + Ranges(Keep(records[..i], LiveRange(q.now)))
    {
      var rec := records[i];
      assert records[..i + 1] == records[..i] + [rec];
      KeepSnoc(records[..i], rec, LivePut(q.now));
      KeepSnoc(records[..i], rec, LiveRange(q.now));
      RangesSnoc(Keep(records[..i], LiveRange(q.now)), rec);
      if rec.expireAt <= q.now { continue; }
      if rec.op.DeleteRange? {
        if rec.rangeEnd.Some? {
          tombstones' := tombstones' + [(rec.key, rec.rangeEnd.value)];
        }
        continue;
      }
      if rec.op.Delete? { continue; }
      filtered := filtered + [rec];
    }
    assert records[..|records|] == records;
  }

  method RangeTombstones(mem: seq<InternalRecord>) returns (tombstones: seq<(bytes, bytes)>)
    ensures tombstones == Ranges(mem)
  {
    tombstones := [];
    for i := 0 to |mem|
      invariant tombstones == Ranges(mem[..i])
    {
      assert mem[..i + 1][..i] == mem[..i];
      if mem[i].op.DeleteRange? && mem[i].rangeEnd.Some? {
        tombstones := tombstones + [(mem[i].key, mem[i].rangeEnd.value)];
      }
    }
    assert mem[..|mem|] == mem;
  }

  /** Blocks in the order of their SST. */
  ghost predicate SortedBlocks(blocks: seq<seq<InternalRecord>>) {
    forall i :: 0 <= i < |blocks| ==> Sorted(blocks[i], Before)
  }

  lemma BlockSourceSorted(records: seq<InternalRecord>, q: Query, full: bool)
    requires Sorted(records, Before)
    ensures Sorted(BlockSource(records, q, full), Before)
  {
    hide Keep, PairLess;
    KeepSorted(records, LivePut(q.now), Before);
    KeepSorted(records, InBlock(q), Before);
  }

  lemma {:induction false} BlockSourcesSorted(blocks: seq<seq<InternalRecord>>, q: Query, full: bool)
    requires SortedBlocks(blocks)
    ensures SortedBlocks(BlockSources(blocks, q, full)) && |BlockSources(blocks, q, full)| <= |blocks|
  {
    hide Before, BlockSource;
    if blocks != [] {
      var n := |blocks| - 1;
      BlockSourcesSorted(blocks[..n], q, full);
      BlockSourceSorted(blocks[n], q, full);
    }
  }

  lemma SourcesSortedOverall(mem: seq<InternalRecord>, blocks: seq<seq<InternalRecord>>, q: Query, full: bool)
    requires SortedBlocks(blocks)
    ensures SortedBlocks(Sources(mem, blocks, q, full)) && |Sources(mem, blocks, q, full)| <= |blocks| + 1
  {
    hide Before, BlockSources;
    BlockSourcesSorted(blocks, q, full);
    BeforeIsTotal();
    SortSorts(mem, Before);
  }

  /** `ScanIterator::build`, from the memtable query and the candidate blocks on. */
  method Build(mem: seq<InternalRecord>, blocks: seq<seq<InternalRecord>>, q: Query,
               full: bool) returns (it: ScanIterator)
    requires SortedBlocks(blocks) && |blocks| < MEMTABLE_SOURCE
    ensures fresh(it) && it.Valid() && it.Emitted() == []
    ensures it.input == Sources(mem, blocks, q, full) && it.tombstones == Tombstones(mem, blocks, q)
  {
    hide Before, BlockSource, Ranges, Keep, Sort, Underway, HeapHolds;
    var tombstones := RangeTombstones(mem);
    var sstSources: seq<seq<InternalRecord>> := [];
    for i := 0 to |blocks|
      invariant sstSources == BlockSources(blocks[..i], q, full)
      invariant tombstones == Ranges(mem) + BlockRanges(blocks[..i], q)
    {
      assert blocks[..i + 1][..i] == blocks[..i];
      var filtered;
      if full {
        filtered, tombstones := FilterFullBlock(blocks[i], q, tombstones);
      } else {
        filtered, tombstones := FilterSstBlock(blocks[i], q, tombstones);
      }
      if filtered != [] {
        sstSources := sstSources + [filtered];
      }
    }
    assert blocks[..|blocks|] == blocks;
    var sources := if mem == [] then sstSources else [Sort(mem, Before)] + sstSources;
    assert sources == Sources(mem, blocks, q, full);
    SourcesSortedOverall(mem, blocks, q, full);
    it := new ScanIterator(sources, tombstones, mem != [], |sources| == 1 && tombstones == []);
  }

  /** A whole scan yields, in order and for each pair among its sources, a newest record of
      that pair, unless that record is a delete or lies under a range tombstone; and so it says
      of memtable results and stored records what `ScanMeans` states. */
  method ScanAll(mem: seq<InternalRecord>, blocks: seq<seq<InternalRecord>>, q: Query, full: bool)
    returns (out: seq<InternalRecord>)
    requires SortedBlocks(blocks) && |blocks| < MEMTABLE_SOURCE
    ensures exists ws :: Winners(Sources(mem, blocks, q, full), ws)
                         && out == Keep(ws, Shown(Tombstones(mem, blocks, q)))
    ensures ScanMeans(mem, blocks, q, full, out)
  {
    hide Winners, Keep, Sources, ScanMeans;
    var it := Build(mem, blocks, q, full);
    out := it.Drain();
    assert Winners(Sources(mem, blocks, q, full), it.winners);
    ScanExactly(mem, blocks, q, full, it.winners);
  }

  /** On one source without tombstones the fast path and the heap yield the same sequence. */
  method BothPaths(source: seq<InternalRecord>, memtable: bool) returns (fast: seq<InternalRecord>,
                   merged: seq<InternalRecord>)
    requires Sorted(source, Before)
    ensures fast == merged == Keep(Firsts(source), Shown([]))
  {
    var f := new ScanIterator([source], [], memtable, true);
    fast := f.Drain();
    var m := new ScanIterator([source], [], memtable, false);
    merged := m.Drain();
  }

  // ---------------------------------------------------------------- what the sources hold

  lemma {:induction false} BlockSourcesHold(blocks: seq<seq<InternalRecord>>, q: Query, full: bool, r: InternalRecord)
    ensures Present(BlockSources(blocks, q, full), r) <==>
            exists i :: 0 <= i < |blocks| && r in BlockSource(blocks[i], q, full)
  {
    hide BlockSource;
    if blocks != [] {
      var n := |blocks| - 1;
      BlockSourcesHold(blocks[..n], q, full, r);
      var front, source := BlockSources(blocks[..n], q, full), BlockSource(blocks[n], q, full);
      var all := BlockSources(blocks, q, full);
      if Present(all, r) {
        var i :| 0 <= i < |all| && r in all[i];
        if i < |front| {
          assert r in front[i];
          var j :| 0 <= j < n && r in BlockSource(blocks[..n][j], q, full);
          assert blocks[..n][j] == blocks[j];
        }
      }
      if i :| 0 <= i < |blocks| && r in BlockSource(blocks[i], q, full) {
        if i < n {
          assert blocks[..n][i] == blocks[i];
          var j :| 0 <= j < |front| && r in front[j];
          assert all[j] == front[j];
        } else {
          assert all[|front|] == source;
        }
      }
    }
  }

  /** A scan sees the memtable results and the filtered records of the blocks, nothing else. */
  lemma SourcesHold(mem: seq<InternalRecord>, blocks: seq<seq<InternalRecord>>, q: Query, full: bool, r: InternalRecord)
    ensures Present(Sources(mem, blocks, q, full), r) <==>
            r in mem || exists i :: 0 <= i < |blocks| && r in BlockSource(blocks[i], q, full)
  {
    hide BlockSource, BlockSources, Before, Sort;
    BlockSourcesHold(blocks, q, full, r);
    BeforeIsTotal();
    SortSorts(mem, Before);
    var all, rest := Sources(mem, blocks, q, full), BlockSources(blocks, q, full);
    var d := |all| - |rest|;
    assert r in Sort(mem, Before) <==> r in multiset(Sort(mem, Before));
    assert r in mem <==> r in multiset(mem);
    assert forall i :: 0 <= i < |rest| ==> all[d + i] == rest[i];
    if i :| 0 <= i < |all| && r in all[i] { assert i >= d ==> r in rest[i - d]; }
    if i :| 0 <= i < |rest| && r in rest[i] { assert r in all[d + i]; }
    if r in mem { assert all[0] == Sort(mem, Before); }
  }

  // ---------------------------------------------------------------- what a scan answers

  /** An unexpired record of some block. */
  ghost predicate Stored(blocks: seq<seq<InternalRecord>>, now: i64, x: InternalRecord) {
    x.expireAt > now && exists i :: 0 <= i < |blocks| && x in blocks[i]
  }

  predicate KeyAskedFor(f: KeyFilter, k: bytes) {
    match f
    case Prefix(p) => p <= k
    case Range(s, e) => !Less(k, s) && !Less(e, k)
    case All => true
  }

  /** A stored record takes part in a bounded scan when its key and its timestamp are asked for,
      without its sequence number; in a full scan when it is a put. */
  predicate TakesPart(q: Query, full: bool, x: InternalRecord, r: InternalRecord) {
    if full then x.op.Put? && r == x
    else
      && !x.op.DeleteRange? && r == x.(seqno := 0)
      && KeyAskedFor(q.filter, x.key)
      && (q.times.Some? ==> q.times.value.0 <= x.ts && x.ts <= q.times.value.1)
  }

  /** A record the scan chooses from. */
  ghost predicate Offered(mem: seq<InternalRecord>, blocks: seq<seq<InternalRecord>>, q: Query, full: bool,
                          r: InternalRecord) {
    r in mem || exists x :: Stored(blocks, q.now, x) && TakesPart(q, full, x, r)
  }

  /** A range delete of the memtable results or of a block covers the key. */
  ghost predicate Covered(mem: seq<InternalRecord>, blocks: seq<seq<InternalRecord>>, q: Query, k: bytes) {
    exists x :: (x in mem || Stored(blocks, q.now, x)) && x.op.DeleteRange? && x.rangeEnd.Some?
                && !Less(k, x.key) && Less(k, x.rangeEnd.value)
  }

  /** In order, one record per pair: each a put that is offered, under no range delete, and older
      than no other offered record of its pair; and where only puts are offered that are not
      older, the pair is answered. */
  ghost predicate ScanMeans(mem: seq<InternalRecord>, blocks: seq<seq<InternalRecord>>, q: Query, full: bool,
                          out: seq<InternalRecord>) {
    && StrictlyAscending(out)
    && (forall r :: r in out ==>
          Offered(mem, blocks, q, full, r) && r.op.Put? && !Covered(mem, blocks, q, r.key))
    && (forall r, c :: r in out && Offered(mem, blocks, q, full, c) && PairOf(c) == PairOf(r) ==> c.seqno <= r.seqno)
    && (forall r ::
          Offered(mem, blocks, q, full, r) && !Covered(mem, blocks, q, r.key) && OnlyPutsAbove(mem, blocks, q, full, r)
          ==> HasPair(out, PairOf(r)))
  }

  ghost predicate OnlyPutsAbove(mem: seq<InternalRecord>, blocks: seq<seq<InternalRecord>>, q: Query, full: bool,
                                r: InternalRecord) {
    forall c :: Offered(mem, blocks, q, full, c) && PairOf(c) == PairOf(r) && c.seqno >= r.seqno ==> c.op.Put?
  }

  lemma InSource(records: seq<InternalRecord>, q: Query, full: bool, r: InternalRecord)
    ensures r in BlockSource(records, q, full) <==>
            exists x :: x in records && x.expireAt > q.now && TakesPart(q, full, x, r)
  {
    hide Less;
    KeepMembers(records, LivePut(q.now));
    KeepMembers(records, InBlock(q));
    if !full {
      var kept := Keep(records, InBlock(q));
      forall x | x in records ensures x in kept <==> x.expireAt > q.now && TakesPart(q, false, x, x.(seqno := 0)) {
        InRange(q.filter, x.key);
      }
      if r in Unnumbered(kept) {
        var i :| 0 <= i < |kept| && Unnumbered(kept)[i] == r;
        assert kept[i] in kept;
      }
      if x :| x in records && x.expireAt > q.now && TakesPart(q, false, x, r) {
        var i :| 0 <= i < |kept| && kept[i] == x;
        assert Unnumbered(kept)[i] == r;
      }
    }
  }

  lemma InRange(f: KeyFilter, k: bytes)
    ensures Matches(f, k) <==> KeyAskedFor(f, k)
  {
    match f {
      case Range(s, e) => NotLess(s, k); NotLess(k, e);
      case _ =>
    }
  }

  lemma NotLess(a: bytes, b: bytes)
    ensures AtMost(a, b) <==> !Less(b, a)
  {
    Trichotomy(a, b);
    LessIrreflexive(a);
  }

  lemma PresentIsOffered(mem: seq<InternalRecord>, blocks: seq<seq<InternalRecord>>, q: Query, full: bool,
                         r: InternalRecord)
    ensures Present(Sources(mem, blocks, q, full), r) <==> Offered(mem, blocks, q, full, r)
  {
    hide BlockSource, Sources, TakesPart, Present;
    SourcesHold(mem, blocks, q, full, r);
    forall i | 0 <= i < |blocks|
      ensures r in BlockSource(blocks[i], q, full) <==>
              exists x :: x in blocks[i] && x.expireAt > q.now && TakesPart(q, full, x, r)
    {
      InSource(blocks[i], q, full, r);
    }
    if i :| 0 <= i < |blocks| && r in BlockSource(blocks[i], q, full) {
      var x :| x in blocks[i] && x.expireAt > q.now && TakesPart(q, full, x, r);
      assert Stored(blocks, q.now, x);
    }
    if x :| Stored(blocks, q.now, x) && TakesPart(q, full, x, r) {
      var i :| 0 <= i < |blocks| && x in blocks[i];
      assert r in BlockSource(blocks[i], q, full);
    }
  }

  /** A range delete among these records covers the key. */
  ghost predicate CoveredBy(s: seq<InternalRecord>, k: bytes) {
    exists x :: x in s && x.op.DeleteRange? && x.rangeEnd.Some? && !Less(k, x.key) && Less(k, x.rangeEnd.value)
  }

  lemma TombstonedAppend(a: seq<(bytes, bytes)>, b: seq<(bytes, bytes)>, k: bytes)
    ensures Tombstoned(a + b, k) <==> Tombstoned(a, k) || Tombstoned(b, k)
  {
    hide Less, AtMost;
    var all := a + b;
    if i :| 0 <= i < |all| && AtMost(all[i].0, k) && Less(k, all[i].1) {
      assert i < |a| ==> all[i] == a[i];
      assert i >= |a| ==> all[i] == b[i - |a|];
    }
    if i :| 0 <= i < |a| && AtMost(a[i].0, k) && Less(k, a[i].1) { assert all[i] == a[i]; }
    if i :| 0 <= i < |b| && AtMost(b[i].0, k) && Less(k, b[i].1) { assert all[|a| + i] == b[i]; }
  }

  lemma {:induction false} RangesCover(s: seq<InternalRecord>, k: bytes)
    ensures Tombstoned(Ranges(s), k) <==> CoveredBy(s, k)
  {
    hide Less, AtMost, Tombstoned;
    if s == [] {
      NoTombstones(k);
    } else {
      var n := |s| - 1;
      var last := if IsRange(s[n]) then [(s[n].key, s[n].rangeEnd.value)] else [];
      RangesCover(s[..n], k);
      assert s == s[..n] + [s[n]];
      TombstonedAppend(Ranges(s[..n]), last, k);
      OneRange(s[n], k);
    }
  }

  lemma NoTombstones(k: bytes)
    ensures !Tombstoned([], k)
  {}

  lemma OneRange(x: InternalRecord, k: bytes)
    ensures Tombstoned(if IsRange(x) then [(x.key, x.rangeEnd.value)] else [], k) <==>
            x.op.DeleteRange? && x.rangeEnd.Some? && !Less(k, x.key) && Less(k, x.rangeEnd.value)
  {
    hide Less;
    NotLess(x.key, k);
    if IsRange(x) {
      var one := [(x.key, x.rangeEnd.value)];
      assert one[0].0 == x.key && one[0].1 == x.rangeEnd.value;
    }
  }

  lemma {:induction false} BlockRangesCover(blocks: seq<seq<InternalRecord>>, q: Query, k: bytes)
    ensures Tombstoned(BlockRanges(blocks, q), k) <==>
            exists i :: 0 <= i < |blocks| && CoveredBy(Keep(blocks[i], LiveRange(q.now)), k)
  {
    hide Less, AtMost, Tombstoned, CoveredBy, Keep, Ranges;
    if blocks == [] {
      NoTombstones(k);
    } else {
      var n := |blocks| - 1;
      BlockRangesCover(blocks[..n], q, k);
      TombstonedAppend(BlockRanges(blocks[..n], q), Ranges(Keep(blocks[n], LiveRange(q.now))), k);
      RangesCover(Keep(blocks[n], LiveRange(q.now)), k);
      assert forall i :: 0 <= i < n ==> blocks[..n][i] == blocks[i];
    }
  }

  lemma TombstonesCover(mem: seq<InternalRecord>, blocks: seq<seq<InternalRecord>>, q: Query, k: bytes)
    ensures Tombstoned(Tombstones(mem, blocks, q), k) <==> Covered(mem, blocks, q, k)
  {
    hide Less, Tombstoned, Ranges, BlockRanges, Keep;
    TombstonedAppend(Ranges(mem), BlockRanges(blocks, q), k);
    RangesCover(mem, k);
    BlockRangesCover(blocks, q, k);
    forall i | 0 <= i < |blocks|
      ensures forall x :: x in Keep(blocks[i], LiveRange(q.now)) <==> x in blocks[i] && x.expireAt > q.now && IsRange(x)
    {
      KeepMembers(blocks[i], LiveRange(q.now));
    }
  }

  lemma ScanExactly(mem: seq<InternalRecord>, blocks: seq<seq<InternalRecord>>, q: Query, full: bool,
                    ws: seq<InternalRecord>)
    requires Winners(Sources(mem, blocks, q, full), ws)
    ensures ScanMeans(mem, blocks, q, full, Keep(ws, Shown(Tombstones(mem, blocks, q))))
  {
    hide Sources, Present, Offered, Covered, Tombstones, Tombstoned, Keep, StrictlyAscending;
    var input, shown := Sources(mem, blocks, q, full), Shown(Tombstones(mem, blocks, q));
    forall r ensures Present(input, r) <==> Offered(mem, blocks, q, full, r) {
      PresentIsOffered(mem, blocks, q, full, r);
    }
    forall k ensures Tombstoned(Tombstones(mem, blocks, q), k) <==> Covered(mem, blocks, q, k) {
      TombstonesCover(mem, blocks, q, k);
    }
    KeepAscending(ws, shown);
    KeepMembers(ws, shown);
    forall r | Offered(mem, blocks, q, full, r) && !Covered(mem, blocks, q, r.key)
      && OnlyPutsAbove(mem, blocks, q, full, r)
      ensures HasPair(Keep(ws, shown), PairOf(r))
    {
      var w :| w in ws && PairOf(w) == PairOf(r);
      assert Highest(input, w) && w.op.Put?;
      assert w in Keep(ws, shown);
    }
  }

  /** A bounded scan: what it answers from the blocks is stored, a put, alive and asked for; and a
      stored put that is alive and asked for is answered when nothing else is known of its pair and
      no range delete covers it. */
  lemma BoundedScan(mem: seq<InternalRecord>, blocks: seq<seq<InternalRecord>>, q: Query, out: seq<InternalRecord>)
    requires ScanMeans(mem, blocks, q, false, out)
    ensures forall r :: r in out && r !in mem ==>
              exists x :: Stored(blocks, q.now, x) && TakesPart(q, false, x, r) && x.op.Put?
    ensures forall x ::
              Stored(blocks, q.now, x) && TakesPart(q, false, x, x.(seqno := 0)) && x.op.Put?
              && !Covered(mem, blocks, q, x.key) && NothingElse(mem, blocks, q, x)
              ==> x.(seqno := 0) in out
  {
    hide Stored, Covered, KeyAskedFor;
    forall r | r in out && r !in mem
      ensures exists x :: Stored(blocks, q.now, x) && TakesPart(q, false, x, r) && x.op.Put?
    {
      assert Offered(mem, blocks, q, false, r);
      var x :| Stored(blocks, q.now, x) && TakesPart(q, false, x, r);
      assert x.op.Put?;
    }
    forall x | Stored(blocks, q.now, x) && TakesPart(q, false, x, x.(seqno := 0)) && x.op.Put?
      && !Covered(mem, blocks, q, x.key) && NothingElse(mem, blocks, q, x)
      ensures x.(seqno := 0) in out
    {
      var r := x.(seqno := 0);
      forall c | Offered(mem, blocks, q, false, c) && PairOf(c) == PairOf(r) ensures c == r {
        OtherOffered(mem, blocks, q, x, c);
      }
      assert Offered(mem, blocks, q, false, r) && OnlyPutsAbove(mem, blocks, q, false, r);
      var w :| w in out && PairOf(w) == PairOf(r);
      assert Offered(mem, blocks, q, false, w);
    }
  }

  /** No other record of this pair takes part. */
  ghost predicate NothingElse(mem: seq<InternalRecord>, blocks: seq<seq<InternalRecord>>, q: Query,
                              x: InternalRecord) {
    && (forall c :: c in mem ==> PairOf(c) != PairOf(x))
    && (forall y :: Stored(blocks, q.now, y) && PairOf(y) == PairOf(x) ==> y.op.DeleteRange? || y == x)
  }

  lemma OtherOffered(mem: seq<InternalRecord>, blocks: seq<seq<InternalRecord>>, q: Query, x: InternalRecord,
                     c: InternalRecord)
    requires NothingElse(mem, blocks, q, x) && Offered(mem, blocks, q, false, c) && PairOf(c) == PairOf(x)
    ensures c == x.(seqno := 0)
  {
    hide Stored;
    if c !in mem {
      var y :| Stored(blocks, q.now, y) && TakesPart(q, false, y, c);
      assert PairOf(y) == PairOf(c);
    }
  }

  /** A full scan: a stored put that is alive and unknown to the memtables is answered, or another
      put of its pair, exactly when no range delete covers it; stored deletes make no difference. */
  lemma FullScanExactly(mem: seq<InternalRecord>, blocks: seq<seq<InternalRecord>>, q: Query, out: seq<InternalRecord>,
                        x: InternalRecord)
    requires ScanMeans(mem, blocks, q, true, out)
    requires Stored(blocks, q.now, x) && x.op.Put? && forall c :: c in mem ==> PairOf(c) != PairOf(x)
    ensures HasPair(out, PairOf(x)) <==> !Covered(mem, blocks, q, x.key)
    ensures forall r :: r in out && PairOf(r) == PairOf(x) ==> Stored(blocks, q.now, r) && r.op.Put?
  {
    hide Stored, Covered;
    assert Offered(mem, blocks, q, true, x);
    forall c | Offered(mem, blocks, q, true, c) && PairOf(c) == PairOf(x)
      ensures c.op.Put? && Stored(blocks, q.now, c)
    {
      var y :| Stored(blocks, q.now, y) && TakesPart(q, true, y, c);
    }
    assert OnlyPutsAbove(mem, blocks, q, true, x);
  }

  /** A put and its later delete, flushed into one block: a full scan answers with the put. */
  method FlushedDeleteIgnored() returns (blocks: seq<seq<InternalRecord>>, out: seq<InternalRecord>)
    ensures blocks == [[InternalRecord(0, Delete, [97], 0, 9, [], None), InternalRecord(0, Put, [97], 0, 9, [], None)]]
    ensures out == [InternalRecord(0, Put, [97], 0, 9, [], None)]
  {
    hide ScanMeans, Winners, Sources;
    var gone, put := InternalRecord(0, Delete, [97], 0, 9, [], None), InternalRecord(0, Put, [97], 0, 9, [], None);
    blocks := [[gone, put]];
    out := ScanAll([], blocks, Query(All, None, 0), true);
    OnlyThePut(blocks, gone, put, out);
  }

  lemma OnlyThePut(blocks: seq<seq<InternalRecord>>, gone: InternalRecord, put: InternalRecord,
                   out: seq<InternalRecord>)
    requires blocks == [[gone, put]] && gone.op.Delete? && put.op.Put? && put.expireAt > 0
    requires ScanMeans([], blocks, Query(All, None, 0), true, out)
    ensures out == [put]
  {
    var q := Query(All, None, 0);
    assert put in blocks[0] && Stored(blocks, 0, put);
    FullScanExactly([], blocks, q, out, put);
    forall r | r in out ensures r == put { assert Offered([], blocks, q, true, r); }
    var r :| r in out && PairOf(r) == PairOf(put);
    AllTheSame(out, put);
  }

  lemma AllTheSame(out: seq<InternalRecord>, r: InternalRecord)
    requires StrictlyAscending(out) && r in out && forall x :: x in out ==> x == r
    ensures out == [r]
  {
    hide PairLess;
    if |out| > 1 {
      assert out[0] in out && out[1] in out && PairLess(PairOf(out[0]), PairOf(out[1]));
      PairTrichotomy(PairOf(out[0]), PairOf(out[1]));
    }
  }
}
