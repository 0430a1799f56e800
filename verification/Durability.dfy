/** Crash safety of the write and flush path (`src/write_worker.rs`, `src/wal.rs`,
    `src/engine.rs`): writes, fsync, and a flush broken into its steps, each of which may fail,
    with a crash possible between any two of them. */
module Durability {
  import opened Bytes
  import opened BigEndian
  import opened Record
  import opened Seqs
  import opened Wal
  import M = Manifest

  type Records = seq<InternalRecord>

  /** Where `do_flush` stands; the records are the unexpired ones of the popped table. */
  datatype Phase =
    | Ready
    | Frozen
    | Popped(recs: Records)
    | Written(id: u32, recs: Records)
    | Logged(id: u32, recs: Records)
    | Checkpointed(id: u32, recs: Records)
    | Indexed(id: u32, recs: Records)

  /** Disk (WAL segments, manifest file, SST files), memory, and histories: the writes that
      have been acknowledged and those written but not yet synced; the records of tables whose
      flush failed, before and after a later flush has been logged; and the SSTs whose flush
      failed after it was logged, which the index does not learn of. */
  datatype Engine = Engine(
    segs: seq<Segment>, nextId: nat, limit: nat,
    log: seq<M.Entry>, manifest: M.State, files: map<u32, Records>,
    active: Records, frozen: seq<Records>, phase: Phase, index: set<u32>,
    now: i64, nextSeq: nat,
    acked: Records, unsynced: Records, dropped: Records, overtaken: Records, unindexed: set<u32>)

  datatype Event =
    | Write(batch: Records)
    | Sync
    | Freeze
    | Pop
    | WriteSst(id: u32)
    | LogFlush(info: M.SstInfo, blocks: seq<M.BlockInfo>)
    | LogCheckpoint
    | AddIndex
    | Truncate
    | Fail                          // an I/O error ends the flush where it stands
    | Snapshot(ids: seq<u32>)
    | Tick(later: i64)

  function MaxSeq(recs: Records): (r: u64)
    requires recs != []
    ensures forall x :: x in recs ==> x.seqno <= r
    ensures exists x :: x in recs && x.seqno == r
  {
    if |recs| == 1 then recs[0].seqno
    else
      assert recs == [recs[0]] + recs[1..];
      var m := MaxSeq(recs[1..]);
      if recs[0].seqno >= m then recs[0].seqno else m
  }

  /** Sequence numbers enter the log in increasing order, above all earlier ones. */
  predicate Increasing(batch: Records, from: nat) {
    (forall i :: 0 <= i < |batch| ==> batch[i].seqno >= from)
    && (forall i, j :: 0 <= i < j < |batch| ==> batch[i].seqno < batch[j].seqno)
  }

  function Unexpired(now: i64): InternalRecord -> bool {
    (r: InternalRecord) => r.expireAt > now
  }

  ghost predicate Enabled(e: Engine, ev: Event) {
    match ev
    case Write(batch) =>
      e.phase.Ready? && batch != [] && Increasing(batch, e.nextSeq)
      && forall i :: 0 <= i < |batch| ==> WithinLimits(batch[i])
    case Sync => e.phase.Ready?
    case Freeze => e.phase.Ready?
    case Pop => e.phase.Frozen?
    case WriteSst(id) =>
      e.phase.Popped? && e.phase.recs != [] && forall x :: x in e.manifest.sstables ==> x < id
    case LogFlush(info, blocks) => e.phase.Written? && e.phase.recs != [] && info.id == e.phase.id
    case LogCheckpoint => e.phase.Logged? && e.phase.recs != []
    case AddIndex => e.phase.Checkpointed?
    case Truncate => e.phase.Indexed? && e.phase.recs != []
    case Fail =>
      e.phase.Popped? || e.phase.Written? || e.phase.Logged?
      || (e.phase.Indexed? && e.phase.recs != [] && Keep(e.segs, Surviving(MaxSeq(e.phase.recs))) == [])
    case Snapshot(ids) =>
      M.Enumerates(ids, e.manifest) && forall i :: 0 <= i < |ids| ==> ids[i] in e.manifest.sstables
    case Tick(later) => later >= e.now
  }

  function AppendEntry(e: Engine, entry: M.Entry): Engine {
    e.(log := e.log + [entry], manifest := M.Apply(e.manifest, entry))
  }

  function Fire(e: Engine, ev: Event): Engine
    requires Enabled(e, ev)
  {
    match ev
    case Write(batch) =>
      var (segs, id) := WriteEncoded(e.segs, e.nextId, e.limit, EncodeLog(batch), batch[|batch| - 1].seqno);
      e.(segs := segs, nextId := id, active := e.active + batch, unsynced := e.unsynced + batch,
         nextSeq := batch[|batch| - 1].seqno + 1)
    case Sync => e.(segs := SyncAll(e.segs), acked := e.acked + e.unsynced, unsynced := [])
    case Freeze =>
      if e.active == [] then e.(phase := Frozen)
      else e.(phase := Frozen, frozen := e.frozen + [e.active], active := [])
    case Pop =>
      if e.frozen == [] then e.(phase := Ready)
      else
        var recs := Keep(e.frozen[0], Unexpired(e.now));
        e.(frozen := e.frozen[1..], phase := if recs == [] then Ready else Popped(recs))
    case WriteSst(id) => e.(files := e.files[id := e.phase.recs], phase := Written(id, e.phase.recs))
    case LogFlush(info, blocks) =>
      AppendEntry(e, M.Flush(MaxSeq(e.phase.recs), info, blocks))
        .(phase := Logged(e.phase.id, e.phase.recs), dropped := [], overtaken := e.overtaken + e.dropped)
    case LogCheckpoint =>
      AppendEntry(e, M.Checkpoint(MaxSeq(e.phase.recs))).(phase := Checkpointed(e.phase.id, e.phase.recs))
    case AddIndex => e.(index := e.index + {e.phase.id}, phase := Indexed(e.phase.id, e.phase.recs))
    case Truncate =>
      var (segs, id) := TruncateBefore(e.segs, e.nextId, MaxSeq(e.phase.recs));
      e.(segs := segs, nextId := id, phase := Ready)
    case Fail =>
      // Before the flush is logged the popped table is gone from memory; after a failed
      // checkpoint the index never learns of the SST; a truncation fails only where it has to
      // create a new segment, with no segment left.
      (match e.phase
       case Popped(recs) => e.(phase := Ready, dropped := e.dropped + recs)
       case Written(_, recs) => e.(phase := Ready, dropped := e.dropped + recs)
       case Logged(id, _) => e.(phase := Ready, unindexed := e.unindexed + {id})
       case _ => e.(phase := Ready, segs := [], nextId := e.nextId + 1))
    case Snapshot(ids) => e.(log := M.SnapshotLog(e.manifest, ids))
    case Tick(later) => e.(now := later)
  }

  // ---------------------------------------------------------------- crash and recovery

  /** What a crash may leave of one segment: at least the synced bytes, at most all of them. */
  predicate Remains(s: Segment, data: bytes) {
    s.synced <= |s.data| && s.data[..s.synced] <= data && data <= s.data
  }

  datatype Disk = Disk(wal: seq<bytes>, log: seq<M.Entry>, files: map<u32, Records>)

  predicate CrashImage(e: Engine, d: Disk) {
    |d.wal| == |e.segs| && (forall i :: 0 <= i < |e.segs| ==> Remains(e.segs[i], d.wal[i]))
    && d.log == e.log && d.files == e.files
  }

  /** What reopening finds: records of SSTs named by the replayed manifest, and WAL records
      above its last flushed sequence number. */
  predicate Recovered(d: Disk, r: InternalRecord) {
    var m := M.Replay(M.EMPTY, d.log);
    (exists id :: id in m.sstables && id in d.files && r in d.files[id])
    || (r.seqno > m.lastFlushed && exists i :: 0 <= i < |d.wal| && r in DecodeLog(d.wal[i]))
  }

  // ---------------------------------------------------------------- the invariant

  ghost predicate Clean(s: Segment) {
    && s.data == EncodeLog(DecodeLog(s.data))
    && (forall i :: 0 <= i < |DecodeLog(s.data)| ==> WithinLimits(DecodeLog(s.data)[i]))
    && Covers(s) && s.synced <= |s.data|
  }

  predicate Durable(segs: seq<Segment>, r: InternalRecord) {
    exists i :: 0 <= i < |segs| && segs[i].synced <= |segs[i].data|
             && r in DecodeLog(segs[i].data[..segs[i].synced])
  }

  predicate InManifest(e: Engine, r: InternalRecord) {
    exists id :: id in e.manifest.sstables && id in e.files && r in e.files[id]
  }

  /** The tables not yet covered by the manifest, oldest first. */
  function Tables(e: Engine): seq<Records> {
    (if e.phase.Popped? || e.phase.Written? then [e.phase.recs] else []) + e.frozen + [e.active]
  }

  predicate InTables(ts: seq<Records>, r: InternalRecord) {
    exists i :: 0 <= i < |ts| && r in ts[i]
  }

  ghost predicate Ordered(ts: seq<Records>) {
    forall i, j, a, b :: 0 <= i < j < |ts| && a in ts[i] && b in ts[j] ==> a.seqno < b.seqno
  }

  ghost predicate ManifestOk(e: Engine) {
    && M.Inv(e.manifest) && M.Equiv(M.Replay(M.EMPTY, e.log), e.manifest)
    && (forall id :: id in e.manifest.sstables ==> id in e.files)
  }

  ghost predicate PhaseOk(e: Engine) {
    match e.phase
    case Ready => true
    case Frozen => true
    case Popped(recs) => recs != []
    case Written(id, recs) => recs != [] && id in e.files && e.files[id] == recs && id !in e.manifest.sstables
    case Logged(id, recs) => recs != [] && MaxSeq(recs) <= e.manifest.lastFlushed
    case Checkpointed(id, recs) => recs != [] && MaxSeq(recs) <= e.manifest.lastFlushed
    case Indexed(id, recs) => recs != [] && MaxSeq(recs) <= e.manifest.lastFlushed
  }

  /** Memory and dropped tables lie above the last flushed sequence number, in order; overtaken
      ones lie below. */
  ghost predicate SequencesOk(e: Engine) {
    && Ordered(Tables(e)) && e.manifest.lastFlushed < e.nextSeq
    && (forall r :: InTables(Tables(e), r) ==> e.manifest.lastFlushed < r.seqno < e.nextSeq)
    && (forall r :: r in e.dropped ==> e.manifest.lastFlushed < r.seqno < e.nextSeq)
    && (forall a, r :: a in e.dropped && InTables(Tables(e), r) ==> a.seqno < r.seqno)
    && (forall r :: r in e.overtaken ==> r.seqno <= e.manifest.lastFlushed)
  }

  /** SSTs hold flushed records and nothing that was overtaken. */
  ghost predicate FilesOk(e: Engine) {
    && (forall r :: InManifest(e, r) ==> r.seqno <= e.manifest.lastFlushed)
    && (forall r :: r in e.overtaken ==> !InManifest(e, r))
  }

  predicate Submitted(e: Engine, r: InternalRecord) {
    r in e.acked || r in e.unsynced
  }

  /** Above the last flushed sequence number every write is in the log, and every acknowledged
      one durably. */
  ghost predicate WalOk(e: Engine) {
    && (forall i :: 0 <= i < |e.segs| ==> Clean(e.segs[i]))
    && (forall r :: Submitted(e, r) && r.seqno > e.manifest.lastFlushed ==> InSegments(e.segs, r))
    && (forall r :: r in e.acked && r.seqno > e.manifest.lastFlushed ==> Durable(e.segs, r))
  }

  /** Every unexpired write is in an SST, in memory, or in a table whose flush failed. */
  ghost predicate Accounted(e: Engine) {
    forall r :: Submitted(e, r) && r.expireAt > e.now ==>
      InManifest(e, r) || InTables(Tables(e), r) || r in e.dropped || r in e.overtaken
  }

  ghost predicate Inv(e: Engine) {
    ManifestOk(e) && PhaseOk(e) && SequencesOk(e) && FilesOk(e) && WalOk(e) && Accounted(e)
  }

  // ---------------------------------------------------------------- segments under the steps

  lemma {:induction false} FittingMonotone(recs: Records, a: int, b: int)
    requires a <= b
    ensures Fitting(recs, a) <= Fitting(recs, b)
  {
    hide EncodedSize;
    if recs != [] && EncodedSize(recs[0]) <= a {
      FittingMonotone(recs[1..], a - EncodedSize(recs[0]), b - EncodedSize(recs[0]));
    }
  }

  /** Whatever survives a crash of a clean segment holds every synced record. */
  lemma RemainsHolds(s: Segment, data: bytes, r: InternalRecord)
    requires Clean(s) && Remains(s, data) && r in DecodeLog(s.data[..s.synced])
    ensures r in DecodeLog(data)
  {
    hide DecodeLog, EncodeLog, Fitting;
    var recs := DecodeLog(s.data);
    TornTailRecovery(recs, s.data[..s.synced]);
    TornTailRecovery(recs, data);
    FittingMonotone(recs, s.synced, |data|);
    assert recs[..Fitting(recs, s.synced)] <= recs[..Fitting(recs, |data|)];
    PrefixMember(recs[..Fitting(recs, s.synced)], recs[..Fitting(recs, |data|)], r);
  }

  lemma PrefixMember<T>(a: seq<T>, b: seq<T>, x: T)
    requires a <= b && x in a
    ensures x in b
  {
    var i :| 0 <= i < |a| && a[i] == x;
    assert b[i] == x;
  }

  /** A segment after a batch has been appended: clean, covering, and holding both. */
  lemma AppendedSegment(s: Segment, batch: Records, s': Segment)
    requires Clean(s) && forall i :: 0 <= i < |batch| ==> WithinLimits(batch[i])
    requires s'.data == s.data + EncodeLog(batch) && s'.synced == s.synced
    requires s'.maxSeq >= s.maxSeq && forall r :: r in batch ==> r.seqno <= s'.maxSeq
    ensures Clean(s') && DecodeLog(s'.data) == DecodeLog(s.data) + batch
    ensures s'.data[..s'.synced] == s.data[..s.synced]
  {
    hide DecodeLog, EncodeLog, WithinLimits;
    var recs := DecodeLog(s.data);
    EncodeLogAppend(recs, batch);
    LogRoundTrip(recs + batch);
    assert forall r :: r in recs + batch <==> r in recs || r in batch;
  }

  lemma FreshClean(id: nat)
    ensures Clean(FreshSegment(id)) && DecodeLog(FreshSegment(id).data) == []
  {}

  /** What a write does to the log as a whole. */
  lemma WriteSegments(segs: seq<Segment>, nextId: nat, limit: nat, batch: Records, top: u64)
    requires forall i :: 0 <= i < |segs| ==> Clean(segs[i])
    requires forall i :: 0 <= i < |batch| ==> WithinLimits(batch[i])
    requires forall r :: r in batch ==> r.seqno <= top
    ensures var segs' := WriteEncoded(segs, nextId, limit, EncodeLog(batch), top).0;
            (forall i :: 0 <= i < |segs'| ==> Clean(segs'[i]))
            && (forall r :: InSegments(segs, r) || r in batch ==> InSegments(segs', r))
            && (forall r :: Durable(segs, r) ==> Durable(segs', r))
  {
    hide Clean, DecodeLog, EncodeLog, WithinLimits;
    var ss := if segs == [] then [FreshSegment(nextId)] else segs;
    var n := |ss| - 1;
    FreshClean(nextId);
    FreshClean(nextId + 1);
    var segs' := WriteEncoded(segs, nextId, limit, EncodeLog(batch), top).0;
    AppendedSegment(ss[n], batch, segs'[n]);
    forall r | InSegments(segs, r) || r in batch ensures InSegments(segs', r) {
      if r in batch {
        assert r in DecodeLog(segs'[n].data);
      } else {
        var i :| 0 <= i < |segs| && r in DecodeLog(segs[i].data);
        assert r in DecodeLog(segs'[i].data);
      }
    }
    forall r | Durable(segs, r) ensures Durable(segs', r) {
      var i :| 0 <= i < |segs| && segs[i].synced <= |segs[i].data| && r in DecodeLog(segs[i].data[..segs[i].synced]);
      assert segs'[i].synced <= |segs'[i].data| && r in DecodeLog(segs'[i].data[..segs'[i].synced]);
    }
  }

  lemma SyncSegments(segs: seq<Segment>)
    requires forall i :: 0 <= i < |segs| ==> Clean(segs[i])
    ensures forall i :: 0 <= i < |SyncAll(segs)| ==> Clean(SyncAll(segs)[i])
    ensures forall r :: InSegments(segs, r) ==> InSegments(SyncAll(segs), r) && Durable(SyncAll(segs), r)
  {
    hide DecodeLog, EncodeLog, WithinLimits;
    var segs' := SyncAll(segs);
    forall r | InSegments(segs, r) ensures InSegments(segs', r) && Durable(segs', r) {
      var i :| 0 <= i < |segs| && r in DecodeLog(segs[i].data);
      assert r in DecodeLog(segs'[i].data) && segs'[i].data[..segs'[i].synced] == segs'[i].data;
    }
  }

  lemma TruncateSegments(segs: seq<Segment>, nextId: nat, n: u64)
    requires forall i :: 0 <= i < |segs| ==> Clean(segs[i])
    ensures var segs' := TruncateBefore(segs, nextId, n).0;
            (forall i :: 0 <= i < |segs'| ==> Clean(segs'[i]))
            && (forall r :: InSegments(segs, r) && r.seqno > n ==> InSegments(segs', r))
            && (forall r :: Durable(segs, r) && r.seqno > n ==> Durable(segs', r))
  {
    hide DecodeLog, EncodeLog, WithinLimits, Keep;
    var segs' := TruncateBefore(segs, nextId, n).0;
    KeepMembers(segs, Surviving(n));
    FreshClean(nextId);
    forall i | 0 <= i < |segs'| ensures Clean(segs'[i]) {
      if segs' != [FreshSegment(nextId)] { assert segs'[i] in segs; }
    }
    forall r | InSegments(segs, r) && r.seqno > n ensures InSegments(segs', r) {
      var i :| 0 <= i < |segs| && r in DecodeLog(segs[i].data);
      TruncateKeepsNewer(segs, nextId, n, i, r);
      var j :| 0 <= j < |segs'| && segs'[j] == segs[i];
      assert r in DecodeLog(segs'[j].data);
    }
    forall r | Durable(segs, r) && r.seqno > n ensures Durable(segs', r) {
      var i :| 0 <= i < |segs| && segs[i].synced <= |segs[i].data| && r in DecodeLog(segs[i].data[..segs[i].synced]);
      assert Remains(segs[i], segs[i].data);
      RemainsHolds(segs[i], segs[i].data, r);
      TruncateKeepsNewer(segs, nextId, n, i, r);
      var j :| 0 <= j < |segs'| && segs'[j] == segs[i];
      assert r in DecodeLog(segs'[j].data[..segs'[j].synced]);
    }
  }

  // ---------------------------------------------------------------- every step keeps it

  ghost predicate Above(ts: seq<Records>, batch: Records) {
    forall a, b :: InTables(ts, a) && b in batch ==> a.seqno < b.seqno
  }

  /** Extending the last table. */
  lemma TablesGrow(pre: seq<Records>, last: Records, batch: Records)
    ensures forall r :: InTables(pre + [last + batch], r) <==> InTables(pre + [last], r) || r in batch
    ensures (Ordered(pre + [last]) && Above(pre + [last], batch)) ==> Ordered(pre + [last + batch])
  {
    var old': seq<Records>, new': seq<Records> := pre + [last], pre + [last + batch];
    forall r ensures InTables(new', r) <==> InTables(old', r) || r in batch {
      if InTables(new', r) {
        var i :| 0 <= i < |new'| && r in new'[i];
        assert i < |pre| ==> r in old'[i];
        assert i == |pre| && r !in batch ==> r in old'[i];
      }
      if InTables(old', r) {
        var i :| 0 <= i < |old'| && r in old'[i];
        assert r in new'[i];
      }
      if r in batch { assert r in new'[|pre|]; }
    }
    if Ordered(old') && Above(old', batch) {
      forall i, j, a: InternalRecord, b: InternalRecord | 0 <= i < j < |new'| && a in new'[i] && b in new'[j]
        ensures a.seqno < b.seqno
      {
        assert a in old'[i] && InTables(old', a);
        assert b in old'[j] || b in batch;
      }
    }
  }

  lemma SameTables(ts: seq<Records>, ts': seq<Records>)
    requires ts' == ts + [[]]
    ensures forall r :: InTables(ts', r) <==> InTables(ts, r)
    ensures Ordered(ts) ==> Ordered(ts')
  {
    forall r | InTables(ts, r) ensures InTables(ts', r) {
      var i :| 0 <= i < |ts| && r in ts[i];
      assert r in ts'[i];
    }
  }

  lemma TablesCons(first: Records, rest: seq<Records>, r: InternalRecord)
    ensures InTables([first] + rest, r) <==> r in first || InTables(rest, r)
  {
    var ts := [first] + rest;
    if InTables(ts, r) {
      var i :| 0 <= i < |ts| && r in ts[i];
      if i > 0 { assert r in rest[i - 1]; }
    }
    if r in first { assert r in ts[0]; }
    if InTables(rest, r) {
      var i :| 0 <= i < |rest| && r in rest[i];
      assert r in ts[i + 1];
    }
  }

  /** Replacing the oldest table by part of it, or dropping it. */
  lemma TablesShrink(first: Records, kept: Records, rest: seq<Records>)
    requires Ordered([first] + rest) && forall r :: r in kept ==> r in first
    ensures forall r :: InTables([kept] + rest, r) ==> InTables([first] + rest, r)
    ensures forall r :: InTables([kept] + rest, r) <==> r in kept || InTables(rest, r)
    ensures Ordered([kept] + rest) && Ordered(rest)
    ensures forall a, b :: a in first && InTables(rest, b) ==> a.seqno < b.seqno
  {
    var ts: seq<Records>, ts': seq<Records> := [first] + rest, [kept] + rest;
    forall r ensures InTables(ts', r) <==> r in kept || InTables(rest, r) { TablesCons(kept, rest, r); }
    forall r | InTables(ts', r) ensures InTables(ts, r) { TablesCons(first, rest, r); }
    forall i, j, a: InternalRecord, b: InternalRecord | 0 <= i < j < |ts'| && a in ts'[i] && b in ts'[j]
      ensures a.seqno < b.seqno
    {
      assert a in ts[i] && b in ts[j];
    }
    forall i, j, a: InternalRecord, b: InternalRecord | 0 <= i < j < |rest| && a in rest[i] && b in rest[j]
      ensures a.seqno < b.seqno
    {
      assert a in ts[i + 1] && b in ts[j + 1];
    }
    forall a, b | a in first && InTables(rest, b) ensures a.seqno < b.seqno {
      var i :| 0 <= i < |rest| && b in rest[i];
      assert a in ts[0] && b in ts[i + 1];
    }
  }

  lemma KeepsWrite(e: Engine, batch: Records)
    requires Inv(e) && Enabled(e, Write(batch))
    ensures Inv(Fire(e, Write(batch)))
  {
    hide InManifest, Clean, DecodeLog, EncodeLog, WithinLimits, WriteEncoded, M.Inv, M.Equiv, M.Replay, InSegments,
         Durable, InTables, Ordered;
    var e', top := Fire(e, Write(batch)), batch[|batch| - 1].seqno;
    forall r | r in batch ensures e.nextSeq <= r.seqno <= top {
      var i :| 0 <= i < |batch| && batch[i] == r;
      assert i < |batch| - 1 ==> batch[i].seqno < batch[|batch| - 1].seqno;
    }
    WriteSegments(e.segs, e.nextId, e.limit, batch, top);
    assert Tables(e) == e.frozen + [e.active] && Tables(e') == e.frozen + [e.active + batch];
    TablesGrow(e.frozen, e.active, batch);
    SameFiles(e, e');
  }

  /** What is in the manifest's SSTs depends on manifest and files alone. */
  lemma SameFiles(e: Engine, e': Engine)
    requires e'.manifest.sstables == e.manifest.sstables
    requires forall id :: id in e.manifest.sstables && id in e.files ==> id in e'.files && e'.files[id] == e.files[id]
    requires forall id :: id in e.manifest.sstables && id in e'.files ==> id in e.files
    ensures forall r :: InManifest(e', r) <==> InManifest(e, r)
  {}

  lemma KeepsSync(e: Engine)
    requires Inv(e) && Enabled(e, Sync)
    ensures Inv(Fire(e, Sync))
  {
    hide InManifest, Clean, DecodeLog, EncodeLog, WithinLimits, SyncAll, M.Inv, M.Equiv, M.Replay, InSegments, Durable,
         InTables, Ordered;
    var e' := Fire(e, Sync);
    SyncSegments(e.segs);
    assert Tables(e') == Tables(e);
    SameFiles(e, e');
  }

  lemma KeepsFreeze(e: Engine)
    requires Inv(e) && Enabled(e, Freeze)
    ensures Inv(Fire(e, Freeze))
  {
    hide InManifest, Clean, M.Inv, M.Equiv, M.Replay, InSegments, Durable, InTables, Ordered;
    var e' := Fire(e, Freeze);
    if e.active != [] {
      assert Tables(e') == Tables(e) + [[]];
      SameTables(Tables(e), Tables(e'));
    } else {
      assert Tables(e') == Tables(e);
    }
    SameFiles(e, e');
  }

  /** Taking the oldest table out of memory, or part of it, or setting it aside as dropped. */
  lemma ShrunkSequences(e: Engine, e': Engine, first: Records, kept: Records, rest: seq<Records>)
    requires SequencesOk(e) && Tables(e) == [first] + rest && forall r :: r in kept ==> r in first
    requires e'.manifest == e.manifest && e'.nextSeq == e.nextSeq && e'.overtaken == e.overtaken
    requires (e'.dropped == e.dropped && Tables(e') == if kept == [] then rest else [kept] + rest)
             || (e'.dropped == e.dropped + first && Tables(e') == rest)
    ensures SequencesOk(e')
    ensures forall r :: InTables(Tables(e), r) <==> r in first || InTables(rest, r)
    ensures forall r :: InTables([kept] + rest, r) <==> r in kept || InTables(rest, r)
  {
    hide Ordered, InTables, Tables;
    TablesShrink(first, kept, rest);
    TablesShrink(first, first, rest);
  }

  lemma KeepsPop(e: Engine)
    requires Inv(e) && Enabled(e, Pop)
    ensures Inv(Fire(e, Pop))
  {
    hide InManifest, Clean, M.Inv, M.Equiv, M.Replay, InSegments, Durable, InTables, Keep, SequencesOk;
    var e' := Fire(e, Pop);
    SameFiles(e, e');
    if e.frozen == [] {
      assert Tables(e') == Tables(e);
      SameSequences(e, e');
    } else {
      var t, rest := e.frozen[0], e.frozen[1..] + [e.active];
      var recs := Keep(t, Unexpired(e.now));
      KeepMembers(t, Unexpired(e.now));
      assert Tables(e) == [t] + rest;
      assert Tables(e') == if recs == [] then rest else [recs] + rest;
      ShrunkSequences(e, e', t, recs, rest);
    }
  }

  lemma SameSequences(e: Engine, e': Engine)
    requires SequencesOk(e) && Tables(e') == Tables(e) && e'.manifest.lastFlushed == e.manifest.lastFlushed
    requires e'.nextSeq == e.nextSeq && e'.dropped == e.dropped && e'.overtaken == e.overtaken
    ensures SequencesOk(e')
  {
    hide Tables, Ordered, InTables;
  }

  lemma KeepsWriteSst(e: Engine, id: u32)
    requires Inv(e) && Enabled(e, WriteSst(id))
    ensures Inv(Fire(e, WriteSst(id)))
  {
    hide InManifest, Clean, M.Inv, M.Equiv, M.Replay, InSegments, Durable, InTables, Ordered;
    var e' := Fire(e, WriteSst(id));
    assert Tables(e') == Tables(e);
    SameFiles(e, e');
  }

  /** The manifest entry takes over the oldest table: its records are now in a named SST, what
      was dropped before is overtaken, and everything still in memory lies above the new last
      flushed sequence number. */
  lemma KeepsLogFlush(e: Engine, info: M.SstInfo, blocks: seq<M.BlockInfo>)
    requires Inv(e) && Enabled(e, LogFlush(info, blocks))
    ensures Inv(Fire(e, LogFlush(info, blocks)))
  {
    hide InManifest, Clean, InSegments, Durable, InTables, Ordered, M.Inv, M.Equiv, M.Replay, MaxSeq;
    var e', recs := Fire(e, LogFlush(info, blocks)), e.phase.recs;
    KeepsAppend(e, M.Flush(MaxSeq(recs), info, blocks));
    var rest := e.frozen + [e.active];
    assert Tables(e) == [recs] + rest && Tables(e') == rest;
    TablesShrink(recs, recs, rest);
    LoggedFiles(e, e', recs);
    FlushedTop(e, recs, rest);
    assert Accounted(e');
  }

  lemma LoggedFiles(e: Engine, e': Engine, recs: Records)
    requires e.phase.Written? && e.phase.recs == recs && PhaseOk(e)
    requires e'.files == e.files && e'.manifest.sstables.Keys == e.manifest.sstables.Keys + {e.phase.id}
    ensures forall r :: InManifest(e', r) <==> InManifest(e, r) || r in recs
  {
    forall r ensures InManifest(e', r) <==> InManifest(e, r) || r in recs {
      if r in recs { assert e.phase.id in e'.manifest.sstables && r in e'.files[e.phase.id]; }
      if id :| id in e.manifest.sstables && id in e.files && r in e.files[id] { assert id in e'.manifest.sstables; }
    }
  }

  /** The flushed table lies between what was dropped or flushed before and what remains. */
  lemma FlushedTop(e: Engine, recs: Records, rest: seq<Records>)
    requires SequencesOk(e) && recs != [] && Tables(e) == [recs] + rest
    ensures forall r :: r in recs ==> e.manifest.lastFlushed < r.seqno <= MaxSeq(recs)
    ensures forall r :: r in e.dropped ==> r.seqno < MaxSeq(recs) && r !in recs
    ensures forall r :: InTables(rest, r) ==> MaxSeq(recs) < r.seqno
    ensures e.manifest.lastFlushed < MaxSeq(recs) < e.nextSeq
  {
    hide Ordered, InTables;
    forall r ensures InTables(Tables(e), r) <==> r in recs || InTables(rest, r) { TablesCons(recs, rest, r); }
    TablesShrink(recs, recs, rest);
    var top := MaxSeq(recs);
    var x :| x in recs && x.seqno == top;
  }

  lemma KeepsAppend(e: Engine, entry: M.Entry)
    requires M.Inv(e.manifest) && M.Equiv(M.Replay(M.EMPTY, e.log), e.manifest) && M.WellFormed(entry)
    ensures var e' := AppendEntry(e, entry);
            M.Inv(e'.manifest) && M.Equiv(M.Replay(M.EMPTY, e'.log), e'.manifest)
  {
    M.ApplyKeepsInv(e.manifest, entry);
    M.ReplayAppend(M.EMPTY, e.log, [entry]);
    M.ReplayOne(M.Replay(M.EMPTY, e.log), entry);
    M.ApplyEquiv(M.Replay(M.EMPTY, e.log), e.manifest, entry);
  }

  lemma KeepsLogCheckpoint(e: Engine)
    requires Inv(e) && Enabled(e, LogCheckpoint)
    ensures Inv(Fire(e, LogCheckpoint))
  {
    hide InManifest, Clean, InSegments, Durable, InTables, Ordered, M.Inv, M.Equiv, M.Replay, MaxSeq;
    var e' := Fire(e, LogCheckpoint);
    KeepsAppend(e, M.Checkpoint(MaxSeq(e.phase.recs)));
    assert Tables(e') == Tables(e);
    SameFiles(e, e');
  }

  lemma KeepsTruncate(e: Engine)
    requires Inv(e) && Enabled(e, Truncate)
    ensures Inv(Fire(e, Truncate))
  {
    hide InManifest, Clean, InSegments, Durable, InTables, Ordered, M.Inv, M.Equiv, M.Replay, TruncateBefore, MaxSeq;
    var e' := Fire(e, Truncate);
    TruncateSegments(e.segs, e.nextId, MaxSeq(e.phase.recs));
    assert Tables(e') == Tables(e);
    SameFiles(e, e');
  }

  /** A flush that fails before it is logged loses its table from memory, not from the log. */
  lemma KeepsFail(e: Engine)
    requires Inv(e) && Enabled(e, Fail)
    ensures Inv(Fire(e, Fail))
  {
    hide InManifest, Clean, InSegments, Durable, InTables, M.Inv, M.Equiv, M.Replay, MaxSeq, SequencesOk, Keep;
    var e' := Fire(e, Fail);
    SameFiles(e, e');
    if e.phase.Popped? || e.phase.Written? {
      var recs, rest := e.phase.recs, e.frozen + [e.active];
      assert Tables(e) == [recs] + rest && Tables(e') == rest;
      ShrunkSequences(e, e', recs, recs, rest);
    } else {
      assert Tables(e') == Tables(e);
      SameSequences(e, e');
      if e.phase.Indexed? { NothingNewer(e.segs, e.nextId, MaxSeq(e.phase.recs)); }
    }
  }

  /** When truncation leaves no segment, nothing newer was in the log. */
  lemma NothingNewer(segs: seq<Segment>, nextId: nat, n: u64)
    requires (forall i :: 0 <= i < |segs| ==> Clean(segs[i])) && Keep(segs, Surviving(n)) == []
    ensures forall r :: InSegments(segs, r) ==> r.seqno <= n
    ensures forall r :: !InSegments([], r) && !Durable([], r)
  {
    hide Clean, DecodeLog, Keep;
    TruncateSegments(segs, nextId, n);
    FreshClean(nextId);
    assert forall r :: !InSegments([FreshSegment(nextId)], r);
  }

  lemma KeepsOther(e: Engine, ev: Event)
    requires Inv(e) && Enabled(e, ev) && (ev.AddIndex? || ev.Snapshot? || ev.Tick?)
    ensures Inv(Fire(e, ev))
  {
    hide InManifest, Clean, InSegments, Durable, InTables, Ordered, M.Inv, M.Equiv, M.Replay, M.SnapshotLog, MaxSeq;
    var e' := Fire(e, ev);
    assert Tables(e') == Tables(e);
    SameFiles(e, e');
    if ev.Snapshot? { M.SnapshotReplays(e.manifest, ev.ids); }
  }

  lemma StepKeeps(e: Engine, ev: Event)
    requires Inv(e) && Enabled(e, ev)
    ensures Inv(Fire(e, ev))
  {
    hide Inv, Enabled, Fire;
    match ev {
      case Write(batch) => KeepsWrite(e, batch);
      case Sync => KeepsSync(e);
      case Freeze => KeepsFreeze(e);
      case Pop => KeepsPop(e);
      case WriteSst(id) => KeepsWriteSst(e, id);
      case LogFlush(info, blocks) => KeepsLogFlush(e, info, blocks);
      case LogCheckpoint => KeepsLogCheckpoint(e);
      case Truncate => KeepsTruncate(e);
      case Fail => KeepsFail(e);
      case _ => KeepsOther(e, ev);
    }
  }

  // ---------------------------------------------------------------- runs

  /** A segment as reopening finds it: whole, its bookkeeping rebuilt by scanning. */
  ghost predicate Reopened(s: Segment) {
    && s.data == EncodeLog(DecodeLog(s.data))
    && (forall j :: 0 <= j < |DecodeLog(s.data)| ==> WithinLimits(DecodeLog(s.data)[j]))
    && s.maxSeq == MaxSeqFrom(s.data, 0, 0) && s.synced == |s.data|
  }

  /** An engine just opened over a clean log: bookkeeping rebuilt by scanning the segments,
      memtable rebuilt by replay, and a counter above every earlier sequence number.  The
      acknowledged writes at this point are those recovery has restored. */
  ghost predicate Opened(e: Engine) {
    && (forall i :: 0 <= i < |e.segs| ==> Reopened(e.segs[i]))
    && (forall i :: 0 <= i < |e.log| ==> M.WellFormed(e.log[i]))
    && e.manifest == M.Replay(M.EMPTY, e.log)
    && (forall id :: id in e.manifest.sstables ==> id in e.files)
    && (forall r :: InManifest(e, r) ==> r.seqno <= e.manifest.lastFlushed)
    && e.active == ReplayFrom(e.segs, e.manifest.lastFlushed)
    && e.frozen == [] && e.phase == Ready && e.unsynced == [] && e.dropped == [] && e.overtaken == []
    && e.index == e.manifest.sstables.Keys && e.unindexed == {}
    && e.manifest.lastFlushed < e.nextSeq
    && (forall r :: InSegments(e.segs, r) ==> r.seqno < e.nextSeq)
    && (forall r :: r in e.acked ==> r in e.active || InManifest(e, r))
  }

  lemma OpenedInv(e: Engine)
    requires Opened(e)
    ensures Inv(e)
  {
    hide Reopened, Clean, InSegments, Durable, InManifest, ReplayFrom, M.Inv, M.Equiv, M.Replay, M.WellFormed;
    assert ManifestOk(e) by { OpenedManifest(e); }
    forall i | 0 <= i < |e.segs| ensures Clean(e.segs[i]) { OpenedSegment(e.segs[i]); }
    OpenedLog(e.segs, e.manifest.lastFlushed);
    OneTable(e);
  }

  lemma OpenedManifest(e: Engine)
    requires (forall i :: 0 <= i < |e.log| ==> M.WellFormed(e.log[i])) && e.manifest == M.Replay(M.EMPTY, e.log)
    ensures M.Inv(e.manifest) && M.Equiv(M.Replay(M.EMPTY, e.log), e.manifest)
  {
    hide M.Replay, M.WellFormed;
    M.ReplayKeepsInv(M.EMPTY, e.log);
  }

  /** Replay finds exactly the newer records, all of them durable. */
  lemma OpenedLog(segs: seq<Segment>, after: u64)
    requires forall i :: 0 <= i < |segs| ==> Reopened(segs[i])
    ensures forall r :: r in ReplayFrom(segs, after) <==> InSegments(segs, r) && r.seqno > after
    ensures forall r :: InSegments(segs, r) ==> Durable(segs, r)
  {
    hide DecodeLog, EncodeLog, WithinLimits, MaxSeqFrom, ReplayFrom;
    ReplayExact(segs, after);
    forall r | InSegments(segs, r) ensures Durable(segs, r) {
      var i :| 0 <= i < |segs| && r in DecodeLog(segs[i].data);
      assert segs[i].data[..segs[i].synced] == segs[i].data;
    }
  }

  lemma OneTable(e: Engine)
    requires e.phase.Ready? && e.frozen == []
    ensures Ordered(Tables(e)) && forall r :: InTables(Tables(e), r) <==> r in e.active
  {
    var ts := Tables(e);
    assert ts == [e.active];
    forall r ensures InTables(ts, r) <==> r in e.active { assert r in e.active ==> r in ts[0]; }
  }

  lemma OpenedSegment(s: Segment)
    requires Reopened(s)
    ensures Clean(s)
  {
    ReopenedCovers(s.id, s.data);
  }

  ghost predicate IsRun(e: Engine, run: seq<Event>)
    decreases |run|
  {
    run == [] || (Enabled(e, run[0]) && IsRun(Fire(e, run[0]), run[1..]))
  }

  ghost function After(e: Engine, run: seq<Event>): Engine
    requires IsRun(e, run)
    decreases |run|
  {
    if run == [] then e else After(Fire(e, run[0]), run[1..])
  }

  lemma {:induction false} RunKeeps(e: Engine, run: seq<Event>)
    requires Inv(e) && IsRun(e, run)
    ensures Inv(After(e, run))
    decreases |run|
  {
    hide Inv, Enabled, Fire;
    if run != [] {
      StepKeeps(e, run[0]);
      RunKeeps(Fire(e, run[0]), run[1..]);
    }
  }

  // ---------------------------------------------------------------- what a crash leaves

  /** An acknowledged record survives a crash if and only if it is in an SST the manifest names
      or lies above the last flushed sequence number. */
  lemma SurvivesExactly(e: Engine, d: Disk, r: InternalRecord)
    requires Inv(e) && CrashImage(e, d) && r in e.acked
    ensures Recovered(d, r) <==> InManifest(e, r) || r.seqno > e.manifest.lastFlushed
  {
    hide Clean, M.Inv, M.Replay, DecodeLog;
    var m := M.Replay(M.EMPTY, d.log);
    assert m.sstables == e.manifest.sstables && m.lastFlushed == e.manifest.lastFlushed;
    if r.seqno > e.manifest.lastFlushed {
      var i :| 0 <= i < |e.segs| && e.segs[i].synced <= |e.segs[i].data|
        && r in DecodeLog(e.segs[i].data[..e.segs[i].synced]);
      RemainsHolds(e.segs[i], d.wal[i], r);
    }
  }

  /** For an unexpired one that means: not in a table whose flush failed before a later flush
      was logged. */
  lemma OvertakenExactly(e: Engine, r: InternalRecord)
    requires Inv(e) && r in e.acked && r.expireAt > e.now
    ensures InManifest(e, r) || r.seqno > e.manifest.lastFlushed <==> r !in e.overtaken
  {
    hide InManifest, InTables, Ordered;
  }

  /** Crash safety, exactly: after any run from a freshly opened engine, failed flushes
      included, an acknowledged unexpired record is recovered from whatever a crash leaves on
      disk, unless its table was dropped by a failed flush and a later flush has been logged
      since; then no crash image recovers it. */
  lemma LostExactly(e: Engine, run: seq<Event>, d: Disk, r: InternalRecord)
    requires Opened(e) && IsRun(e, run) && CrashImage(After(e, run), d)
    requires r in After(e, run).acked && r.expireAt > After(e, run).now
    ensures Recovered(d, r) <==> r !in After(e, run).overtaken
    ensures Recovered(d, r) <==> InManifest(After(e, run), r) || r.seqno > After(e, run).manifest.lastFlushed
  {
    hide Inv, Recovered, CrashImage, InManifest;
    OpenedInv(e);
    RunKeeps(e, run);
    SurvivesExactly(After(e, run), d, r);
    OvertakenExactly(After(e, run), r);
  }

  lemma {:induction false} NoFailures(e: Engine, run: seq<Event>)
    requires IsRun(e, run) && Fail !in run
    ensures After(e, run).dropped == [] && After(e, run).overtaken == [] <== e.dropped == [] && e.overtaken == []
    decreases |run|
  {
    hide Enabled, MaxSeq, WriteEncoded, TruncateBefore, SyncAll, M.Apply, M.SnapshotLog, Keep, EncodeLog;
    if run != [] { NoFailures(Fire(e, run[0]), run[1..]); }
  }

  /** Crash safety: in runs without failed flushes, whatever a crash leaves on disk still holds
      every acknowledged, unexpired record, in an SST the manifest names or in the WAL above the
      last flushed sequence number. */
  lemma CrashSafety(e: Engine, run: seq<Event>, d: Disk, r: InternalRecord)
    requires Opened(e) && IsRun(e, run) && Fail !in run && CrashImage(After(e, run), d)
    requires r in After(e, run).acked && r.expireAt > After(e, run).now
    ensures Recovered(d, r)
  {
    hide Recovered, CrashImage, InManifest;
    NoFailures(e, run);
    LostExactly(e, run, d, r);
  }

  /** Some crash image always exists, so "every crash image" is not an empty promise. */
  lemma SomeCrash(e: Engine) returns (d: Disk)
    requires Inv(e)
    ensures CrashImage(e, d)
  {
    hide DecodeLog, EncodeLog, WithinLimits, Covers, SequencesOk, FilesOk, ManifestOk, Accounted, Durable, InSegments;
    d := Disk(seq(|e.segs|, i requires 0 <= i < |e.segs| => e.segs[i].data), e.log, e.files);
  }

  // ---------------------------------------------------------------- and such a loss is reachable

  const START: Engine := Engine([FreshSegment(1)], 2, 1000, [], M.EMPTY, map[], [], [], Ready, {}, 0, 1, [], [], [], [],
                                  {})

  lemma StartOpened()
    ensures Opened(START)
  {
    hide Keep, Decode;
    var replayed := ReplayFrom(START.segs, 0);
    assert replayed != [] ==> replayed[0] in replayed;
    ReplayExact(START.segs, 0);
    assert forall r :: !InSegments(START.segs, r);
  }

  lemma RunCons(e: Engine, ev: Event, rest: seq<Event>)
    requires Enabled(e, ev) && IsRun(Fire(e, ev), rest)
    ensures IsRun(e, [ev] + rest) && After(e, [ev] + rest) == After(Fire(e, ev), rest)
  {
    hide Enabled, Fire;
    assert ([ev] + rest)[1..] == rest;
  }

  lemma {:induction false} RunAppend(e: Engine, a: seq<Event>, b: seq<Event>)
    requires IsRun(e, a) && IsRun(After(e, a), b)
    ensures IsRun(e, a + b) && After(e, a + b) == After(After(e, a), b)
    decreases |a|
  {
    hide Enabled, Fire;
    if a == [] {
      assert a + b == b;
    } else {
      assert (a + b)[0] == a[0] && (a + b)[1..] == a[1..] + b;
      RunAppend(Fire(e, a[0]), a[1..], b);
    }
  }

  /** Ready, with nothing in memory. */
  predicate Idle(e: Engine) {
    e.phase.Ready? && e.frozen == [] && e.active == [] && e.unsynced == []
  }

  /** One record is written, synced, frozen and popped. */
  lemma FillAndPop(e: Engine, x: InternalRecord) returns (run: seq<Event>, e': Engine)
    requires Idle(e) && x.seqno == e.nextSeq && WithinLimits(x) && x.expireAt > e.now
    ensures IsRun(e, run) && e' == After(e, run)
    ensures e'.phase == Popped([x]) && Idle(e'.(phase := Ready)) && e'.acked == e.acked + [x]
    ensures e'.dropped == e.dropped && e'.overtaken == e.overtaken
    ensures e'.manifest == e.manifest && e'.now == e.now && e'.nextSeq == x.seqno + 1
  {
    hide DecodeLog, EncodeLog, WriteEncoded, SyncAll, WithinLimits, Keep;
    var e1 := Fire(e, Write([x]));
    var e2 := Fire(e1, Sync);
    assert e2.active == [x] && e2.acked == e.acked + [x];
    var e3 := Fire(e2, Freeze);
    assert e3.frozen == [[x]];
    OneKept(x, e.now);
    e' := Fire(e3, Pop);
    assert e'.frozen == [];
    hide Enabled, Fire;
    RunCons(e3, Pop, []);
    RunCons(e2, Freeze, [Pop] + []);
    RunCons(e1, Sync, [Freeze] + ([Pop] + []));
    RunCons(e, Write([x]), [Sync] + ([Freeze] + ([Pop] + [])));
    run := [Write([x])] + ([Sync] + ([Freeze] + ([Pop] + [])));
  }

  lemma OneKept(x: InternalRecord, now: i64)
    requires x.expireAt > now
    ensures Keep([x], Unexpired(now)) == [x]
  {
    KeepSnoc([], x, Unexpired(now));
    assert [] + [x] == [x];
  }

  lemma FlushFails(e: Engine) returns (run: seq<Event>, e': Engine)
    requires e.phase.Popped?
    ensures IsRun(e, run) && e' == After(e, run) && e' == e.(phase := Ready, dropped := e.dropped + e.phase.recs)
  {
    e' := Fire(e, Fail);
    hide Fire, Enabled;
    RunCons(e, Fail, []);
    run := [Fail] + [];
  }

  lemma FlushLogged(e: Engine) returns (run: seq<Event>, e': Engine)
    requires e.phase.Popped? && e.phase.recs != [] && e.manifest.sstables == map[]
    ensures IsRun(e, run) && e' == After(e, run)
    ensures e'.acked == e.acked && e'.now == e.now && e'.overtaken == e.overtaken + e.dropped
  {
    var info := M.SstInfo(1, 1, 0, 0, 0, 0, 0, None);
    var mid := Fire(e, WriteSst(1));
    e' := Fire(mid, LogFlush(info, []));
    hide Fire, Enabled;
    RunCons(mid, LogFlush(info, []), []);
    RunCons(e, WriteSst(1), [LogFlush(info, [])] + []);
    run := [WriteSst(1)] + ([LogFlush(info, [])] + []);
  }

  /** From a fresh engine: a flush fails after its pop, a second one is logged, and no crash
      image recovers the acknowledged record of the first. */
  lemma FailedFlushHappens() returns (run: seq<Event>, e: Engine, d: Disk, r: InternalRecord)
    ensures Opened(START) && IsRun(START, run) && e == After(START, run)
    ensures CrashImage(e, d) && r in e.acked && r.expireAt > e.now && !Recovered(d, r)
  {
    hide Enabled, Fire, Recovered, Opened, Inv, CrashImage, WithinLimits, InManifest;
    r := InternalRecord(1, Put, [97], 0, 9, [], None);
    var x := InternalRecord(2, Put, [98], 0, 9, [], None);
    assert WithinLimits(r) && WithinLimits(x) by { SmallRecords(r, x); }
    StartOpened();
    var a, e1 := FillAndPop(START, r);
    var b, e2 := FlushFails(e1);
    var c, e3 := FillAndPop(e2, x);
    var f, e4 := FlushLogged(e3);
    RunAppend(START, a, b);
    RunAppend(START, a + b, c);
    RunAppend(START, a + b + c, f);
    run, e := a + b + c + f, e4;
    OpenedInv(START);
    RunKeeps(START, run);
    d := SomeCrash(e);
    LostExactly(START, run, d, r);
  }

  lemma SmallRecords(r: InternalRecord, x: InternalRecord)
    requires |r.key| == |x.key| == 1 && r.value == x.value == [] && r.rangeEnd.None? && x.rangeEnd.None?
    ensures WithinLimits(r) && WithinLimits(x)
  {}
}
