/** In the running engine at most one table is frozen at a time, because only a flush freezes
    and it pops the table at once under the worker's lock (`src/write_worker.rs`).  So the search
    order of the memtables never returns an overwritten record. */
module MemoryReads {
  import opened BigEndian
  import opened Record
  import opened Seqs
  import opened RecordOrder
  import opened LatestWins
  import opened Wal
  import M = Manifest
  import D = Durability

  ghost predicate OneFrozen(e: D.Engine) {
    |e.frozen| <= 1 && (!e.phase.Frozen? ==> e.frozen == [])
  }

  /** What the memtables hold, in the order it was written. */
  function Held(e: D.Engine): seq<InternalRecord> {
    Flatten(e.frozen) + e.active
  }

  ghost predicate InOrder(e: D.Engine) {
    Increasing(Held(e)) && forall r :: r in Held(e) ==> r.seqno < e.nextSeq
  }

  lemma StepKeepsOneFrozen(e: D.Engine, ev: D.Event)
    requires OneFrozen(e) && D.Enabled(e, ev)
    ensures OneFrozen(D.Fire(e, ev))
  {
    hide Keep, D.MaxSeq;
  }

  lemma StepKeepsInOrder(e: D.Engine, ev: D.Event)
    requires OneFrozen(e) && InOrder(e) && D.Enabled(e, ev)
    ensures InOrder(D.Fire(e, ev))
  {
    hide D.Fire, Flatten, Increasing;
    match ev {
      case Write(batch) => WriteInOrder(e, batch);
      case Freeze => FreezeSame(e);
      case Pop => PopSuffix(e);
      case _ => ElsewhereSame(e, ev);
    }
  }

  lemma WriteInOrder(e: D.Engine, batch: seq<InternalRecord>)
    requires InOrder(e) && D.Enabled(e, D.Write(batch))
    ensures InOrder(D.Fire(e, D.Write(batch)))
  {
    hide Flatten, Increasing, D.Increasing, D.Fire;
    WriteHeld(e, batch);
    AppendInOrder(Held(e), batch, e.nextSeq);
  }

  lemma WriteHeld(e: D.Engine, batch: seq<InternalRecord>)
    requires D.Enabled(e, D.Write(batch))
    ensures Held(D.Fire(e, D.Write(batch))) == Held(e) + batch && batch != [] && D.Increasing(batch, e.nextSeq)
    ensures D.Fire(e, D.Write(batch)).nextSeq == batch[|batch| - 1].seqno + 1
  {
    hide Flatten, Keep, D.MaxSeq, WriteEncoded, TruncateBefore, EncodeLog, SyncAll, M.SnapshotLog;
  }

  lemma AppendInOrder(held: seq<InternalRecord>, batch: seq<InternalRecord>, from: nat)
    requires Increasing(held) && (forall r :: r in held ==> r.seqno < from)
    requires batch != [] && D.Increasing(batch, from)
    ensures Increasing(held + batch)
    ensures forall r :: r in held + batch ==> r.seqno < batch[|batch| - 1].seqno + 1
  {
    var all, n := held + batch, |batch| - 1;
    forall i | 0 <= i < |batch| ensures from <= batch[i].seqno <= batch[n].seqno {
      assert i < n ==> batch[i].seqno < batch[n].seqno;
    }
    forall i, j | 0 <= i < j < |all| ensures all[i].seqno < all[j].seqno {
      if i < |held| <= j { assert held[i] in held; }
    }
  }

  lemma FreezeSame(e: D.Engine)
    requires D.Enabled(e, D.Freeze)
    ensures Held(D.Fire(e, D.Freeze)) == Held(e) && D.Fire(e, D.Freeze).nextSeq == e.nextSeq
  {
    var e' := D.Fire(e, D.Freeze);
    if e.active != [] {
      assert e'.frozen[..|e'.frozen| - 1] == e.frozen;
      assert Held(e') == (Flatten(e.frozen) + e.active) + [] == Held(e);
    }
  }

  lemma PopSuffix(e: D.Engine)
    requires OneFrozen(e) && InOrder(e) && D.Enabled(e, D.Pop)
    ensures InOrder(D.Fire(e, D.Pop))
  {
    hide Keep;
    var e' := D.Fire(e, D.Pop);
    assert Held(e') == e.active || e' == e.(phase := D.Ready);
    if e.frozen != [] {
      assert Held(e') == [] + e.active == e.active;
      IncreasingSplit(Flatten(e.frozen), e.active);
    }
  }

  lemma ElsewhereSame(e: D.Engine, ev: D.Event)
    requires D.Enabled(e, ev) && !ev.Write? && !ev.Freeze? && !ev.Pop?
    ensures Held(D.Fire(e, ev)) == Held(e) && D.Fire(e, ev).nextSeq == e.nextSeq
  {
    hide Flatten, D.MaxSeq;
  }

  lemma {:induction false} RunKeepsReads(e: D.Engine, run: seq<D.Event>)
    requires OneFrozen(e) && InOrder(e) && D.IsRun(e, run)
    ensures OneFrozen(D.After(e, run)) && InOrder(D.After(e, run))
    decreases |run|
  {
    hide OneFrozen, InOrder, D.Enabled, D.Fire;
    if run != [] {
      StepKeepsOneFrozen(e, run[0]);
      StepKeepsInOrder(e, run[0]);
      RunKeepsReads(D.Fire(e, run[0]), run[1..]);
    }
  }

  /** In every reachable state of the engine, at every step of a flush and after failed ones, at
      most one table is frozen and a search of the memtables gives the last write they hold. */
  lemma NoStaleRead(e: D.Engine, run: seq<D.Event>, p: Pair)
    requires D.Opened(e) && Increasing(e.active) && D.IsRun(e, run)
    ensures var e' := D.After(e, run);
            |e'.frozen| <= 1 && Search(e'.frozen, e'.active, p) == LookUp(Latest(Held(e')), p)
  {
    hide Search, Latest;
    StartInOrder(e);
    RunKeepsReads(e, run);
    var e' := D.After(e, run);
    SearchExact(e'.frozen, e'.active, p);
  }

  lemma StartInOrder(e: D.Engine)
    requires D.Opened(e) && Increasing(e.active)
    ensures OneFrozen(e) && InOrder(e)
  {
    hide D.Opened, D.Inv;
    OpenedIdle(e);
    D.OpenedInv(e);
    OpenedBelow(e);
    assert Held(e) == [] + e.active == e.active;
  }

  lemma OpenedIdle(e: D.Engine)
    requires D.Opened(e)
    ensures e.phase.Ready? && e.frozen == []
  {}

  lemma OpenedBelow(e: D.Engine)
    requires D.Inv(e) && e.phase.Ready? && e.frozen == []
    ensures forall r :: r in e.active ==> r.seqno < e.nextSeq
  {
    hide D.ManifestOk, D.FilesOk, D.WalOk, D.Accounted, D.Ordered;
    D.OneTable(e);
  }

  // ---------------------------------------------------------------- what readers see during a flush

  /** Between logging a flush and telling the index. */
  predicate Unlisted(phase: D.Phase) {
    phase.Logged? || phase.Checkpointed?
  }

  /** No other SST of the manifest shares a record with this one. */
  ghost predicate OwnRecords(e: D.Engine, id: u32) {
    id in e.manifest.sstables && id in e.files
    && forall other, r :: other in e.manifest.sstables && other != id && other in e.files && r in e.files[id] ==>
         r !in e.files[other]
  }

  /** The manifest's SSTs are the indexed ones, those whose flush failed after it was logged, and
      the one that is being flushed; the latter two kinds share no record with any other. */
  ghost predicate IndexOk(e: D.Engine) {
    && e.manifest.sstables.Keys == e.index + e.unindexed + (if Unlisted(e.phase) then {e.phase.id} else {})
    && e.index !! e.unindexed
    && (forall id :: id in e.unindexed ==> OwnRecords(e, id))
    && (Unlisted(e.phase) ==>
          e.phase.id !in e.index && e.phase.id !in e.unindexed && OwnRecords(e, e.phase.id)
          && e.files[e.phase.id] == e.phase.recs)
  }

  /** The manifest and its files stay. */
  lemma SameOwners(e: D.Engine, e': D.Engine, id: u32)
    requires e'.manifest.sstables.Keys == e.manifest.sstables.Keys && OwnRecords(e, id)
    requires forall x :: x in e.manifest.sstables ==> (x in e'.files <==> x in e.files)
    requires forall x :: x in e.manifest.sstables && x in e.files ==> e'.files[x] == e.files[x]
    ensures OwnRecords(e', id)
  {}

  /** The step leaves manifest and files alone. */
  ghost predicate SameManifest(e: D.Engine, e': D.Engine) {
    && e'.manifest.sstables.Keys == e.manifest.sstables.Keys
    && (forall x :: x in e.manifest.sstables ==> (x in e'.files <==> x in e.files))
    && (forall x :: x in e.manifest.sstables && x in e.files ==> e'.files[x] == e.files[x])
  }

  /** Which SSTs the index lacks, and why. */
  function Listing(e: D.Engine): (set<u32>, set<u32>, Option<(u32, seq<InternalRecord>)>) {
    (e.index, e.unindexed, if Unlisted(e.phase) then Some((e.phase.id, e.phase.recs)) else None)
  }

  predicate TouchesIndex(e: D.Engine, ev: D.Event) {
    ev.LogFlush? || ev.AddIndex? || (ev.Fail? && e.phase.Logged?)
  }

  lemma ManifestStep(e: D.Engine, ev: D.Event)
    requires D.Enabled(e, ev) && !ev.LogFlush?
    ensures SameManifest(e, D.Fire(e, ev))
    ensures !TouchesIndex(e, ev) ==> Listing(D.Fire(e, ev)) == Listing(e)
  {
    hide Keep, D.MaxSeq, WriteEncoded, TruncateBefore, EncodeLog, SyncAll, M.SnapshotLog;
  }

  lemma SameIndex(e: D.Engine, e': D.Engine)
    requires IndexOk(e) && SameManifest(e, e') && Listing(e') == Listing(e)
    ensures IndexOk(e')
  {
    hide OwnRecords;
    forall id | OwnRecords(e, id) ensures OwnRecords(e', id) { SameOwners(e, e', id); }
    if Unlisted(e.phase) { OwnFile(e, e.phase.id); }
  }

  lemma OwnFile(e: D.Engine, id: u32)
    requires OwnRecords(e, id)
    ensures id in e.manifest.sstables && id in e.files
  {}

  lemma StepKeepsIndex(e: D.Engine, ev: D.Event)
    requires D.Inv(e) && IndexOk(e) && D.Enabled(e, ev)
    ensures IndexOk(D.Fire(e, ev))
  {
    hide D.Inv, IndexOk, D.Enabled, D.Fire, SameManifest, Listing;
    if ev.LogFlush? {
      LoggingKeepsIndex(e, ev);
    } else {
      ManifestStep(e, ev);
      if TouchesIndex(e, ev) { ListingKeepsIndex(e, ev); } else { SameIndex(e, D.Fire(e, ev)); }
    }
  }

  /** The flushed SST joins the index, or the ones it will never learn of. */
  lemma ListingKeepsIndex(e: D.Engine, ev: D.Event)
    requires IndexOk(e) && D.Enabled(e, ev) && (ev.AddIndex? || (ev.Fail? && e.phase.Logged?))
    requires SameManifest(e, D.Fire(e, ev))
    ensures IndexOk(D.Fire(e, ev))
  {
    hide OwnRecords, Keep, D.MaxSeq;
    var e' := D.Fire(e, ev);
    forall id | OwnRecords(e, id) ensures OwnRecords(e', id) { SameOwners(e, e', id); }
  }

  /** The logged table is new to the manifest, and its records are newer than all that is there. */
  lemma LoggingKeepsIndex(e: D.Engine, ev: D.Event)
    requires D.Inv(e) && IndexOk(e) && ev.LogFlush? && D.Enabled(e, ev)
    ensures IndexOk(D.Fire(e, ev))
  {
    hide D.WalOk, D.Accounted, D.Ordered, D.InTables, D.MaxSeq;
    var e', recs, id := D.Fire(e, ev), e.phase.recs, e.phase.id;
    var rest := e.frozen + [e.active];
    assert D.Tables(e) == [recs] + rest;
    D.FlushedTop(e, recs, rest);
    assert e'.manifest.sstables.Keys == e.manifest.sstables.Keys + {id} && e'.files == e.files;
    forall x, r | x in e.manifest.sstables && x in e.files && r in e.files[x] ensures r !in recs {
      assert D.InManifest(e, r);
    }
  }

  lemma {:induction false} RunKeepsIndex(e: D.Engine, run: seq<D.Event>)
    requires D.Inv(e) && IndexOk(e) && D.IsRun(e, run)
    ensures IndexOk(D.After(e, run))
    decreases |run|
  {
    hide IndexOk, D.Inv, D.Enabled, D.Fire;
    if run != [] {
      StepKeepsIndex(e, run[0]);
      D.StepKeeps(e, run[0]);
      RunKeepsIndex(D.Fire(e, run[0]), run[1..]);
    }
  }

  /** In one of these SSTs. */
  predicate InSsts(e: D.Engine, ids: set<u32>, r: InternalRecord) {
    exists id :: id in ids && id in e.files && r in e.files[id]
  }

  /** Where a reader looks: the active table, the frozen ones, and the indexed SSTs. */
  predicate Visible(e: D.Engine, r: InternalRecord) {
    D.InTables(e.frozen + [e.active], r) || InSsts(e, e.index, r)
  }

  /** In the table of the flush under way, from its pop until the index learns of it. */
  predicate InFlush(e: D.Engine, r: InternalRecord) {
    (e.phase.Popped? || e.phase.Written? || Unlisted(e.phase)) && r in e.phase.recs
  }

  /** In the table a flush has popped and not yet logged. */
  predicate InPopped(e: D.Engine, r: InternalRecord) {
    (e.phase.Popped? || e.phase.Written?) && r in e.phase.recs
  }

  lemma TablesOf(e: D.Engine, r: InternalRecord)
    requires D.SequencesOk(e)
    ensures D.InTables(D.Tables(e), r) <==> InPopped(e, r) || D.InTables(e.frozen + [e.active], r)
    ensures InPopped(e, r) ==> !D.InTables(e.frozen + [e.active], r)
  {
    hide D.InTables, D.Ordered;
    var rest := e.frozen + [e.active];
    if e.phase.Popped? || e.phase.Written? {
      assert D.Tables(e) == [e.phase.recs] + rest;
      D.TablesCons(e.phase.recs, rest, r);
      D.TablesShrink(e.phase.recs, e.phase.recs, rest);
    } else {
      assert D.Tables(e) == rest;
    }
  }

  /** What the manifest's SSTs hold, by kind; the kinds are disjoint from the indexed ones. */
  lemma ByKind(e: D.Engine, r: InternalRecord)
    requires IndexOk(e)
    ensures D.InManifest(e, r) <==>
            InSsts(e, e.index, r) || InSsts(e, e.unindexed, r) || (Unlisted(e.phase) && r in e.phase.recs)
    ensures InSsts(e, e.unindexed, r) || (Unlisted(e.phase) && r in e.phase.recs) ==> !InSsts(e, e.index, r)
  {
    if D.InManifest(e, r) {
      var id :| id in e.manifest.sstables && id in e.files && r in e.files[id];
      assert id in e.index || id in e.unindexed || (Unlisted(e.phase) && id == e.phase.id);
    }
    if InSsts(e, e.index, r) {
      var id :| id in e.index && id in e.files && r in e.files[id];
      assert id in e.manifest.sstables;
      assert forall x :: x in e.unindexed ==> x != id;
    }
    if InSsts(e, e.unindexed, r) {
      var id :| id in e.unindexed && id in e.files && r in e.files[id];
      assert id in e.manifest.sstables && OwnRecords(e, id);
    }
    if Unlisted(e.phase) && r in e.phase.recs { assert e.phase.id in e.manifest.sstables; }
  }

  lemma MissedInState(e: D.Engine, r: InternalRecord)
    requires D.Inv(e) && IndexOk(e) && D.Submitted(e, r) && r.expireAt > e.now
    ensures !Visible(e, r) <==>
            InFlush(e, r) || r in e.dropped || r in e.overtaken || InSsts(e, e.unindexed, r)
  {
    hide D.ManifestOk, D.WalOk, D.InTables, D.Ordered, D.InManifest, InSsts, IndexOk, D.Tables;
    TablesOf(e, r);
    ByKind(e, r);
  }

  /** At any moment of any run a reader misses an unexpired write exactly when it is in the table
      of the flush under way, between its pop and the index update; in a table whose flush failed
      before it was logged; or in an SST whose flush failed after it was logged and before the
      index update. */
  lemma MissedExactly(e: D.Engine, run: seq<D.Event>, r: InternalRecord)
    requires D.Opened(e) && D.IsRun(e, run)
    requires D.Submitted(D.After(e, run), r) && r.expireAt > D.After(e, run).now
    ensures var e' := D.After(e, run);
            !Visible(e', r) <==>
            InFlush(e', r) || r in e'.dropped || r in e'.overtaken || InSsts(e', e'.unindexed, r)
  {
    hide D.Opened, D.Inv, IndexOk, Visible, InFlush, InSsts;
    D.OpenedInv(e);
    OpenedIndex(e);
    D.RunKeeps(e, run);
    RunKeepsIndex(e, run);
    MissedInState(D.After(e, run), r);
  }

  lemma OpenedIndex(e: D.Engine)
    requires D.Opened(e)
    ensures IndexOk(e)
  {}

  lemma {:induction false} NothingUnindexed(e: D.Engine, run: seq<D.Event>)
    requires D.IsRun(e, run) && D.Fail !in run && e.unindexed == {}
    ensures D.After(e, run).unindexed == {}
    decreases |run|
  {
    hide D.Enabled, D.MaxSeq, Keep;
    if run != [] { NothingUnindexed(D.Fire(e, run[0]), run[1..]); }
  }

  /** Without failed flushes: exactly the table of the flush under way. */
  lemma MissedDuringFlush(e: D.Engine, run: seq<D.Event>, r: InternalRecord)
    requires D.Opened(e) && D.IsRun(e, run) && D.Fail !in run
    requires D.Submitted(D.After(e, run), r) && r.expireAt > D.After(e, run).now
    ensures !Visible(D.After(e, run), r) <==> InFlush(D.After(e, run), r)
  {
    hide Visible, InFlush;
    NothingUnindexed(e, run);
    D.NoFailures(e, run);
    MissedExactly(e, run, r);
  }

  /** Such a moment is reached from a fresh engine: the record is acknowledged, unexpired, and a
      reader does not find it. */
  lemma ReaderMisses() returns (run: seq<D.Event>, e: D.Engine, r: InternalRecord)
    ensures D.Opened(D.START) && D.IsRun(D.START, run) && e == D.After(D.START, run)
    ensures r in e.acked && r.expireAt > e.now && !Visible(e, r)
  {
    hide D.Opened, D.IsRun, Visible;
    r := InternalRecord(1, Put, [97], 0, 9, [], None);
    D.SmallRecords(r, r);
    D.StartOpened();
    run, e := D.FillAndPop(D.START, r);
    MissedExactly(D.START, run, r);
  }
}
