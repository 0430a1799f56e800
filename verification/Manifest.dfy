/** The manifest log (`src/manifest.rs`): replay, and compaction of the log into a snapshot. */
module Manifest {
  import opened Bytes
  import opened BigEndian
  import opened Record
  import opened Seqs

  datatype BloomData = BloomData(words: seq<u64>, numHashes: byte, hashVersion: byte)

  datatype SstInfo = SstInfo(id: u32, records: u64, size: u64, minTs: i64, maxTs: i64,
                             minExpire: i64, maxExpire: i64, bloom: Option<BloomData>)

  datatype BlockInfo = BlockInfo(blockIdx: u32, minKey: bytes, maxKey: bytes, minTs: i64, maxTs: i64,
                                 minExpire: i64, maxExpire: i64)

  datatype Entry =
    | Flush(seqno: u64, sst: SstInfo, blocks: seq<BlockInfo>)
    | DeleteSst(id: u32)
    | GcDeleteSst(id: u32)
    | Compaction(removed: seq<u32>, added: seq<SstInfo>, newBlocks: seq<(u32, seq<BlockInfo>)>)
    | Checkpoint(lastFlushed: u64)
    | UpdateBloom(id: u32, bloom: BloomData)

  datatype State = State(
    lastFlushed: u64, sstables: map<u32, SstInfo>, blockInfos: map<u32, seq<BlockInfo>>, active: seq<u32>)

  const EMPTY: State := State(0, map[], map[], [])

  // ---------------------------------------------------------------- applying entries

  function Max(a: u64, b: u64): u64 { if a >= b then a else b }

  function Without(ids: seq<u32>, id: u32): seq<u32> {
    Keep(ids, x => x != id)
  }

  function WithId(ids: seq<u32>, id: u32): seq<u32> {
    if id in ids then ids else ids + [id]
  }

  function Forget(st: State, id: u32): State {
    State(st.lastFlushed, st.sstables - {id}, st.blockInfos - {id}, Without(st.active, id))
  }

  function ForgetAll(st: State, ids: seq<u32>): State {
    if ids == [] then st else Forget(ForgetAll(st, ids[..|ids| - 1]), ids[|ids| - 1])
  }

  function AddInfo(st: State, info: SstInfo): State {
    State(st.lastFlushed, st.sstables[info.id := info], st.blockInfos, WithId(st.active, info.id))
  }

  function AddInfos(st: State, infos: seq<SstInfo>): State {
    if infos == [] then st else AddInfo(AddInfos(st, infos[..|infos| - 1]), infos[|infos| - 1])
  }

  function SetBlocks(st: State, b: (u32, seq<BlockInfo>)): State {
    st.(blockInfos := st.blockInfos[b.0 := b.1])
  }

  function SetAllBlocks(st: State, bs: seq<(u32, seq<BlockInfo>)>): State {
    if bs == [] then st else SetBlocks(SetAllBlocks(st, bs[..|bs| - 1]), bs[|bs| - 1])
  }

  /** `apply_entry`. */
  function Apply(st: State, e: Entry): State {
    match e
    case Flush(n, sst, blocks) =>
      State(Max(st.lastFlushed, n), st.sstables[sst.id := sst], st.blockInfos[sst.id := blocks],
            WithId(st.active, sst.id))
    case DeleteSst(id) => Forget(st, id)
    case GcDeleteSst(id) => Forget(st, id)
    case Compaction(removed, added, bs) => SetAllBlocks(AddInfos(ForgetAll(st, removed), added), bs)
    case Checkpoint(n) => st.(lastFlushed := Max(st.lastFlushed, n))
    case UpdateBloom(id, bloom) =>
      if id in st.sstables
      then st.(sstables := st.sstables[id := st.sstables[id].(bloom := Some(bloom))])
      else st
  }

  /** Replay in `open`. */
  function Replay(st: State, log: seq<Entry>): State {
    if log == [] then st else Apply(Replay(st, log[..|log| - 1]), log[|log| - 1])
  }

  lemma {:induction false} ReplayAppend(st: State, a: seq<Entry>, b: seq<Entry>)
    ensures Replay(st, a + b) == Replay(Replay(st, a), b)
    decreases |b|
  {
    if b == [] {
      assert a + b == a;
    } else {
      var n := |b| - 1;
      assert (a + b)[..|a + b| - 1] == a + b[..n];
      ReplayAppend(st, a, b[..n]);
    }
  }

  lemma ReplayOne(st: State, e: Entry)
    ensures Replay(st, [e]) == Apply(st, e)
  {
    assert [e][..0] == [];
    assert Replay(st, [e][..0]) == st;
  }

  // ---------------------------------------------------------------- the invariant

  /** Tables, block lists and active ids name the same files, each once. */
  ghost predicate Inv(st: State) {
    && st.sstables.Keys == st.blockInfos.Keys
    && (forall id :: id in st.active <==> id in st.sstables)
    && Distinct(st.active)
    && (forall id :: id in st.sstables ==> st.sstables[id].id == id)
  }

  /** A compaction entry brings block lists for exactly the tables it adds. */
  ghost predicate WellFormed(e: Entry) {
    e.Compaction? ==> forall id :: Adds(e.added, id) <==> Blocked(e.newBlocks, id)
  }

  predicate Adds(added: seq<SstInfo>, id: u32) {
    exists i :: 0 <= i < |added| && added[i].id == id
  }

  predicate Blocked(bs: seq<(u32, seq<BlockInfo>)>, id: u32) {
    exists i :: 0 <= i < |bs| && bs[i].0 == id
  }

  lemma WithoutMembers(ids: seq<u32>, id: u32)
    requires Distinct(ids)
    ensures forall x :: x in Without(ids, id) <==> x in ids && x != id
    ensures Distinct(Without(ids, id))
  {
    var test := (x: u32) => x != id;
    KeepMembers(ids, test);
    var self := (x: u32) => Some(x);
    assert Reads(self, ids, ids);
    var kept := KeepReads(self, ids, ids, test);
    assert kept == Keep(ids, test);
  }

  lemma ForgetKeeps(st: State, id: u32)
    requires Inv(st)
    ensures Inv(Forget(st, id))
  {
    WithoutMembers(st.active, id);
  }

  lemma {:induction false} ForgetAllKeeps(st: State, ids: seq<u32>)
    requires Inv(st)
    ensures Inv(ForgetAll(st, ids))
  {
    if ids != [] {
      ForgetAllKeeps(st, ids[..|ids| - 1]);
      ForgetKeeps(ForgetAll(st, ids[..|ids| - 1]), ids[|ids| - 1]);
    }
  }

  /** Between adding tables and adding their block lists. */
  ghost predicate Adding(st: State, st': State, infos: seq<SstInfo>) {
    && (forall id :: id in st'.sstables <==> id in st.sstables || Adds(infos, id))
    && st'.blockInfos == st.blockInfos
    && (forall id :: id in st'.active <==> id in st'.sstables)
    && Distinct(st'.active)
    && (forall id :: id in st'.sstables ==> st'.sstables[id].id == id)
  }

  lemma {:induction false} AddInfosEffect(st: State, infos: seq<SstInfo>)
    requires Inv(st)
    ensures Adding(st, AddInfos(st, infos), infos)
  {
    if infos != [] {
      var n := |infos| - 1;
      AddInfosEffect(st, infos[..n]);
      AddsSnoc(infos);
    }
  }

  lemma AddsSnoc(infos: seq<SstInfo>)
    requires infos != []
    ensures forall id :: Adds(infos, id) <==> Adds(infos[..|infos| - 1], id) || infos[|infos| - 1].id == id
  {
    var n := |infos| - 1;
    forall id ensures Adds(infos, id) <==> Adds(infos[..n], id) || infos[n].id == id {
      if i :| 0 <= i < |infos| && infos[i].id == id { assert i < n ==> infos[..n][i].id == id; }
      if Adds(infos[..n], id) {
        var front := infos[..n];
        var i :| 0 <= i < |front| && front[i].id == id;
        assert infos[i].id == id;
      }
    }
  }

  lemma {:induction false} SetAllBlocksEffect(st: State, bs: seq<(u32, seq<BlockInfo>)>)
    ensures var out := SetAllBlocks(st, bs);
            out == st.(blockInfos := out.blockInfos)
            && forall id :: id in out.blockInfos <==> id in st.blockInfos || Blocked(bs, id)
  {
    if bs != [] {
      var n := |bs| - 1;
      SetAllBlocksEffect(st, bs[..n]);
      var mid, out := SetAllBlocks(st, bs[..n]), SetAllBlocks(st, bs);
      forall id ensures id in out.blockInfos <==> id in st.blockInfos || Blocked(bs, id) {
        if Blocked(bs, id) {
          var i :| 0 <= i < |bs| && bs[i].0 == id;
          if i < n { assert bs[..n][i].0 == id; }
        }
        if id in mid.blockInfos && id !in st.blockInfos {
          var i :| 0 <= i < n && bs[..n][i].0 == id;
          assert bs[i].0 == id;
        }
        assert bs[n].0 == id ==> id in out.blockInfos;
      }
    }
  }

  /** Every well-formed entry keeps the invariant. */
  lemma ApplyKeepsInv(st: State, e: Entry)
    requires Inv(st) && WellFormed(e)
    ensures Inv(Apply(st, e))
  {
    match e {
      case DeleteSst(id) => ForgetKeeps(st, id);
      case GcDeleteSst(id) => ForgetKeeps(st, id);
      case Compaction(removed, added, bs) =>
        ForgetAllKeeps(st, removed);
        var a := ForgetAll(st, removed);
        AddInfosEffect(a, added);
        var b := AddInfos(a, added);
        SetAllBlocksEffect(b, bs);
        var c := SetAllBlocks(b, bs);
        assert forall id :: id in c.sstables <==> id in c.blockInfos;
      case _ =>
    }
  }

  lemma {:induction false} ReplayKeepsInv(st: State, log: seq<Entry>)
    requires Inv(st) && forall i :: 0 <= i < |log| ==> WellFormed(log[i])
    ensures Inv(Replay(st, log))
  {
    if log != [] {
      ReplayKeepsInv(st, log[..|log| - 1]);
      ApplyKeepsInv(Replay(st, log[..|log| - 1]), log[|log| - 1]);
    }
  }

  // ---------------------------------------------------------------- what each entry does

  /** The last info, or block list, that is given for an id. */
  predicate LastInfo(infos: seq<SstInfo>, id: u32, info: SstInfo) {
    exists i :: 0 <= i < |infos| && infos[i] == info && info.id == id
             && forall j :: i < j < |infos| ==> infos[j].id != id
  }

  predicate LastBlocks(bs: seq<(u32, seq<BlockInfo>)>, id: u32, blocks: seq<BlockInfo>) {
    exists i :: 0 <= i < |bs| && bs[i] == (id, blocks) && forall j :: i < j < |bs| ==> bs[j].0 != id
  }

  lemma {:induction false} ForgetAllEffect(st: State, ids: seq<u32>)
    ensures var out := ForgetAll(st, ids);
            && out.lastFlushed == st.lastFlushed
            && (forall id :: id in out.sstables <==> id in st.sstables && id !in ids)
            && (forall id :: id in out.sstables ==> out.sstables[id] == st.sstables[id])
            && (forall id :: id in out.blockInfos <==> id in st.blockInfos && id !in ids)
            && (forall id :: id in out.blockInfos ==> out.blockInfos[id] == st.blockInfos[id])
            && (forall id :: id in out.active <==> id in st.active && id !in ids)
  {
    if ids != [] {
      var n := |ids| - 1;
      ForgetAllEffect(st, ids[..n]);
      KeepMembers(ForgetAll(st, ids[..n]).active, x => x != ids[n]);
      assert ids == ids[..n] + [ids[n]];
    }
  }

  lemma {:induction false} AddInfosMaps(st: State, infos: seq<SstInfo>)
    ensures var out := AddInfos(st, infos);
            && out.lastFlushed == st.lastFlushed && out.blockInfos == st.blockInfos
            && (forall id :: id in out.sstables <==> id in st.sstables || Adds(infos, id))
            && (forall id :: Adds(infos, id) ==> id in out.sstables && LastInfo(infos, id, out.sstables[id]))
            && (forall id :: id in st.sstables && !Adds(infos, id) ==> out.sstables[id] == st.sstables[id])
            && (forall id :: id in out.active <==> id in st.active || Adds(infos, id))
  {
    if infos != [] {
      var n := |infos| - 1;
      AddInfosMaps(st, infos[..n]);
      AddsSnoc(infos);
      var mid, out := AddInfos(st, infos[..n]), AddInfos(st, infos);
      forall id | Adds(infos, id) ensures LastInfo(infos, id, out.sstables[id]) {
        if id != infos[n].id { LaterInfo(infos, id, mid.sstables[id]); }
      }
    }
  }

  lemma LaterInfo(infos: seq<SstInfo>, id: u32, info: SstInfo)
    requires infos != [] && infos[|infos| - 1].id != id && LastInfo(infos[..|infos| - 1], id, info)
    ensures LastInfo(infos, id, info)
  {
    var front := infos[..|infos| - 1];
    var i :| 0 <= i < |front| && front[i] == info && info.id == id && forall j :: i < j < |front| ==> front[j].id != id;
    assert infos[i] == info;
    forall j | i < j < |infos| ensures infos[j].id != id { if j < |front| { assert front[j] == infos[j]; } }
  }

  lemma BlockedSnoc(bs: seq<(u32, seq<BlockInfo>)>)
    requires bs != []
    ensures forall id :: Blocked(bs, id) <==> Blocked(bs[..|bs| - 1], id) || bs[|bs| - 1].0 == id
  {
    var n := |bs| - 1;
    forall id ensures Blocked(bs, id) <==> Blocked(bs[..n], id) || bs[n].0 == id {
      if i :| 0 <= i < |bs| && bs[i].0 == id { assert i < n ==> bs[..n][i].0 == id; }
      if Blocked(bs[..n], id) {
        var front := bs[..n];
        var i :| 0 <= i < |front| && front[i].0 == id;
        assert bs[i].0 == id;
      }
    }
  }

  lemma LaterBlocks(bs: seq<(u32, seq<BlockInfo>)>, id: u32, blocks: seq<BlockInfo>)
    requires bs != [] && bs[|bs| - 1].0 != id && LastBlocks(bs[..|bs| - 1], id, blocks)
    ensures LastBlocks(bs, id, blocks)
  {
    var front := bs[..|bs| - 1];
    var i :| 0 <= i < |front| && front[i] == (id, blocks) && forall j :: i < j < |front| ==> front[j].0 != id;
    assert bs[i] == (id, blocks);
    forall j | i < j < |bs| ensures bs[j].0 != id { if j < |front| { assert front[j] == bs[j]; } }
  }

  lemma {:induction false} SetAllBlocksMaps(st: State, bs: seq<(u32, seq<BlockInfo>)>)
    ensures var out := SetAllBlocks(st, bs);
            && out == st.(blockInfos := out.blockInfos)
            && (forall id :: id in out.blockInfos <==> id in st.blockInfos || Blocked(bs, id))
            && (forall id :: Blocked(bs, id) ==> id in out.blockInfos && LastBlocks(bs, id, out.blockInfos[id]))
            && (forall id :: id in st.blockInfos && !Blocked(bs, id) ==> out.blockInfos[id] == st.blockInfos[id])
  {
    if bs != [] {
      var n := |bs| - 1;
      SetAllBlocksMaps(st, bs[..n]);
      BlockedSnoc(bs);
      var mid, out := SetAllBlocks(st, bs[..n]), SetAllBlocks(st, bs);
      forall id | Blocked(bs, id) ensures LastBlocks(bs, id, out.blockInfos[id]) {
        if id != bs[n].0 { LaterBlocks(bs, id, mid.blockInfos[id]); } else { assert bs[n] == (id, out.blockInfos[id]); }
      }
    }
  }

  /** A compaction entry takes away exactly the removed tables, except those it adds, and adds the
      others; an added table has its last info and its last block list, every other one keeps
      both. */
  lemma CompactionExactly(st: State, removed: seq<u32>, added: seq<SstInfo>, bs: seq<(u32, seq<BlockInfo>)>)
    ensures var out := Apply(st, Compaction(removed, added, bs));
            && out.lastFlushed == st.lastFlushed
            && (forall id :: id in out.active <==> (id in st.active && id !in removed) || Adds(added, id))
            && (forall id :: id in out.sstables <==> (id in st.sstables && id !in removed) || Adds(added, id))
            && (forall id :: id in out.blockInfos <==> (id in st.blockInfos && id !in removed) || Blocked(bs, id))
            && (forall id :: id in out.sstables ==>
                  if Adds(added, id) then LastInfo(added, id, out.sstables[id])
                  else id in st.sstables && out.sstables[id] == st.sstables[id])
            && (forall id :: id in out.blockInfos ==>
                  if Blocked(bs, id) then LastBlocks(bs, id, out.blockInfos[id])
                  else id in st.blockInfos && out.blockInfos[id] == st.blockInfos[id])
  {
    hide Adds, Blocked, LastInfo, LastBlocks;
    ForgetAllEffect(st, removed);
    AddInfosMaps(ForgetAll(st, removed), added);
    SetAllBlocksMaps(AddInfos(ForgetAll(st, removed), added), bs);
    hide ForgetAll, AddInfos, SetAllBlocks;
  }

  /** A delete entry, of either kind, takes away exactly its table. */
  lemma DeleteExactly(st: State, e: Entry)
    requires e.DeleteSst? || e.GcDeleteSst?
    ensures var out := Apply(st, e);
            && out.lastFlushed == st.lastFlushed
            && (forall id :: id in out.active <==> id in st.active && id != e.id)
            && out.sstables == (map id | id in st.sstables && id != e.id :: st.sstables[id])
            && out.blockInfos == (map id | id in st.blockInfos && id != e.id :: st.blockInfos[id])
  {
    KeepMembers(st.active, x => x != e.id);
  }

  /** A flush entry sets exactly its table, a Bloom entry only the filter of a known table, a
      checkpoint no table; the last flushed number never goes back. */
  lemma OthersExactly(st: State, e: Entry)
    requires e.Flush? || e.UpdateBloom? || e.Checkpoint?
    ensures var out := Apply(st, e);
            && (e.Flush? ==>
                  out.lastFlushed >= st.lastFlushed && out.lastFlushed >= e.seqno
                  && (out.lastFlushed == st.lastFlushed || out.lastFlushed == e.seqno)
                  && (forall id :: id in out.active <==> id in st.active || id == e.sst.id)
                  && out.sstables == st.sstables[e.sst.id := e.sst]
                  && out.blockInfos == st.blockInfos[e.sst.id := e.blocks])
            && (e.Checkpoint? ==>
                  out == st.(lastFlushed := out.lastFlushed)
                  && out.lastFlushed >= st.lastFlushed && out.lastFlushed >= e.lastFlushed
                  && (out.lastFlushed == st.lastFlushed || out.lastFlushed == e.lastFlushed))
            && (e.UpdateBloom? ==>
                  out == st.(sstables := out.sstables) && out.sstables.Keys == st.sstables.Keys
                  && forall id :: id in st.sstables ==>
                       out.sstables[id] ==
                         if id == e.id then st.sstables[id].(bloom := Some(e.bloom)) else st.sstables[id])
  {}

  // ---------------------------------------------------------------- equivalence up to order

  ghost predicate Equiv(a: State, b: State) {
    a.lastFlushed == b.lastFlushed && a.sstables == b.sstables && a.blockInfos == b.blockInfos
    && multiset(a.active) == multiset(b.active)
  }

  lemma {:induction false} KeepMultiset(s: seq<u32>, id: u32)
    ensures multiset(Without(s, id)) == multiset(s)[id := 0]
  {
    if s != [] {
      var n := |s| - 1;
      KeepMultiset(s[..n], id);
      assert s == s[..n] + [s[n]];
    }
  }

  lemma ForgetEquiv(a: State, b: State, id: u32)
    requires Equiv(a, b)
    ensures Equiv(Forget(a, id), Forget(b, id))
  {
    KeepMultiset(a.active, id);
    KeepMultiset(b.active, id);
  }

  lemma WithIdEquiv(a: seq<u32>, b: seq<u32>, id: u32)
    requires multiset(a) == multiset(b)
    ensures multiset(WithId(a, id)) == multiset(WithId(b, id))
  {
    assert id in a <==> id in multiset(a);
    assert id in b <==> id in multiset(b);
  }

  lemma {:induction false} ForgetAllEquiv(a: State, b: State, ids: seq<u32>)
    requires Equiv(a, b)
    ensures Equiv(ForgetAll(a, ids), ForgetAll(b, ids))
  {
    if ids != [] {
      ForgetAllEquiv(a, b, ids[..|ids| - 1]);
      ForgetEquiv(ForgetAll(a, ids[..|ids| - 1]), ForgetAll(b, ids[..|ids| - 1]), ids[|ids| - 1]);
    }
  }

  lemma {:induction false} AddInfosEquiv(a: State, b: State, infos: seq<SstInfo>)
    requires Equiv(a, b)
    ensures Equiv(AddInfos(a, infos), AddInfos(b, infos))
  {
    if infos != [] {
      var n := |infos| - 1;
      AddInfosEquiv(a, b, infos[..n]);
      WithIdEquiv(AddInfos(a, infos[..n]).active, AddInfos(b, infos[..n]).active, infos[n].id);
    }
  }

  lemma {:induction false} SetAllBlocksEquiv(a: State, b: State, bs: seq<(u32, seq<BlockInfo>)>)
    requires Equiv(a, b)
    ensures Equiv(SetAllBlocks(a, bs), SetAllBlocks(b, bs))
  {
    if bs != [] { SetAllBlocksEquiv(a, b, bs[..|bs| - 1]); }
  }

  /** Equivalent states stay equivalent under every entry. */
  lemma ApplyEquiv(a: State, b: State, e: Entry)
    requires Equiv(a, b)
    ensures Equiv(Apply(a, e), Apply(b, e))
  {
    match e {
      case Flush(n, sst, blocks) => WithIdEquiv(a.active, b.active, sst.id);
      case DeleteSst(id) => ForgetEquiv(a, b, id);
      case GcDeleteSst(id) => ForgetEquiv(a, b, id);
      case Compaction(removed, added, bs) =>
        ForgetAllEquiv(a, b, removed);
        AddInfosEquiv(ForgetAll(a, removed), ForgetAll(b, removed), added);
        SetAllBlocksEquiv(AddInfos(ForgetAll(a, removed), added), AddInfos(ForgetAll(b, removed), added), bs);
      case _ =>
    }
  }

  lemma {:induction false} ReplayEquiv(a: State, b: State, log: seq<Entry>)
    requires Equiv(a, b)
    ensures Equiv(Replay(a, log), Replay(b, log))
  {
    if log != [] {
      var n := |log| - 1;
      ReplayEquiv(a, b, log[..n]);
      ApplyEquiv(Replay(a, log[..n]), Replay(b, log[..n]), log[n]);
    }
  }

  // ---------------------------------------------------------------- snapshot

  /** `ids` lists the tables in some order, as walking a hash map would. */
  ghost predicate Enumerates(ids: seq<u32>, st: State) {
    Distinct(ids) && forall id :: id in ids <==> id in st.sstables
  }

  function SnapshotEntry(st: State, id: u32): Entry
    requires id in st.sstables
  {
    Flush(st.lastFlushed, st.sstables[id], if id in st.blockInfos then st.blockInfos[id] else [])
  }

  function FlushEntries(st: State, ids: seq<u32>): seq<Entry>
    requires forall i :: 0 <= i < |ids| ==> ids[i] in st.sstables
  {
    seq(|ids|, i requires 0 <= i < |ids| => SnapshotEntry(st, ids[i]))
  }

  /** The lines `snapshot` writes. */
  function SnapshotLog(st: State, ids: seq<u32>): seq<Entry>
    requires forall i :: 0 <= i < |ids| ==> ids[i] in st.sstables
  {
    FlushEntries(st, ids) + [Checkpoint(st.lastFlushed)]
  }

  /** The state after replaying some of the snapshot's table lines. */
  ghost predicate Rebuilt(st: State, ids: seq<u32>, out: State) {
    && out.active == ids
    && out.lastFlushed <= st.lastFlushed
    && (forall id :: id in out.sstables <==> id in ids)
    && (forall id :: id in out.blockInfos <==> id in ids)
    && (forall id :: id in ids ==>
          id in st.sstables && id in st.blockInfos
          && out.sstables[id] == st.sstables[id] && out.blockInfos[id] == st.blockInfos[id])
  }

  lemma RebuildStep(st: State, ids: seq<u32>, out: State, id: u32)
    requires Inv(st) && Rebuilt(st, ids, out) && id in st.sstables && id !in ids
    ensures Rebuilt(st, ids + [id], Apply(out, SnapshotEntry(st, id)))
  {
    assert id in st.blockInfos.Keys;
  }

  lemma {:induction false} FlushEntriesRebuild(st: State, ids: seq<u32>)
    requires Inv(st) && Distinct(ids) && forall i :: 0 <= i < |ids| ==> ids[i] in st.sstables
    ensures Rebuilt(st, ids, Replay(EMPTY, FlushEntries(st, ids)))
  {
    hide Apply, SnapshotEntry, Inv;
    if ids != [] {
      var n := |ids| - 1;
      FlushEntriesRebuild(st, ids[..n]);
      var log := FlushEntries(st, ids);
      assert log[..|log| - 1] == FlushEntries(st, ids[..n]);
      assert ids == ids[..n] + [ids[n]];
      RebuildStep(st, ids[..n], Replay(EMPTY, FlushEntries(st, ids[..n])), ids[n]);
    }
  }

  /** Replaying the snapshot gives the in-memory state up to the order of active ids, and any
      later entries keep the two equivalent. */
  lemma SnapshotBisimulates(st: State, ids: seq<u32>, later: seq<Entry>)
    requires Inv(st) && Enumerates(ids, st)
    requires forall i :: 0 <= i < |ids| ==> ids[i] in st.sstables
    ensures Equiv(Replay(EMPTY, SnapshotLog(st, ids) + later), Replay(st, later))
  {
    SnapshotReplays(st, ids);
    ReplayAppend(EMPTY, SnapshotLog(st, ids), later);
    ReplayEquiv(Replay(EMPTY, SnapshotLog(st, ids)), st, later);
  }

  lemma SnapshotReplays(st: State, ids: seq<u32>)
    requires Inv(st) && Enumerates(ids, st)
    requires forall i :: 0 <= i < |ids| ==> ids[i] in st.sstables
    ensures Equiv(Replay(EMPTY, SnapshotLog(st, ids)), st)
  {
    hide FlushEntries, SnapshotEntry, Replay, Inv;
    var flushes, last := FlushEntries(st, ids), Checkpoint(st.lastFlushed);
    FlushEntriesRebuild(st, ids);
    ReplayAppend(EMPTY, flushes, [last]);
    var out := Replay(EMPTY, flushes);
    ReplayOne(out, last);
    RebuiltAll(st, ids, out);
  }

  lemma RebuiltAll(st: State, ids: seq<u32>, out: State)
    requires Inv(st) && Enumerates(ids, st) && Rebuilt(st, ids, out)
    ensures Equiv(Apply(out, Checkpoint(st.lastFlushed)), st)
  {
    assert out.sstables == st.sstables && out.blockInfos == st.blockInfos;
    DistinctSameMultiset(ids, st.active);
  }

  lemma DistinctSameMultiset(a: seq<u32>, b: seq<u32>)
    requires Distinct(a) && Distinct(b) && forall x :: x in a <==> x in b
    ensures multiset(a) == multiset(b)
  {
    var self := (x: u32) => Some(x);
    SameReading(self, a, a, b, b);
  }

  // ---------------------------------------------------------------- the manifest object

  const SNAPSHOT_THRESHOLD := 500

  /** The loop of `snapshot`: one line per table, in whatever order the map is walked. */
  method SnapshotLines(st: State) returns (lines: seq<Entry>, ghost ids: seq<u32>)
    ensures Enumerates(ids, st) && forall i :: 0 <= i < |ids| ==> ids[i] in st.sstables
    ensures lines == FlushEntries(st, ids) && |lines| == |st.sstables|
  {
    lines, ids := [], [];
    var rest := st.sstables.Keys;
    while rest != {}
      invariant rest <= st.sstables.Keys && Distinct(ids)
      invariant forall id :: id in ids <==> id in st.sstables && id !in rest
      invariant forall i :: 0 <= i < |ids| ==> ids[i] in st.sstables
      invariant lines == FlushEntries(st, ids)
      invariant |ids| + |rest| == |st.sstables.Keys|
      decreases rest
    {
      var id :| id in rest;
      lines := lines + [SnapshotEntry(st, id)];
      rest := rest - {id};
      ids := ids + [id];
    }
  }

  /** The manifest file and its in-memory state. */
  class Log {
    var file: seq<Entry>
    var state: State
    var entryCount: nat

    /** Reopening would give the in-memory state, up to the order of active ids. */
    ghost predicate Valid()
      reads this
    {
      Inv(state) && Equiv(Replay(EMPTY, file), state)
    }

    constructor Open(content: seq<Entry>)
      ensures file == content && state == Replay(EMPTY, content)
      ensures (forall i :: 0 <= i < |content| ==> WellFormed(content[i])) ==> Valid()
    {
      file, entryCount := content, 0;
      var st := EMPTY;
      for i := 0 to |content|
        invariant st == Replay(EMPTY, content[..i])
      {
        assert content[..i + 1][..i] == content[..i];
        st := Apply(st, content[i]);
      }
      assert content[..|content|] == content;
      state := st;
      if forall i :: 0 <= i < |content| ==> WellFormed(content[i]) { ReplayKeepsInv(EMPTY, content); }
    }

    /** Remove an id from both maps and, with `retain`, from the list. */
    method ForgetSst(id: u32)
      modifies this`state
      ensures state == Forget(old(state), id)
    {
      state := state.(sstables := state.sstables - {id});
      state := state.(blockInfos := state.blockInfos - {id});
      var ids, kept := state.active, [];
      for i := 0 to |ids|
        invariant kept == Without(ids[..i], id)
        invariant state ==
          old(state).(sstables := old(state).sstables - {id}, blockInfos := old(state).blockInfos - {id})
      {
        assert ids[..i + 1][..i] == ids[..i];
        if ids[i] != id {
          kept := kept + [ids[i]];
        }
      }
      assert ids[..|ids|] == ids;
      state := state.(active := kept);
    }

    method AddSst(info: SstInfo)
      modifies this`state
      ensures state == AddInfo(old(state), info)
    {
      state := state.(sstables := state.sstables[info.id := info]);
      if info.id !in state.active {
        state := state.(active := state.active + [info.id]);
      }
    }

    /** `apply_entry`: the maps and the id list change in place, field by field. */
    method ApplyEntry(e: Entry)
      modifies this`state
      ensures state == Apply(old(state), e)
    {
      match e {
        case Flush(n, sst, blocks) =>
          if n > state.lastFlushed {
            state := state.(lastFlushed := n);
          }
          AddSst(sst);
          state := state.(blockInfos := state.blockInfos[sst.id := blocks]);
        case DeleteSst(id) => ForgetSst(id);
        case GcDeleteSst(id) => ForgetSst(id);
        case Compaction(removed, added, bs) =>
          for i := 0 to |removed|
            invariant state == ForgetAll(old(state), removed[..i])
          {
            assert removed[..i + 1][..i] == removed[..i];
            ForgetSst(removed[i]);
          }
          assert removed[..|removed|] == removed;
          ghost var a := state;
          for i := 0 to |added|
            invariant state == AddInfos(a, added[..i])
          {
            assert added[..i + 1][..i] == added[..i];
            AddSst(added[i]);
          }
          assert added[..|added|] == added;
          ghost var b := state;
          for i := 0 to |bs|
            invariant state == SetAllBlocks(b, bs[..i])
          {
            assert bs[..i + 1][..i] == bs[..i];
            state := state.(blockInfos := state.blockInfos[bs[i].0 := bs[i].1]);
          }
          assert bs[..|bs|] == bs;
        case Checkpoint(n) =>
          if n > state.lastFlushed {
            state := state.(lastFlushed := n);
          }
        case UpdateBloom(id, bloom) =>
          if id in state.sstables {
            var info := state.sstables[id].(bloom := Some(bloom));
            state := state.(sstables := state.sstables[id := info]);
          }
      }
    }

    method Append(e: Entry)
      modifies this
      ensures file == old(file) + [e] && state == Apply(old(state), e)
      ensures entryCount == old(entryCount) + 1
      ensures old(Valid()) && WellFormed(e) ==> Valid()
    {
      hide Apply, Inv, Equiv;
      assert (file + [e])[..|file|] == file;
      if Valid() && WellFormed(e) {
        ApplyKeepsInv(state, e);
        ApplyEquiv(Replay(EMPTY, file), state, e);
      }
      file := file + [e];
      ApplyEntry(e);
      entryCount := entryCount + 1;
    }

    method Snapshot()
      requires Valid()
      modifies this
      ensures Valid() && state == old(state) && entryCount == |state.sstables| + 1
      ensures |file| == |state.sstables| + 1
    {
      var lines, ids := SnapshotLines(state);
      SnapshotBisimulates(state, ids, []);
      assert SnapshotLog(state, ids) + [] == SnapshotLog(state, ids);
      file := lines + [Checkpoint(state.lastFlushed)];
      entryCount := |state.sstables| + 1;
    }

    method MaybeSnapshot()
      requires Valid()
      modifies this
      ensures Valid() && state == old(state)
    {
      if entryCount > SNAPSHOT_THRESHOLD { Snapshot(); }
    }
  }
}
