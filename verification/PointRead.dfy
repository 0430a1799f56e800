/** The point-read fast path: Bloom check, binary search over blocks, binary search inside a
    block (`query_point_inline`, `single_sst_point`, `binary_search_block` in
    `src/block_meta_index.rs`; `get_bytes`, `block_search`, `find_in_records` in
    `src/engine.rs`) refines a search of all stored records. */
module PointRead {
  import opened Bytes
  import opened BigEndian
  import opened Record
  import opened RecordOrder
  import opened BlockIndex
  import opened SstFile

  /** The decoded blocks of every SST. */
  type Files = map<u32, seq<Block>>

  ghost predicate Stored(files: Files, r: InternalRecord) {
    exists id, i :: id in files && 0 <= i < |files[id]| && r in files[id][i]
  }

  ghost predicate InFile(blocks: seq<Block>, r: InternalRecord) {
    exists i :: 0 <= i < |blocks| && r in blocks[i]
  }

  predicate LiveNow(r: InternalRecord, now: i64) {
    r.op.Put? && r.expireAt > now
  }

  /** A live record of the pair. */
  predicate Answers(r: InternalRecord, p: Pair, now: i64) {
    PairOf(r) == p && LiveNow(r, now)
  }

  /** What a search of a list of records would find. */
  ghost predicate FoundIn(records: seq<InternalRecord>, p: Pair, now: i64, r: Option<InternalRecord>) {
    match r
    case Some(w) => w in records && Answers(w, p, now)
    case None => forall s :: s in records ==> !Answers(s, p, now)
  }

  // ---------------------------------------------------------------- inside a block

  /** `find_in_records`. */
  method FindInRecords(records: seq<InternalRecord>, key: bytes, ts: i64, now: i64) returns (r: Option<InternalRecord>)
    requires StrictlyAscending(records) && forall i :: 0 <= i < |records| ==> !records[i].op.DeleteRange?
    ensures FoundIn(records, (key, ts), now, r)
  {
    hide PairLess;
    ghost var p := (key, ts);
    var lo, hi := 0, |records|;
    while lo < hi
      invariant 0 <= lo <= hi <= |records|
      invariant forall i :: 0 <= i < lo ==> PairLess(PairOf(records[i]), p)
      invariant forall i :: hi <= i < |records| ==> PairLess(p, PairOf(records[i]))
    {
      var mid := lo + (hi - lo) / 2;
      var rec := records[mid];
      PairTrichotomy(PairOf(rec), p);
      if PairOf(rec) == (key, ts) {
        OnlyOne(records, mid);
        if rec.expireAt > now && !rec.op.Delete? {
          return Some(rec);
        }
        return None;
      }
      if PairLess(PairOf(rec), (key, ts)) {
        forall i | 0 <= i < mid ensures PairLess(PairOf(records[i]), p) {
          PairTransitive(PairOf(records[i]), PairOf(rec), p);
        }
        lo := mid + 1;
      } else {
        forall i | mid < i < |records| ensures PairLess(p, PairOf(records[i])) {
          PairTransitive(p, PairOf(rec), PairOf(records[i]));
        }
        hi := mid;
      }
    }
    forall s | s in records ensures PairOf(s) != p {
      PairTrichotomy(PairOf(s), p);
      PairTrichotomy(p, PairOf(s));
    }
    return None;
  }

  /** A pair occurs once in a strictly ascending sequence. */
  lemma OnlyOne(records: seq<InternalRecord>, i: nat)
    requires StrictlyAscending(records) && i < |records|
    ensures forall s :: s in records && PairOf(s) == PairOf(records[i]) ==> s == records[i]
  {
    hide PairLess;
    forall s | s in records && PairOf(s) == PairOf(records[i]) ensures s == records[i] {
      var j :| 0 <= j < |records| && records[j] == s;
      PairTrichotomy(PairOf(s), PairOf(records[i]));
      PairTrichotomy(PairOf(records[i]), PairOf(s));
    }
  }

  // ---------------------------------------------------------------- over blocks

  predicate Spans(m: BlockMeta, key: bytes) {
    AtMost(m.minKey, key) && AtMost(key, m.maxKey)
  }

  /** Key intervals in order, without overlap. */
  ghost predicate Apart(blocks: seq<BlockMeta>) {
    (forall i :: 0 <= i < |blocks| ==> AtMost(blocks[i].minKey, blocks[i].maxKey))
    && forall i, j :: 0 <= i < j < |blocks| ==> Less(blocks[i].maxKey, blocks[j].minKey)
  }

  /** The block that the halving of [lo, hi) arrives at. */
  function Halve(blocks: seq<BlockMeta>, key: bytes, lo: nat, hi: nat): Option<BlockMeta>
    requires lo <= hi <= |blocks|
    decreases hi - lo
  {
    if lo == hi then
      if lo < |blocks| && AtMost(blocks[lo].minKey, key)
          && AtMost(key, blocks[lo].maxKey) then Some(blocks[lo]) else None
    else
      var mid := lo + (hi - lo) / 2;
      if Less(blocks[mid].maxKey, key) then Halve(blocks, key, mid + 1, hi)
      else if Less(key, blocks[mid].minKey) then Halve(blocks, key, lo, mid)
      else Some(blocks[mid])
  }

  /** `binary_search_block`: a block that spans the key, and none only if there is none. */
  method BinarySearchBlock(blocks: seq<BlockMeta>, key: bytes) returns (r: Option<BlockMeta>)
    ensures r == Halve(blocks, key, 0, |blocks|)
    ensures r.Some? ==> r.value in blocks && Spans(r.value, key)
    ensures r.None? && Apart(blocks) ==> forall i :: 0 <= i < |blocks| ==> !Spans(blocks[i], key)
  {
    hide Less;
    var lo, hi := 0, |blocks|;
    while lo < hi
      invariant 0 <= lo <= hi <= |blocks|
      invariant Halve(blocks, key, 0, |blocks|) == Halve(blocks, key, lo, hi)
      invariant Apart(blocks) ==> forall i :: 0 <= i < lo ==> Less(blocks[i].maxKey, key)
      invariant Apart(blocks) ==> forall i :: hi <= i < |blocks| ==> Less(key, blocks[i].minKey)
    {
      var mid := lo + (hi - lo) / 2;
      var b := blocks[mid];
      Trichotomy(b.maxKey, key);
      Trichotomy(b.minKey, key);
      if Less(b.maxKey, key) {
        if Apart(blocks) { AllBelow(blocks, mid, key); }
        lo := mid + 1;
      } else if Less(key, b.minKey) {
        if Apart(blocks) { AllAbove(blocks, mid, key); }
        hi := mid;
      } else {
        return Some(b);
      }
    }
    if lo < |blocks| && AtMost(blocks[lo].minKey, key) && AtMost(key, blocks[lo].maxKey) {
      return Some(blocks[lo]);
    }
    forall i | Apart(blocks) && 0 <= i < |blocks| ensures !Spans(blocks[i], key) {
      Trichotomy(blocks[i].maxKey, key);
      Trichotomy(key, blocks[i].minKey);
    }
    return None;
  }

  lemma AllBelow(blocks: seq<BlockMeta>, mid: nat, key: bytes)
    requires Apart(blocks) && mid < |blocks| && Less(blocks[mid].maxKey, key)
    ensures forall i :: 0 <= i <= mid ==> Less(blocks[i].maxKey, key)
  {
    hide Less;
    forall i | 0 <= i < mid ensures Less(blocks[i].maxKey, key) {
      AtMostLess(blocks[mid].minKey, blocks[mid].maxKey, key);
      LessTransitive(blocks[i].maxKey, blocks[mid].minKey, key);
    }
  }

  lemma AllAbove(blocks: seq<BlockMeta>, mid: nat, key: bytes)
    requires Apart(blocks) && mid < |blocks| && Less(key, blocks[mid].minKey)
    ensures forall i :: mid <= i < |blocks| ==> Less(key, blocks[i].minKey)
  {
    hide Less;
    forall i | mid < i < |blocks| ensures Less(key, blocks[i].minKey) {
      LessAtMost(key, blocks[mid].minKey, blocks[mid].maxKey);
      LessTransitive(key, blocks[mid].maxKey, blocks[i].minKey);
    }
  }

  // ---------------------------------------------------------------- files as flushed

  /** Flushed from sorted records with each pair stored once and no range deletes. */
  ghost predicate Flushed(blocks: seq<Block>) {
    && |blocks| < 0x1_0000_0000
    && (forall i :: 0 <= i < |blocks| ==> blocks[i] != [])
    && StrictlyAscending(Joined(blocks))
    && (forall r :: r in Joined(blocks) ==> !r.op.DeleteRange?)
  }

  /** And cut so that adjacent blocks share no key. */
  ghost predicate WellCut(blocks: seq<Block>) {
    Flushed(blocks) && forall i :: 0 <= i < |blocks| - 1 ==> !Straddled(blocks, i)
  }

  /** One key ends block i and begins the next. */
  predicate Straddled(blocks: seq<Block>, i: nat)
    requires i + 1 < |blocks|
  {
    blocks[i] != [] && blocks[i + 1] != [] && blocks[i][|blocks[i]| - 1].key == blocks[i + 1][0].key
  }

  /** The blocks from i on end the joined sequence. */
  lemma {:induction false} JoinedFrom(blocks: seq<Block>, i: nat) returns (front: seq<InternalRecord>)
    requires i <= |blocks|
    ensures Joined(blocks) == front + Joined(blocks[i..])
  {
    if i == 0 {
      front := [];
      assert blocks[0..] == blocks;
    } else {
      var rest := JoinedFrom(blocks[1..], i - 1);
      assert blocks[1..][i - 1..] == blocks[i..];
      front := blocks[0] + rest;
    }
  }

  lemma JoinedHead(blocks: seq<Block>, i: nat)
    requires i < |blocks|
    ensures Joined(blocks[i..]) == blocks[i] + Joined(blocks[i + 1..])
  {
    assert blocks[i..][1..] == blocks[i + 1..];
  }

  lemma BlockAscending(blocks: seq<Block>, i: nat)
    requires WellCut(blocks) && i < |blocks|
    ensures StrictlyAscending(blocks[i])
    ensures forall j :: 0 <= j < |blocks[i]| ==> !blocks[i][j].op.DeleteRange?
    ensures i + 1 < |blocks| ==> Less(blocks[i][|blocks[i]| - 1].key, blocks[i + 1][0].key)
  {
    hide Joined, PairLess;
    var front := JoinedFrom(blocks, i);
    var all, k, n := Joined(blocks), |front|, |blocks[i]|;
    JoinedHead(blocks, i);
    assert forall j :: 0 <= j < n ==> blocks[i][j] == all[k + j];
    if i + 1 < |blocks| {
      JoinedHead(blocks, i + 1);
      assert all[k + n] == blocks[i + 1][0] && !Straddled(blocks, i);
      assert PairLess(PairOf(all[k + n - 1]), PairOf(all[k + n]));
      PairKeys(PairOf(all[k + n - 1]), PairOf(all[k + n]));
    }
  }

  lemma PairKeys(a: Pair, b: Pair)
    requires PairLess(a, b)
    ensures AtMost(a.0, b.0)
  {}

  /** Inside a block the keys lie between the first and the last. */
  lemma BlockSpans(blocks: seq<Block>, i: nat, id: u32, r: InternalRecord)
    requires WellCut(blocks) && i < |blocks| && r in blocks[i]
    ensures Spans(MetasOf(id, InfosOf(blocks))[i], r.key)
  {
    hide WellCut, PairLess, MaxExpire, MinExpire, MaxTs, MinTs;
    BlockAscending(blocks, i);
    var b := blocks[i];
    var j :| 0 <= j < |b| && b[j] == r;
    if j > 0 { PairKeys(PairOf(b[0]), PairOf(r)); }
    if j < |b| - 1 { PairKeys(PairOf(r), PairOf(b[|b| - 1])); }
  }

  lemma MetasApart(blocks: seq<Block>, id: u32)
    requires WellCut(blocks)
    ensures Apart(MetasOf(id, InfosOf(blocks)))
  {
    hide MaxExpire, MinExpire, MaxTs, MinTs, Less, PairLess, Joined;
    var ms := MetasOf(id, InfosOf(blocks));
    forall i | 0 <= i < |ms| ensures AtMost(ms[i].minKey, ms[i].maxKey) {
      BlockSpans(blocks, i, id, blocks[i][0]);
    }
    forall i, j | 0 <= i < j < |ms| ensures Less(ms[i].maxKey, ms[j].minKey) {
      FarApart(blocks, i, j);
    }
  }

  lemma FirstLast(blocks: seq<Block>, i: nat)
    requires WellCut(blocks) && i < |blocks|
    ensures blocks[i] != [] && AtMost(blocks[i][0].key, blocks[i][|blocks[i]| - 1].key)
  {
    hide Less, PairLess, Joined, AtMost;
    BlockSpans(blocks, i, 0, blocks[i][0]);
  }

  lemma {:induction false} FarApart(blocks: seq<Block>, i: nat, j: nat)
    requires WellCut(blocks) && i < j < |blocks|
    ensures blocks[i] != [] && blocks[j] != [] && Less(blocks[i][|blocks[i]| - 1].key, blocks[j][0].key)
    decreases j - i
  {
    hide Less, AtMost, WellCut, StrictlyAscending;
    FirstLast(blocks, i);
    FirstLast(blocks, j);
    BlockAscending(blocks, j - 1);
    if i < j - 1 {
      FarApart(blocks, i, j - 1);
      FirstLast(blocks, j - 1);
      var b := blocks[j - 1];
      AtMostLess(b[0].key, b[|b| - 1].key, blocks[j][0].key);
      LessTransitive(blocks[i][|blocks[i]| - 1].key, b[0].key, blocks[j][0].key);
    }
  }

  /** The block a search should read is found, and no other block has the key. */
  lemma OnlyBlock(blocks: seq<Block>, id: u32, i: nat, key: bytes)
    requires WellCut(blocks) && i < |blocks| && Spans(MetasOf(id, InfosOf(blocks))[i], key)
    ensures forall r :: InFile(blocks, r) && r.key == key ==> r in blocks[i]
  {
    hide WellCut, Less, InfoOf;
    var ms := MetasOf(id, InfosOf(blocks));
    MetasApart(blocks, id);
    forall r | InFile(blocks, r) && r.key == key ensures r in blocks[i] {
      var j :| 0 <= j < |blocks| && r in blocks[j];
      BlockSpans(blocks, j, id, r);
      if i < j { SpansApart(ms[i], ms[j], key); }
      if j < i { SpansApart(ms[j], ms[i], key); }
    }
  }

  lemma SpansApart(a: BlockMeta, b: BlockMeta, key: bytes)
    requires Less(a.maxKey, b.minKey)
    ensures !(Spans(a, key) && Spans(b, key))
  {
    if Spans(a, key) && Spans(b, key) {
      AtMostLess(key, a.maxKey, b.minKey);
      Trichotomy(key, b.minKey);
    }
  }

  // ---------------------------------------------------------------- the whole read

  /** The index describes the files, and its filters know their keys. */
  ghost predicate Describes(sstBlocks: map<u32, seq<BlockMeta>>, files: Files) {
    && sstBlocks.Keys == files.Keys
    && forall id :: id in files ==> WellCut(files[id]) && sstBlocks[id] == MetasOf(id, InfosOf(files[id]))
  }

  ghost predicate FilterKnows(inserted: set<bytes>, blocks: seq<Block>) {
    forall r :: InFile(blocks, r) ==> r.key in inserted
  }

  /** What a search of one file would find. */
  ghost predicate FoundInFile(blocks: seq<Block>, p: Pair, now: i64, r: Option<InternalRecord>) {
    match r
    case Some(w) => InFile(blocks, w) && Answers(w, p, now)
    case None => forall s :: InFile(blocks, s) ==> !Answers(s, p, now)
  }

  /** `block_search`, once the block has been decoded. */
  method BlockSearch(files: Files, sstBlocks: map<u32, seq<BlockMeta>>, key: bytes, ts: i64, now: i64, m: BlockMeta)
    returns (r: Option<InternalRecord>)
    requires Describes(sstBlocks, files) && m.sstId in sstBlocks && m in sstBlocks[m.sstId] && Spans(m, key)
    ensures FoundInFile(files[m.sstId], (key, ts), now, r)
  {
    hide WellCut, Spans, InfoOf;
    ghost var id, i := m.sstId, FindIndex(sstBlocks[m.sstId], m);
    ghost var blocks := files[id];
    IndexOfBlock(blocks, id, i);
    OnlyBlock(blocks, id, i, key);
    BlockAscending(blocks, i);
    r := FindInRecords(files[m.sstId][m.blockIdx], key, ts, now);
    if r.None? {
      forall s | InFile(blocks, s) ensures !Answers(s, (key, ts), now) {
        assert s.key == key ==> s in blocks[i];
      }
    }
  }

  ghost function FindIndex(ms: seq<BlockMeta>, m: BlockMeta): (i: nat)
    requires m in ms
    ensures i < |ms| && ms[i] == m
  {
    var i :| 0 <= i < |ms| && ms[i] == m; i
  }

  lemma IndexOfBlock(blocks: seq<Block>, id: u32, i: nat)
    requires WellCut(blocks) && i < |blocks|
    ensures MetasOf(id, InfosOf(blocks))[i].blockIdx == i
  {
    hide Joined, StrictlyAscending, MinTs, MaxTs, MinExpire, MaxExpire;
  }

  /** An expired block holds nothing that lives. */
  lemma ExpiredBlock(blocks: seq<Block>, id: u32, i: nat, key: bytes, ts: i64, now: i64)
    requires WellCut(blocks) && i < |blocks|
    requires var m := MetasOf(id, InfosOf(blocks))[i]; Spans(m, key) && Expired(m, now)
    ensures FoundInFile(blocks, (key, ts), now, None)
  {
    hide WellCut, Spans;
    OnlyBlock(blocks, id, i, key);
    forall s | InFile(blocks, s) ensures !Answers(s, (key, ts), now) {
      if s.key == key { assert s in blocks[i] && s.expireAt <= MaxExpire(blocks[i]); }
    }
  }

  lemma NoBlock(blocks: seq<Block>, id: u32, key: bytes, ts: i64, now: i64)
    requires WellCut(blocks)
    requires forall i :: 0 <= i < |blocks| ==> !Spans(MetasOf(id, InfosOf(blocks))[i], key)
    ensures FoundInFile(blocks, (key, ts), now, None)
  {
    hide WellCut, Spans;
    forall s | InFile(blocks, s) ensures !Answers(s, (key, ts), now) {
      var i :| 0 <= i < |blocks| && s in blocks[i];
      BlockSpans(blocks, i, id, s);
    }
  }

  /** One SST: the block that spans the key, unless it has expired. */
  method SearchSst(files: Files, sstBlocks: map<u32, seq<BlockMeta>>, id: u32, key: bytes, ts: i64, now: i64)
    returns (r: Option<InternalRecord>)
    requires Describes(sstBlocks, files) && id in sstBlocks
    ensures FoundInFile(files[id], (key, ts), now, r)
  {
    hide WellCut, Spans, InfoOf, FoundInFile;
    ghost var blocks := files[id];
    MetasApart(blocks, id);
    var found := BinarySearchBlock(sstBlocks[id], key);
    if found.None? {
      NoBlock(blocks, id, key, ts, now);
      return None;
    }
    if Expired(found.value, now) {
      ExpiredBlock(blocks, id, FindIndex(sstBlocks[id], found.value), key, ts, now);
      return None;
    }
    assert found.value.sstId == id;
    r := BlockSearch(files, sstBlocks, key, ts, now, found.value);
  }

  /** `single_sst_point`: with exactly one SST, the block that the halving arrives at, unless it
      has expired. */
  method SingleSstPoint(sstBlocks: map<u32, seq<BlockMeta>>, key: bytes, now: i64) returns (r: Option<BlockMeta>)
    ensures |sstBlocks| != 1 ==> r.None?
    ensures forall id :: |sstBlocks| == 1 && id in sstBlocks ==>
              var found := Halve(sstBlocks[id], key, 0, |sstBlocks[id]|);
              r == if found.Some? && !Expired(found.value, now) then found else None
    ensures r.Some? ==> exists id :: id in sstBlocks && r.value in sstBlocks[id] && Spans(r.value, key)
  {
    hide Spans, Halve;
    if |sstBlocks| != 1 {
      return None;
    }
    assert sstBlocks.Keys != {};
    var id :| id in sstBlocks;
    OneKey(sstBlocks, id);
    var found := BinarySearchBlock(sstBlocks[id], key);
    if found.Some? && !Expired(found.value, now) {
      return found;
    }
    return None;
  }

  lemma OneKey<V>(m: map<u32, V>, id: u32)
    requires |m| == 1 && id in m
    ensures forall j :: j in m ==> j == id
  {
    assert |m.Keys - {id}| == 0;
    assert forall j :: j in m ==> j == id || j in m.Keys - {id};
  }

  lemma LeastId(ids: set<u32>) returns (id: u32)
    requires ids != {}
    ensures id in ids && forall j :: j in ids ==> id <= j
    decreases |ids|
  {
    var x :| x in ids;
    id := x;
    var rest := ids - {x};
    assert forall j :: j in ids ==> j == x || j in rest;
    if rest != {} {
      var least := LeastId(rest);
      if least < x { id := least; }
    }
  }

  /** What a search of everything stored would find. */
  ghost predicate FoundAnywhere(files: Files, p: Pair, now: i64, r: Option<InternalRecord>) {
    match r
    case Some(w) => Stored(files, w) && Answers(w, p, now)
    case None => forall s :: Stored(files, s) ==> !Answers(s, p, now)
  }

  /** `get_bytes` below the memtables finds a live record if and only if a search of all
      records of all SSTs would. */
  method GetBytes(files: Files, index: BlockMetaIndex, key: bytes, ts: i64,
                  now: i64) returns (r: Option<InternalRecord>)
    requires Describes(index.sstBlocks, files)
    requires forall id :: id in index.blooms ==> index.blooms[id].Valid()
    requires forall id :: id in index.blooms && id in files ==> FilterKnows(index.blooms[id].inserted, files[id])
    ensures FoundAnywhere(files, (key, ts), now, r)
  {
    hide WellCut, Spans, InfoOf, Answers;
    var single := SingleSstPoint(index.sstBlocks, key, now);
    if single.Some? {
      ghost var only :| only in index.sstBlocks && single.value in index.sstBlocks[only] && Spans(single.value, key);
      r := BlockSearch(files, index.sstBlocks, key, ts, now, single.value);
      OneFile(files, only, (key, ts), now, r);
      return;
    }
    var todo := index.sstBlocks.Keys;
    while todo != {}
      invariant todo <= files.Keys
      invariant forall id :: id in files && id !in todo ==> FoundInFile(files[id], (key, ts), now, None)
      decreases |todo|
    {
      ghost var least := LeastId(todo);
      var id :| id in todo && forall j :: j in todo ==> id <= j;
      todo := todo - {id};
      r := CheckSst(files, index, id, key, ts, now);
      if r.Some? {
        return;
      }
    }
    return None;
  }

  /** One SST: not searched when its filter does not know the key. */
  method CheckSst(files: Files, index: BlockMetaIndex, id: u32, key: bytes, ts: i64,
                  now: i64) returns (r: Option<InternalRecord>)
    requires Describes(index.sstBlocks, files) && id in files
    requires id in index.blooms ==> index.blooms[id].Valid() && FilterKnows(index.blooms[id].inserted, files[id])
    ensures FoundInFile(files[id], (key, ts), now, r)
  {
    hide WellCut, Spans, InfoOf, Answers;
    if id in index.blooms {
      var may := index.blooms[id].MayContain(key);
      if !may {
        UnknownKey(files[id], index.blooms[id].inserted, key, ts, now);
        return None;
      }
    }
    r := SearchSst(files, index.sstBlocks, id, key, ts, now);
  }

  lemma UnknownKey(blocks: seq<Block>, inserted: set<bytes>, key: bytes, ts: i64, now: i64)
    requires FilterKnows(inserted, blocks) && key !in inserted
    ensures FoundInFile(blocks, (key, ts), now, None)
  {}

  lemma OneFile(files: Files, id: u32, p: Pair, now: i64, r: Option<InternalRecord>)
    requires |files| == 1 && id in files && FoundInFile(files[id], p, now, r)
    ensures FoundAnywhere(files, p, now, r)
  {
    hide Answers;
    assert |files.Keys - {id}| == 0;
    assert forall j :: j in files ==> j == id || j in files.Keys - {id};
  }

  // ---------------------------------------------------------------- flushed files meet the hypotheses

  lemma {:induction false} ChunksNotEmpty(records: seq<InternalRecord>, n: nat)
    requires n > 0
    ensures forall i :: 0 <= i < |Chunks(records, n)| ==> Chunks(records, n)[i] != []
    decreases |records|
  {
    if |records| > n { ChunksNotEmpty(records[n..], n); }
  }

  lemma {:induction false} InFileIsJoined(blocks: seq<Block>, r: InternalRecord)
    requires InFile(blocks, r)
    ensures r in Joined(blocks)
  {
    var i :| 0 <= i < |blocks| && r in blocks[i];
    if i > 0 {
      assert r in blocks[1..][i - 1];
      InFileIsJoined(blocks[1..], r);
    }
  }

  /** A flush of sorted records with each pair once is well cut as soon as no key straddles
      two blocks, and a filter over the records' keys knows them all. */
  lemma FlushedWellCut(records: seq<InternalRecord>, blockSize: nat, inserted: set<bytes>)
    requires StrictlyAscending(records) && forall r :: r in records ==> !r.op.DeleteRange?
    requires forall i :: 0 <= i < |records| ==> records[i].key in inserted
    ensures var blocks := Chunks(records, BlockLen(blockSize));
            && FilterKnows(inserted, blocks)
            && (WellCut(blocks) <==>
                  |blocks| < 0x1_0000_0000 && forall i :: 0 <= i < |blocks| - 1 ==> !Straddled(blocks, i))
  {
    hide Chunks, Joined, StrictlyAscending;
    var blocks := Chunks(records, BlockLen(blockSize));
    ChunksJoin(records, BlockLen(blockSize));
    ChunksNotEmpty(records, BlockLen(blockSize));
    forall r | InFile(blocks, r) ensures r.key in inserted { InFileIsJoined(blocks, r); }
  }
}
