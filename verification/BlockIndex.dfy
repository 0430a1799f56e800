/** The block index (`src/block_meta_index.rs`): three maps over the same blocks, and queries
    by key. */
module BlockIndex {
  import opened Bytes
  import opened BigEndian
  import opened Record
  import opened Seqs
  import opened Keyspace
  import opened Bloom
  import Manifest

  type BlockInfo = Manifest.BlockInfo

  datatype BlockMeta = BlockMeta(
    sstId: u32, blockIdx: u32, minKey: bytes, maxKey: bytes, minTs: i64, maxTs: i64, maxExpire: i64)

  function MetaOf(sstId: u32, b: BlockInfo): BlockMeta {
    BlockMeta(sstId, b.blockIdx, b.minKey, b.maxKey, b.minTs, b.maxTs, b.maxExpire)
  }

  function MetasOf(sstId: u32, blocks: seq<BlockInfo>): (ms: seq<BlockMeta>)
    ensures |ms| == |blocks| && forall i :: 0 <= i < |ms| ==> ms[i] == MetaOf(sstId, blocks[i])
  {
    seq(|blocks|, i requires 0 <= i < |blocks| => MetaOf(sstId, blocks[i]))
  }

  predicate Expired(m: BlockMeta, now: i64) {
    m.maxExpire < now
  }

  /** `increment_prefix` of this file: a fixed sentinel stands for "no successor". */
  const SENTINEL: bytes := [0xEF, 0xBF, 0xBF]

  function UpperEnd(p: bytes): bytes {
    if Incrementable(p) then Increment(p) else SENTINEL
  }

  /** The part of the key map a query walks. */
  predicate Walked(f: KeyFilter, minKey: bytes) {
    match f
    case Prefix(p) => Less(minKey, UpperEnd(p))
    case Range(_, e) => Less(minKey, UpperEnd(e))
    case All => true
  }

  predicate Overlaps(f: KeyFilter, m: BlockMeta) {
    match f
    case Prefix(p) => Less(m.minKey, UpperEnd(p)) && AtMost(p, m.maxKey)
    case Range(s, e) => AtMost(m.minKey, e) && AtMost(s, m.maxKey)
    case All => true
  }

  /** The popping loop of the source. */
  method IncrementPrefix(s: bytes) returns (r: bytes)
    ensures r == UpperEnd(s)
  {
    var buf := s;
    while buf != []
      invariant Incrementable(buf) <==> Incrementable(s)
      invariant Incrementable(s) ==> Bump(buf) == Bump(s)
      decreases |buf|
    {
      var n := |buf| - 1;
      if buf[n] < 255 {
        return buf[..n] + [buf[n] + 1];
      }
      if Incrementable(buf) {
        var i :| 0 <= i < |buf| && buf[i] < 255;
        assert buf[..n][i] < 255;
      }
      buf := buf[..n];
    }
    r := [0xEF, 0xBF, 0xBF];
  }

  // ---------------------------------------------------------------- when nothing is pruned

  /** No block is passed over whose key interval holds a key that matches. */
  ghost predicate Complete(f: KeyFilter) {
    forall m: BlockMeta, k: bytes :: AtMost(m.minKey, k) && AtMost(k, m.maxKey) && Matches(f, k) ==>
      Walked(f, m.minKey) && Overlaps(f, m)
  }

  /** Conditions on the filter that a caller can check. */
  predicate HasUpperEnd(f: KeyFilter) {
    match f
    case Prefix(p) => Incrementable(p)
    case Range(s, e) => e == [] || Incrementable(e) || Less(e, s)
    case All => true
  }

  lemma BelowSentinel(a: bytes)
    requires a != [] && !Incrementable(a)
    ensures !Less(a, SENTINEL)
  {
    assert a[0] == 255;
  }

  lemma KeptWhenMatching(f: KeyFilter, m: BlockMeta, k: bytes)
    requires HasUpperEnd(f) && AtMost(m.minKey, k) && AtMost(k, m.maxKey) && Matches(f, k)
    ensures Walked(f, m.minKey) && Overlaps(f, m)
  {
    match f {
      case All =>
      case Prefix(p) =>
        PrefixRangeMeansPrefix(p, k);
        AtMostLess(m.minKey, k, Increment(p));
        AtMostTransitive(p, k, m.maxKey);
      case Range(s, e) =>
        AtMostTransitive(m.minKey, k, e);
        AtMostTransitive(s, k, m.maxKey);
        AtMostTransitive(s, k, e);
        Trichotomy(s, e);
        if Incrementable(e) {
          PrefixRangeMeansPrefix(e, e);
          AtMostLess(m.minKey, e, Increment(e));
        } else {
          assert e == [] && m.minKey == [];
        }
    }
  }

  /** A query by key passes over no block that may hold a match exactly when its upper end
      can be incremented (or cannot be matched at all). */
  lemma CompleteExactly(f: KeyFilter)
    ensures Complete(f) <==> HasUpperEnd(f)
  {
    if HasUpperEnd(f) {
      forall m: BlockMeta, k: bytes | AtMost(m.minKey, k) && AtMost(k, m.maxKey) && Matches(f, k)
        ensures Walked(f, m.minKey) && Overlaps(f, m)
      {
        KeptWhenMatching(f, m, k);
      }
    } else {
      var bound := if f.Prefix? then f.p else f.end;
      var k: bytes := if bound == [] then [255] else bound;
      var m := BlockMeta(0, 0, k, k, 0, 0, 0);
      assert !Incrementable(k);
      BelowSentinel(k);
      assert Matches(f, k) by {
        if f.Range? { Trichotomy(f.end, f.start); }
      }
      assert !Walked(f, m.minKey);
    }
  }

  /** The greater of two keys. */
  function Later(a: bytes, b: bytes): bytes {
    if Less(a, b) then b else a
  }

  /** For a filter with an upper end that is not empty as a range, a block is kept exactly when its
      key interval holds a key that matches: what is passed over holds none. */
  lemma KeptExactly(f: KeyFilter, m: BlockMeta)
    requires AtMost(m.minKey, m.maxKey)
    requires HasUpperEnd(f) && (f.Range? ==> AtMost(f.start, f.end))
    ensures Walked(f, m.minKey) && Overlaps(f, m) <==>
            exists k: bytes :: AtMost(m.minKey, k) && AtMost(k, m.maxKey) && Matches(f, k)
  {
    hide Less;
    if Walked(f, m.minKey) && Overlaps(f, m) {
      match f {
        case All => assert Matches(f, m.minKey);
        case Prefix(p) => PrefixKept(p, m);
        case Range(s, e) =>
          Trichotomy(s, m.minKey);
          var k := Later(s, m.minKey);
          assert AtMost(m.minKey, k) && AtMost(k, m.maxKey) && Matches(f, k);
      }
    }
    if k: bytes :| AtMost(m.minKey, k) && AtMost(k, m.maxKey) && Matches(f, k) {
      KeptWhenMatching(f, m, k);
    }
  }

  lemma PrefixKept(p: bytes, m: BlockMeta)
    requires AtMost(m.minKey, m.maxKey) && Incrementable(p)
    requires Less(m.minKey, Increment(p)) && AtMost(p, m.maxKey)
    ensures exists k: bytes :: AtMost(m.minKey, k) && AtMost(k, m.maxKey) && p <= k
  {
    hide Less;
    Trichotomy(p, m.minKey);
    if Less(p, m.minKey) {
      PrefixRangeMeansPrefix(p, m.minKey);
    } else {
      assert AtMost(m.minKey, p);
    }
  }

  // ---------------------------------------------------------------- the maps

  function At<K>(m: map<K, seq<BlockMeta>>, k: K): seq<BlockMeta> {
    if k in m then m[k] else []
  }

  /** `entry(k).or_default().push(b)`. */
  function Pushed<K>(m: map<K, seq<BlockMeta>>, k: K, b: BlockMeta): map<K, seq<BlockMeta>> {
    m[k := At(m, k) + [b]]
  }

  function NotOf(id: u32): BlockMeta -> bool {
    (b: BlockMeta) => b.sstId != id
  }

  /** `retain` in every entry, then drop the empty entries. */
  function Retained<K>(m: map<K, seq<BlockMeta>>, id: u32): map<K, seq<BlockMeta>> {
    map k | k in m && Keep(m[k], NotOf(id)) != [] :: Keep(m[k], NotOf(id))
  }

  function Count<K>(m: map<K, seq<BlockMeta>>, k: K, b: BlockMeta): nat {
    multiset(At(m, k))[b]
  }

  /** Rust's division truncates toward zero. */
  function TruncDiv(a: int, b: int): int
    requires b > 0
  {
    if a >= 0 then a / b else -(-a / b)
  }

  function Bucket(b: BlockMeta, width: int): int
    requires width > 0
  {
    TruncDiv(b.minTs, width)
  }

  /** The three maps hold the same blocks, each the same number of times, each under its own
      minimum key, time bucket and SST. */
  ghost predicate Agree(byKey: map<bytes, seq<BlockMeta>>, byTime: map<int, seq<BlockMeta>>,
                        sstBlocks: map<u32, seq<BlockMeta>>, width: int)
    requires width > 0
  {
    && (forall k, b :: b in At(byKey, k) ==> b.minKey == k)
    && (forall t, b :: b in At(byTime, t) ==> Bucket(b, width) == t)
    && (forall id, b :: b in At(sstBlocks, id) ==> b.sstId == id)
    && (forall b: BlockMeta :: Count(byKey, b.minKey, b) == Count(sstBlocks, b.sstId, b))
    && (forall b: BlockMeta :: Count(byTime, Bucket(b, width), b) == Count(sstBlocks, b.sstId, b))
  }

  lemma RetainedCount<K>(m: map<K, seq<BlockMeta>>, id: u32, k: K, b: BlockMeta)
    ensures Count(Retained(m, id), k, b) == if b.sstId != id then Count(m, k, b) else 0
    ensures b in At(Retained(m, id), k) ==> b in At(m, k)
  {
    KeepCount(At(m, k), NotOf(id), b);
    KeepMembers(At(m, k), NotOf(id));
  }

  lemma CountOf<K>(m: map<K, seq<BlockMeta>>, k: K, b: BlockMeta)
    ensures Count(m, k, b) == multiset(At(m, k))[b]
  {}

  lemma PushedCount<K>(m: map<K, seq<BlockMeta>>, k: K, b: BlockMeta, j: K, c: BlockMeta)
    ensures Count(Pushed(m, k, b), j, c) == Count(m, j, c) + if j == k && b == c then 1 else 0
    ensures c in At(Pushed(m, k, b), j) <==> c in At(m, j) || (j == k && c == b)
  {}

  class BlockMetaIndex {
    var byKey: map<bytes, seq<BlockMeta>>
    var byTime: map<int, seq<BlockMeta>>
    var sstBlocks: map<u32, seq<BlockMeta>>
    var blooms: map<u32, BloomFilter>
    const bucketUs: int

    ghost predicate Valid()
      reads this
    {
      bucketUs > 0 && Agree(byKey, byTime, sstBlocks, bucketUs)
    }

    constructor (bucketSecs: nat)
      requires bucketSecs > 0
      ensures Valid() && sstBlocks == map[] && blooms == map[] && bucketUs == bucketSecs * 1_000_000
    {
      byKey, byTime, sstBlocks, blooms := map[], map[], map[], map[];
      bucketUs := bucketSecs * 1_000_000;
    }

    /** The plain list gains the blocks of one SST, and the other two maps follow when its id
        is new. */
    method AddSst(sstId: u32, blocks: seq<BlockInfo>)
      requires bucketUs > 0
      modifies this`byKey, this`byTime, this`sstBlocks
      ensures sstBlocks == old(sstBlocks)[sstId := MetasOf(sstId, blocks)]
      ensures old(Valid()) && sstId !in old(sstBlocks) ==> Valid()
    {
      hide Count, Agree;
      ghost var all, sound := MetasOf(sstId, blocks), Valid() && sstId !in sstBlocks;
      if sound { FreshId(byKey, byTime, sstBlocks, bucketUs, sstId); }
      for i := 0 to |blocks|
        invariant sstBlocks == old(sstBlocks)
        invariant sound ==> Agree(byKey, byTime, sstBlocks[sstId := all[..i]], bucketUs)
      {
        var meta := MetaOf(sstId, blocks[i]);
        if sound { PushKeeps(byKey, byTime, sstBlocks, bucketUs, sstId, all, i); }
        byKey := Pushed(byKey, meta.minKey, meta);
        byTime := Pushed(byTime, TruncDiv(meta.minTs, bucketUs), meta);
      }
      assert all[..|blocks|] == all;
      sstBlocks := sstBlocks[sstId := MetasOf(sstId, blocks)];
    }

    method RemoveSst(sstId: u32)
      requires Valid()
      modifies this
      ensures Valid() && sstBlocks == old(sstBlocks) - {sstId} && blooms == old(blooms) - {sstId}
    {
      RemoveKeeps(byKey, byTime, sstBlocks, bucketUs, sstId);
      byKey := Retained(byKey, sstId);
      byTime := Retained(byTime, sstId);
      blooms := blooms - {sstId};
      sstBlocks := sstBlocks - {sstId};
    }

    /** `collect_by_key`: every unexpired block of the plain list that the walk reaches and
        that overlaps, as often as it is there, in the order of minimum keys. */
    method CollectByKey(f: KeyFilter, now: i64) returns (out: seq<BlockMeta>)
      requires Valid()
      ensures forall b :: multiset(out)[b] ==
                if Walked(f, b.minKey) && Overlaps(f, b) && !Expired(b, now) then Count(sstBlocks, b.sstId, b) else 0
      ensures forall i, j :: 0 <= i < j < |out| ==> AtMost(out[i].minKey, out[j].minKey)
    {
      hide Walked, Overlaps, Less, Keep, Collected, Count;
      out := [];
      var keys := SortedKeys(set k | k in byKey && Walked(f, k));
      assert forall i :: 0 <= i < |keys| ==> keys[i] in keys;
      NothingCollected(byKey, f, now);
      for i := 0 to |keys|
        invariant Collected(byKey, f, now, keys[..i], out)
      {
        CollectStep(byKey, f, now, keys, i, out);
        out := out + Keep(byKey[keys[i]], Wanted(f, now));
      }
      assert keys[..|keys|] == keys;
      AllCollected(byKey, f, now, keys, out);
    }
  }

  /** An index with one block, whose only key matches the prefix 255; the query collects nothing. */
  method PrunedBlock() returns (index: BlockMetaIndex, block: BlockMeta, out: seq<BlockMeta>)
    ensures fresh(index) && index.Valid() && index.sstBlocks == map[1 := [block]]
    ensures block.minKey == [255] && block.maxKey == [255] && !Expired(block, 0) && Matches(Prefix([255]), [255])
    ensures out == []
  {
    hide Agree, Count, Less;
    index := new BlockMetaIndex(60);
    var info := Manifest.BlockInfo(0, [255], [255], 0, 0, 0, 0);
    index.AddSst(1, [info]);
    block := MetaOf(1, info);
    assert MetasOf(1, [info]) == [block];
    out := index.CollectByKey(Prefix([255]), 0);
    forall b: BlockMeta ensures b !in out { NotWalked(index.sstBlocks, b, block, out); }
    NoMembers(out);
  }

  /** The only block of the index is beyond the walk. */
  lemma NotWalked(sstBlocks: map<u32, seq<BlockMeta>>, b: BlockMeta, block: BlockMeta, out: seq<BlockMeta>)
    requires sstBlocks == map[1 := [block]] && block.minKey == [255]
    requires multiset(out)[b] > 0 ==> Walked(Prefix([255]), b.minKey) && Count(sstBlocks, b.sstId, b) > 0
    ensures b !in out
  {
    BelowSentinel([255]);
    assert !Incrementable([255]);
    assert multiset(At(sstBlocks, b.sstId))[b] > 0 ==> b == block;
  }

  /** The wanted blocks of these entries, counted and in order. */
  ghost predicate Collected(byKey: map<bytes, seq<BlockMeta>>, f: KeyFilter, now: i64, keys: seq<bytes>,
                            out: seq<BlockMeta>) {
    && (forall b: BlockMeta :: multiset(out)[b] ==
          if b.minKey in keys && Wanted(f, now)(b) then Count(byKey, b.minKey, b) else 0)
    && (forall j :: 0 <= j < |out| ==> out[j].minKey in keys)
    && (forall j, l :: 0 <= j < l < |out| ==> AtMost(out[j].minKey, out[l].minKey))
  }

  lemma NothingCollected(byKey: map<bytes, seq<BlockMeta>>, f: KeyFilter, now: i64)
    ensures Collected(byKey, f, now, [], [])
  {}

  lemma CollectStep(byKey: map<bytes, seq<BlockMeta>>, f: KeyFilter, now: i64, keys: seq<bytes>, i: nat,
                    out: seq<BlockMeta>)
    requires i < |keys| && Ascending(keys) && keys[i] in byKey && Collected(byKey, f, now, keys[..i], out)
    requires forall k, b :: b in At(byKey, k) ==> b.minKey == k
    ensures Collected(byKey, f, now, keys[..i + 1], out + Keep(byKey[keys[i]], Wanted(f, now)))
  {
    hide Less, Keep, Wanted, Count, Ascending;
    var k := keys[i];
    var kept := Keep(byKey[k], Wanted(f, now));
    KeepMembers(byKey[k], Wanted(f, now));
    assert keys[..i + 1] == keys[..i] + [k];
    forall j | 0 <= j < |kept| ensures kept[j].minKey == k { assert kept[j] in At(byKey, k); }
    forall b: BlockMeta
      ensures multiset(out + kept)[b] ==
              if b.minKey in keys[..i + 1] && Wanted(f, now)(b) then Count(byKey, b.minKey, b) else 0
    {
      CountStep(byKey, f, now, keys, i, b);
      assert multiset(out + kept)[b] == multiset(out)[b] + multiset(kept)[b];
    }
    OrderStep(keys, i, out, kept);
  }

  lemma CountStep(byKey: map<bytes, seq<BlockMeta>>, f: KeyFilter, now: i64, keys: seq<bytes>, i: nat, b: BlockMeta)
    requires i < |keys| && Ascending(keys) && keys[i] in byKey
    requires forall k, b :: b in At(byKey, k) ==> b.minKey == k
    ensures multiset(Keep(byKey[keys[i]], Wanted(f, now)))[b] ==
            if b.minKey == keys[i] && Wanted(f, now)(b) then Count(byKey, b.minKey, b) else 0
    ensures keys[i] !in keys[..i]
  {
    hide Less, Keep, Wanted;
    KeepCount(byKey[keys[i]], Wanted(f, now), b);
    assert byKey[keys[i]] == At(byKey, keys[i]);
    assert b.minKey != keys[i] ==> b !in At(byKey, keys[i]);
    if j :| 0 <= j < i && keys[j] == keys[i] { AscendingDistinct(keys, i, j); }
  }

  lemma OrderStep(keys: seq<bytes>, i: nat, out: seq<BlockMeta>, kept: seq<BlockMeta>)
    requires i < |keys| && Ascending(keys)
    requires forall j :: 0 <= j < |out| ==> out[j].minKey in keys[..i]
    requires forall j, l :: 0 <= j < l < |out| ==> AtMost(out[j].minKey, out[l].minKey)
    requires forall j :: 0 <= j < |kept| ==> kept[j].minKey == keys[i]
    ensures forall j, l :: 0 <= j < l < |out + kept| ==> AtMost((out + kept)[j].minKey, (out + kept)[l].minKey)
  {
    hide Less;
    forall j, l | 0 <= j < l < |out + kept| ensures AtMost((out + kept)[j].minKey, (out + kept)[l].minKey) {
      if j < |out| <= l {
        BelowNext(keys, i, out[j].minKey);
      }
    }
  }

  lemma BelowNext(keys: seq<bytes>, i: nat, k: bytes)
    requires i < |keys| && Ascending(keys) && k in keys[..i]
    ensures Less(k, keys[i])
  {
    hide Less;
    var a :| 0 <= a < |keys[..i]| && keys[..i][a] == k;
    assert keys[a] == k;
  }

  lemma AllCollected(byKey: map<bytes, seq<BlockMeta>>, f: KeyFilter, now: i64, keys: seq<bytes>, out: seq<BlockMeta>)
    requires Collected(byKey, f, now, keys, out)
    requires forall k :: k in keys <==> k in byKey && Walked(f, k)
    ensures forall b: BlockMeta :: multiset(out)[b] ==
              if Walked(f, b.minKey) && Wanted(f, now)(b) then Count(byKey, b.minKey, b) else 0
    ensures forall i, j :: 0 <= i < j < |out| ==> AtMost(out[i].minKey, out[j].minKey)
  {
    hide Walked, Wanted, Less;
    forall b: BlockMeta
      ensures multiset(out)[b] == if Walked(f, b.minKey) && Wanted(f, now)(b) then Count(byKey, b.minKey, b) else 0
    {
      if b.minKey !in byKey { assert Count(byKey, b.minKey, b) == 0; }
    }
  }

  function Wanted(f: KeyFilter, now: i64): BlockMeta -> bool {
    (b: BlockMeta) => !Expired(b, now) && Overlaps(f, b)
  }

  lemma FreshId(byKey: map<bytes, seq<BlockMeta>>, byTime: map<int, seq<BlockMeta>>,
                sstBlocks: map<u32, seq<BlockMeta>>, width: int, id: u32)
    requires width > 0 && Agree(byKey, byTime, sstBlocks, width) && id !in sstBlocks
    ensures Agree(byKey, byTime, sstBlocks[id := []], width)
  {
    var more := sstBlocks[id := []];
    forall k ensures At(more, k) == At(sstBlocks, k) {}
    forall b: BlockMeta ensures Count(more, b.sstId, b) == Count(sstBlocks, b.sstId, b) {}
    hide Count, Bucket;
  }

  lemma PushKeeps(byKey: map<bytes, seq<BlockMeta>>, byTime: map<int, seq<BlockMeta>>,
                  sstBlocks: map<u32, seq<BlockMeta>>, width: int, id: u32, all: seq<BlockMeta>, i: nat)
    requires width > 0 && i < |all| && all[i].sstId == id
    requires Agree(byKey, byTime, sstBlocks[id := all[..i]], width)
    ensures Agree(Pushed(byKey, all[i].minKey, all[i]), Pushed(byTime, Bucket(all[i], width), all[i]),
                  sstBlocks[id := all[..i + 1]], width)
  {
    hide Pushed, Count, Bucket;
    var b, was, now := all[i], sstBlocks[id := all[..i]], sstBlocks[id := all[..i + 1]];
    assert all[..i + 1] == all[..i] + [b];
    assert now == Pushed(was, id, b) by { SamePush(sstBlocks, id, all[..i], b); }
    forall k, c ensures c in At(Pushed(byKey, b.minKey, b), k) ==> c.minKey == k {
      PushedCount(byKey, b.minKey, b, k, c);
    }
    forall t, c ensures c in At(Pushed(byTime, Bucket(b, width), b), t) ==> Bucket(c, width) == t {
      PushedCount(byTime, Bucket(b, width), b, t, c);
    }
    forall k, c ensures c in At(now, k) ==> c.sstId == k { PushedCount(was, id, b, k, c); }
    forall c: BlockMeta
      ensures Count(Pushed(byKey, b.minKey, b), c.minKey, c) == Count(now, c.sstId, c)
      ensures Count(Pushed(byTime, Bucket(b, width), b), Bucket(c, width), c) == Count(now, c.sstId, c)
    {
      PushedCount(byKey, b.minKey, b, c.minKey, c);
      PushedCount(byTime, Bucket(b, width), b, Bucket(c, width), c);
      PushedCount(was, id, b, c.sstId, c);
    }
  }

  lemma SamePush(m: map<u32, seq<BlockMeta>>, id: u32, s: seq<BlockMeta>, b: BlockMeta)
    ensures m[id := s + [b]] == Pushed(m[id := s], id, b)
  {}

  lemma RemoveKeeps(byKey: map<bytes, seq<BlockMeta>>, byTime: map<int, seq<BlockMeta>>,
                    sstBlocks: map<u32, seq<BlockMeta>>, width: int, id: u32)
    requires width > 0 && Agree(byKey, byTime, sstBlocks, width)
    ensures Agree(Retained(byKey, id), Retained(byTime, id), sstBlocks - {id}, width)
  {
    hide Retained, Bucket, Count;
    var rest := sstBlocks - {id};
    forall k ensures At(rest, k) == if k == id then [] else At(sstBlocks, k) {}
    forall b: BlockMeta ensures Count(rest, b.sstId, b) == if b.sstId == id then 0 else Count(sstBlocks, b.sstId, b) {
      CountOf(rest, b.sstId, b);
      CountOf(sstBlocks, b.sstId, b);
    }
    forall k, b ensures b in At(Retained(byKey, id), k) ==> b.minKey == k { RetainedCount(byKey, id, k, b); }
    forall t, b ensures b in At(Retained(byTime, id), t) ==> Bucket(b, width) == t { RetainedCount(byTime, id, t, b); }
    forall b: BlockMeta
      ensures Count(Retained(byKey, id), b.minKey, b) == Count(rest, b.sstId, b)
      ensures Count(Retained(byTime, id), Bucket(b, width), b) == Count(rest, b.sstId, b)
    {
      RetainedCount(byKey, id, b.minKey, b);
      RetainedCount(byTime, id, Bucket(b, width), b);
    }
  }
}
