/** Exactly when the block search of a point read (`binary_search_block` in
    `src/block_meta_index.rs`) agrees with a search of the whole file: when no key ends one block
    and begins the next. */
module Straddling {
  import opened Bytes
  import opened BigEndian
  import opened Record
  import opened RecordOrder
  import opened BlockIndex
  import opened SstFile
  import opened PointRead

  /** The records of the one block that a point read of this key looks into. */
  function Reached(blocks: seq<Block>, id: u32, key: bytes, now: i64): Block {
    match Halve(MetasOf(id, InfosOf(blocks)), key, 0, |blocks|)
    case None => []
    case Some(m) => if Expired(m, now) || m.blockIdx >= |blocks| then [] else blocks[m.blockIdx]
  }

  /** Looking into that block answers like looking into all of them. */
  ghost predicate Agrees(blocks: seq<Block>, id: u32, p: Pair, now: i64) {
    (exists r :: r in Reached(blocks, id, p.0, now) && Answers(r, p, now))
    <==> (exists r :: InFile(blocks, r) && Answers(r, p, now))
  }

  ghost predicate AllLive(blocks: seq<Block>, now: i64) {
    forall r :: InFile(blocks, r) ==> LiveNow(r, now)
  }

  // ---------------------------------------------------------------- the halving

  /** What the halving of an interval finds among blocks that are apart. */
  lemma {:induction false} HalveFinds(ms: seq<BlockMeta>, key: bytes, lo: nat, hi: nat)
    requires lo <= hi <= |ms| && Apart(ms)
    requires forall i :: 0 <= i < lo ==> Less(ms[i].maxKey, key)
    requires forall i :: hi <= i < |ms| ==> Less(key, ms[i].minKey)
    ensures var r := Halve(ms, key, lo, hi);
            match r case Some(m) => m in ms && Spans(m, key)
                    case None => forall i :: 0 <= i < |ms| ==> !Spans(ms[i], key)
    decreases hi - lo
  {
    hide Less;
    if lo == hi {
      forall i | 0 <= i < |ms| ensures !Spans(ms[i], key) {
        Trichotomy(ms[i].maxKey, key);
        Trichotomy(key, ms[i].minKey);
      }
    } else {
      var mid := lo + (hi - lo) / 2;
      Trichotomy(ms[mid].maxKey, key);
      Trichotomy(ms[mid].minKey, key);
      if Less(ms[mid].maxKey, key) {
        AllBelow(ms, mid, key);
        HalveFinds(ms, key, mid + 1, hi);
      } else if Less(key, ms[mid].minKey) {
        AllAbove(ms, mid, key);
        HalveFinds(ms, key, lo, mid);
      }
    }
  }

  /** The halving arrives at a block of the file, or at none. */
  lemma {:induction false} HalveIn(ms: seq<BlockMeta>, key: bytes, lo: nat, hi: nat)
    requires lo <= hi <= |ms|
    ensures Halve(ms, key, lo, hi).Some? ==> Halve(ms, key, lo, hi).value in ms
    decreases hi - lo
  {
    hide Less, AtMost;
    if lo < hi {
      var mid := lo + (hi - lo) / 2;
      HalveIn(ms, key, mid + 1, hi);
      HalveIn(ms, key, lo, mid);
    }
  }

  /** So the records looked at are one block, or none. */
  lemma ReachedBlock(blocks: seq<Block>, id: u32, key: bytes, now: i64) returns (j: nat)
    requires Flushed(blocks)
    ensures Reached(blocks, id, key, now) == [] || (j < |blocks| && Reached(blocks, id, key, now) == blocks[j])
  {
    hide Flushed, InfoOf;
    var ms := MetasOf(id, InfosOf(blocks));
    HalveIn(ms, key, 0, |ms|);
    j := 0;
    if Halve(ms, key, 0, |ms|).Some? { j := Halve(ms, key, 0, |ms|).value.blockIdx; }
  }

  // ---------------------------------------------------------------- without straddling keys

  lemma AgreesWhenCut(blocks: seq<Block>, id: u32, p: Pair, now: i64)
    requires WellCut(blocks)
    ensures Agrees(blocks, id, p, now)
  {
    hide WellCut, Apart, Spans, InfoOf, Answers, Halve;
    var ms := MetasOf(id, InfosOf(blocks));
    MetasApart(blocks, id);
    HalveFinds(ms, p.0, 0, |ms|);
    match Halve(ms, p.0, 0, |ms|) {
      case None =>
        NoBlock(blocks, id, p.0, p.1, now);
      case Some(m) =>
        var i := FindIndex(ms, m);
        IndexOfBlock(blocks, id, i);
        OnlyBlock(blocks, id, i, p.0);
        if Expired(m, now) {
          ExpiredBlock(blocks, id, i, p.0, p.1, now);
        } else {
          InOneBlock(blocks, i, p, now);
        }
    }
  }

  lemma InOneBlock(blocks: seq<Block>, i: nat, p: Pair, now: i64)
    requires i < |blocks| && forall r :: InFile(blocks, r) && r.key == p.0 ==> r in blocks[i]
    ensures (exists r :: r in blocks[i] && Answers(r, p, now)) <==>
            (exists r :: InFile(blocks, r) && Answers(r, p, now))
  {
    if r :| r in blocks[i] && Answers(r, p, now) { assert InFile(blocks, r); }
    if r :| InFile(blocks, r) && Answers(r, p, now) { assert r in blocks[i]; }
  }

  // ---------------------------------------------------------------- with one

  /** Each record sits in one block. */
  lemma OneHome(blocks: seq<Block>, i: nat, j: nat, r: InternalRecord)
    requires StrictlyAscending(Joined(blocks)) && i < j < |blocks| && r in blocks[i]
    ensures r !in blocks[j]
  {
    hide Joined, PairLess;
    var front := JoinedFrom(blocks, i);
    JoinedHead(blocks, i);
    var all, rest, n := Joined(blocks), Joined(blocks[i + 1..]), |front| + |blocks[i]|;
    assert all == front + (blocks[i] + rest);
    var a :| 0 <= a < |blocks[i]| && blocks[i][a] == r;
    assert all[|front| + a] == r;
    if r in blocks[j] {
      assert blocks[i + 1..][j - i - 1] == blocks[j];
      InFileIsJoined(blocks[i + 1..], r);
      var b :| 0 <= b < |rest| && rest[b] == r;
      assert all[n + b] == r;
      PairTrichotomy(PairOf(r), PairOf(r));
    }
  }

  /** Whatever block the search arrives at, one of the two records around a straddled cut is
      not in it. */
  lemma StraddledIsMissed(blocks: seq<Block>, id: u32, i: nat, now: i64) returns (r: InternalRecord)
    requires Flushed(blocks) && i + 1 < |blocks| && Straddled(blocks, i)
    ensures InFile(blocks, r) && r !in Reached(blocks, id, r.key, now)
  {
    hide Reached, Joined, StrictlyAscending;
    var a, b := blocks[i][|blocks[i]| - 1], blocks[i + 1][0];
    var j := ReachedBlock(blocks, id, a.key, now);
    assert a in blocks[i] && b in blocks[i + 1];
    OneHome(blocks, i, i + 1, a);
    if i < j < |blocks| { OneHome(blocks, i, j, a); }
    if j < i + 1 && b in blocks[j] { OneHome(blocks, j, i + 1, b); }
    r := if a in Reached(blocks, id, a.key, now) then b else a;
  }

  lemma MissedDisagrees(blocks: seq<Block>, id: u32, r: InternalRecord, now: i64)
    requires Flushed(blocks) && AllLive(blocks, now) && InFile(blocks, r) && r !in Reached(blocks, id, r.key, now)
    ensures !Agrees(blocks, id, PairOf(r), now)
  {
    hide Reached, Joined;
    var p := PairOf(r);
    var j := ReachedBlock(blocks, id, r.key, now);
    assert Answers(r, p, now);
    forall x | x in Reached(blocks, id, p.0, now) ensures !Answers(x, p, now) {
      if PairOf(x) == p {
        assert InFile(blocks, x);
        SamePairSameRecord(blocks, x, r);
      }
    }
  }

  lemma SamePairSameRecord(blocks: seq<Block>, x: InternalRecord, r: InternalRecord)
    requires StrictlyAscending(Joined(blocks)) && InFile(blocks, x) && InFile(blocks, r) && PairOf(x) == PairOf(r)
    ensures x == r
  {
    hide Joined, StrictlyAscending;
    InFileIsJoined(blocks, x);
    InFileIsJoined(blocks, r);
    var i :| 0 <= i < |Joined(blocks)| && Joined(blocks)[i] == x;
    OnlyOne(Joined(blocks), i);
  }

  // ---------------------------------------------------------------- the theorem

  /** Over flushed files of live records, looking into one block answers every point read like
      a search of the whole file if and only if no key ends one block and begins the next. */
  lemma PointReadExactly(blocks: seq<Block>, id: u32, now: i64)
    requires Flushed(blocks) && AllLive(blocks, now)
    ensures (forall p :: Agrees(blocks, id, p, now)) <==> forall i :: 0 <= i < |blocks| - 1 ==> !Straddled(blocks, i)
  {
    hide Flushed, Agrees, AllLive, Straddled, Reached;
    if forall i :: 0 <= i < |blocks| - 1 ==> !Straddled(blocks, i) {
      forall p ensures Agrees(blocks, id, p, now) { AgreesWhenCut(blocks, id, p, now); }
    } else {
      var i :| 0 <= i < |blocks| - 1 && Straddled(blocks, i);
      var r := StraddledIsMissed(blocks, id, i, now);
      MissedDisagrees(blocks, id, r, now);
    }
  }

  /** The smallest such file: the record that ends the first block is not found. */
  lemma StraddlingKeyMissed() returns (blocks: seq<Block>, r: InternalRecord)
    ensures Flushed(blocks) && |blocks| == 2 && |Joined(blocks)| == 2
    ensures InFile(blocks, r) && r !in Reached(blocks, 0, r.key, 0)
  {
    var a := InternalRecord(0, Put, [97], 1, 9, [], None);
    var b := InternalRecord(0, Put, [97], 2, 9, [], None);
    blocks := [[a], [b]];
    assert blocks[1..] == [[b]] && [[b]][1..] == [];
    assert Joined([[b]]) == [b] + Joined([]) == [b];
    assert Joined(blocks) == [a] + Joined(blocks[1..]) == [a, b];
    hide Joined, Reached;
    r := StraddledIsMissed(blocks, 0, 0, 0);
  }
}
