/** The scan iterator (`ScanIterator` in `src/engine.rs`): a heap merge of sorted sources
    that keeps the newest record of each (key, timestamp) pair, and its single-source fast
    path. */
module ScanMerge {
  import opened Bytes
  import opened BigEndian
  import opened Record
  import opened Seqs
  import opened RecordOrder

  // ---------------------------------------------------------------- what a scan should yield

  ghost predicate Present(input: seq<seq<InternalRecord>>, r: InternalRecord) {
    exists i :: 0 <= i < |input| && r in input[i]
  }

  /** A newest record of its pair. */
  ghost predicate Highest(input: seq<seq<InternalRecord>>, w: InternalRecord) {
    Present(input, w)
    && forall r :: Present(input, r) && PairOf(r) == PairOf(w) ==> r.seqno <= w.seqno
  }

  ghost predicate HasPair(ws: seq<InternalRecord>, p: Pair) {
    exists w :: w in ws && PairOf(w) == p
  }

  /** One newest record for each pair present, in order. */
  ghost predicate Winners(input: seq<seq<InternalRecord>>, ws: seq<InternalRecord>) {
    && StrictlyAscending(ws)
    && (forall w :: w in ws ==> Highest(input, w))
    && (forall r :: Present(input, r) ==> HasPair(ws, PairOf(r)))
  }

  predicate Tombstoned(tombstones: seq<(bytes, bytes)>, k: bytes) {
    exists i :: 0 <= i < |tombstones| && AtMost(tombstones[i].0, k) && Less(k, tombstones[i].1)
  }

  predicate Visible(tombstones: seq<(bytes, bytes)>, r: InternalRecord) {
    r.op.Put? && !Tombstoned(tombstones, r.key)
  }

  function Shown(tombstones: seq<(bytes, bytes)>): InternalRecord -> bool {
    r => Visible(tombstones, r)
  }

  /** The answer is unique unless two records of one pair share a sequence number. */
  lemma WinnersDetermined(input: seq<seq<InternalRecord>>, a: seq<InternalRecord>, b: seq<InternalRecord>)
    requires Winners(input, a) && Winners(input, b)
    requires forall r, s :: Present(input, r) && Present(input, s) && PairOf(r) == PairOf(s) && r.seqno == s.seqno ==>
             r == s
    ensures a == b
  {
    hide StrictlyAscending, Present;
    forall r ensures r in a <==> r in b {
      if r in a {
        assert HasPair(b, PairOf(r));
        var w :| w in b && PairOf(w) == PairOf(r);
        assert Highest(input, r) && Highest(input, w);
      }
      if r in b {
        assert HasPair(a, PairOf(r));
        var w :| w in a && PairOf(w) == PairOf(r);
        assert Highest(input, r) && Highest(input, w);
      }
    }
    AscendingDetermined(a, b);
  }

  // ---------------------------------------------------------------- the merge on values

  /** The winners so far: newest of their pairs, covering all that has been consumed, and
      none of what remains comes before the last of them. */
  ghost predicate Merging(input: seq<seq<InternalRecord>>, sources: seq<seq<InternalRecord>>, ws: seq<InternalRecord>) {
    && StrictlyAscending(ws)
    && (forall w :: w in ws ==> Highest(input, w))
    && (forall r :: Present(input, r) ==> Present(sources, r) || HasPair(ws, PairOf(r)))
    && (forall r :: Present(sources, r) ==> Present(input, r))
    && (ws != [] ==> forall r :: Present(sources, r) ==> Before(ws[|ws| - 1], r))
  }

  /** Taking a record in: it wins unless its pair has just been won. */
  function Absorb(ws: seq<InternalRecord>, x: InternalRecord): seq<InternalRecord> {
    if ws != [] && PairOf(ws[|ws| - 1]) == PairOf(x) then ws else ws + [x]
  }

  /** The first record of every pair of a sorted source. */
  function Firsts(s: seq<InternalRecord>): seq<InternalRecord> {
    if s == [] then [] else Absorb(Firsts(s[..|s| - 1]), s[|s| - 1])
  }

  function Behead(sources: seq<seq<InternalRecord>>, i: nat): seq<seq<InternalRecord>>
    requires i < |sources| && sources[i] != []
  {
    sources[i := sources[i][1..]]
  }

  lemma BeheadPresent(sources: seq<seq<InternalRecord>>, i: nat)
    requires i < |sources| && sources[i] != []
    ensures forall r :: Present(sources, r) <==> r == sources[i][0] || Present(Behead(sources, i), r)
  {
    var rest, x := Behead(sources, i), sources[i][0];
    assert sources[i] == [x] + rest[i];
    forall r ensures Present(sources, r) <==> r == x || Present(rest, r) {
      if j :| 0 <= j < |sources| && r in sources[j] {
        assert r == x || r in rest[j];
      }
      if j :| 0 <= j < |rest| && r in rest[j] {
        assert r in sources[j];
      }
      assert x in sources[i];
    }
  }

  /** Consuming a least head keeps the winners right. */
  lemma AbsorbKeeps(input: seq<seq<InternalRecord>>, sources: seq<seq<InternalRecord>>, ws: seq<InternalRecord>, i: nat)
    requires Merging(input, sources, ws) && i < |sources| && sources[i] != []
    requires forall r :: Present(sources, r) ==> Before(sources[i][0], r)
    ensures Merging(input, Behead(sources, i), Absorb(ws, sources[i][0]))
  {
    hide Present, PairLess, StrictlyAscending, Highest;
    var x, rest := sources[i][0], Behead(sources, i);
    var ws' := Absorb(ws, x);
    BeheadPresent(sources, i);
    if ws' != ws {
      NewWinner(input, sources, ws, x);
      assert forall w :: w in ws' ==> w in ws || w == x;
    }
    forall r | Present(input, r) ensures Present(rest, r) || HasPair(ws', PairOf(r)) {
      if r == x {
        assert ws'[|ws'| - 1] in ws' && PairOf(ws'[|ws'| - 1]) == PairOf(x);
      } else if HasPair(ws, PairOf(r)) {
        var w :| w in ws && PairOf(w) == PairOf(r);
        assert w in ws';
      }
    }
  }

  lemma NewWinner(input: seq<seq<InternalRecord>>, sources: seq<seq<InternalRecord>>, ws: seq<InternalRecord>,
                  x: InternalRecord)
    requires Merging(input, sources, ws) && Present(sources, x)
    requires forall r :: Present(sources, r) ==> Before(x, r)
    requires ws != [] ==> PairOf(ws[|ws| - 1]) != PairOf(x)
    ensures StrictlyAscending(ws + [x]) && Highest(input, x)
  {
    hide Present, PairLess;
    forall i | 0 <= i < |ws| ensures PairLess(PairOf(ws[i]), PairOf(x)) {
      if i < |ws| - 1 { PairTransitive(PairOf(ws[i]), PairOf(ws[|ws| - 1]), PairOf(x)); }
    }
    forall r | Present(input, r) && PairOf(r) == PairOf(x) ensures r.seqno <= x.seqno {
      if Present(sources, r) {
        PairTrichotomy(PairOf(x), PairOf(r));
      } else {
        var w :| w in ws && PairOf(w) == PairOf(r);
        PairTrichotomy(PairOf(w), PairOf(x));
      }
    }
  }

  lemma MergingDone(input: seq<seq<InternalRecord>>, sources: seq<seq<InternalRecord>>, ws: seq<InternalRecord>)
    requires Merging(input, sources, ws) && forall i :: 0 <= i < |sources| ==> sources[i] == []
    ensures Winners(input, ws)
  {
    hide StrictlyAscending, Highest, HasPair;
    assert forall r :: !Present(sources, r);
  }

  // ---------------------------------------------------------------- the heap

  datatype MergeEntry = MergeEntry(key: bytes, ts: i64, seqno: u64, source: nat)

  datatype Ordering = Smaller | Equal | Greater {
    function Then(next: Ordering): Ordering {
      if this == Equal then next else this
    }
  }

  function CompareBytes(a: bytes, b: bytes): Ordering {
    if a == b then Equal else if Less(a, b) then Smaller else Greater
  }

  function CompareInts(a: int, b: int): Ordering {
    if a == b then Equal else if a < b then Smaller else Greater
  }

  /** `MergeEntry::cmp`: the greatest entry is the one to come out first. */
  function Compare(self: MergeEntry, other: MergeEntry): Ordering {
    CompareBytes(other.key, self.key)
      .Then(CompareInts(other.ts, self.ts))
      .Then(CompareInts(self.seqno, other.seqno))
  }

  const MEMTABLE_SOURCE: nat := 0xFFFF_FFFF_FFFF_FFFF

  function SourceId(memtable: bool, i: nat): nat {
    if memtable && i == 0 then MEMTABLE_SOURCE else i
  }

  function Slot(source: nat): nat {
    if source == MEMTABLE_SOURCE then 0 else source
  }

  function EntryOf(r: InternalRecord, source: nat): MergeEntry {
    MergeEntry(r.key, r.ts, r.seqno, source)
  }

  /** The entry is the head of one of the first n sources. */
  predicate IsHead(e: MergeEntry, sources: seq<seq<InternalRecord>>, memtable: bool, n: nat)
    requires n <= |sources|
  {
    var i := Slot(e.source);
    i < n && sources[i] != [] && e == EntryOf(sources[i][0], SourceId(memtable, i))
  }

  /** The heap holds the head of every non-empty source among the first n, once. */
  ghost predicate HeapHolds(heap: multiset<MergeEntry>, sources: seq<seq<InternalRecord>>, memtable: bool, n: nat)
    requires n <= |sources|
  {
    forall e :: heap[e] == if IsHead(e, sources, memtable, n) then 1 else 0
  }

  /** Whose head an entry is. */
  lemma HeadOf(sources: seq<seq<InternalRecord>>, memtable: bool, n: nat, i: nat)
    requires i < n <= |sources| <= MEMTABLE_SOURCE && sources[i] != []
    ensures IsHead(EntryOf(sources[i][0], SourceId(memtable, i)), sources, memtable, n)
  {}

  lemma {:induction false} HasGreatest(heap: multiset<MergeEntry>) returns (e: MergeEntry)
    requires |heap| > 0
    ensures e in heap && forall f :: f in heap ==> Compare(f, e) != Greater
    decreases |heap|
  {
    var x :| x in heap;
    var rest := heap - multiset{x};
    e := x;
    CompareReflexive(x);
    forall f | f in heap ensures f == x || f in rest {}
    hide Compare;
    if |rest| > 0 {
      var m := HasGreatest(rest);
      CompareTotal(m, x);
      if Compare(x, m) != Greater {
        e := m;
      } else {
        forall f | f in rest ensures Compare(f, x) != Greater { CompareTransitive(f, m, x); }
      }
    }
  }

  lemma CompareReflexive(e: MergeEntry)
    ensures Compare(e, e) == Equal
  {}

  lemma CompareTotal(a: MergeEntry, b: MergeEntry)
    ensures Compare(a, b) == Greater ==> Compare(b, a) == Smaller
    ensures Compare(b, a) == Greater ==> Compare(a, b) == Smaller
  {
    Trichotomy(a.key, b.key);
  }

  function RecordOf(e: MergeEntry): InternalRecord {
    InternalRecord(e.seqno, Put, e.key, e.ts, 0, [], None)
  }

  /** The heap order is the record order, reversed. */
  lemma CompareIsBefore(a: InternalRecord, i: nat, b: InternalRecord, j: nat)
    ensures Compare(EntryOf(a, i), EntryOf(b, j)) != Greater <==> Before(b, a)
  {
    Trichotomy(a.key, b.key);
  }

  lemma CompareTransitive(a: MergeEntry, b: MergeEntry, c: MergeEntry)
    requires Compare(a, b) != Greater && Compare(b, c) != Greater
    ensures Compare(a, c) != Greater
  {
    hide Before, Compare;
    var x, y, z := RecordOf(a), RecordOf(b), RecordOf(c);
    CompareIsBefore(x, a.source, y, b.source);
    CompareIsBefore(y, b.source, z, c.source);
    CompareIsBefore(x, a.source, z, c.source);
    BeforeTransitive(z, y, x);
  }

  /** The greatest entry stands for a record that comes before all that remain. */
  lemma GreatestIsLeast(heap: multiset<MergeEntry>, sources: seq<seq<InternalRecord>>, memtable: bool, e: MergeEntry)
    requires |sources| <= MEMTABLE_SOURCE
    requires HeapHolds(heap, sources, memtable, |sources|) && e in heap
    requires forall f :: f in heap ==> Compare(f, e) != Greater
    requires forall i :: 0 <= i < |sources| ==> Sorted(sources[i], Before)
    ensures IsHead(e, sources, memtable, |sources|)
    ensures forall r :: Present(sources, r) ==> Before(sources[Slot(e.source)][0], r)
  {
    hide Before, Compare;
    assert IsHead(e, sources, memtable, |sources|);
    var x := sources[Slot(e.source)][0];
    forall r | Present(sources, r) ensures Before(x, r) {
      var j :| 0 <= j < |sources| && r in sources[j];
      var y := sources[j][0];
      var f := EntryOf(y, SourceId(memtable, j));
      HeadOf(sources, memtable, |sources|, j);
      assert f in heap;
      CompareIsBefore(y, f.source, x, e.source);
      var k :| 0 <= k < |sources[j]| && sources[j][k] == r;
      if k > 0 { BeforeTransitive(x, y, r); }
    }
  }

  /** Popping a head and pushing its successor keeps the heap in step. */
  lemma HeapAdvances(heap: multiset<MergeEntry>, sources: seq<seq<InternalRecord>>, memtable: bool, e: MergeEntry)
    requires |sources| <= MEMTABLE_SOURCE
    requires HeapHolds(heap, sources, memtable, |sources|) && e in heap
    ensures IsHead(e, sources, memtable, |sources|)
    ensures var i, popped := Slot(e.source), heap - multiset{e};
            var rest := Behead(sources, i);
            HeapHolds(if rest[i] == [] then popped else popped + multiset{EntryOf(rest[i][0], e.source)},
                      rest, memtable, |rest|)
  {
    var i, popped := Slot(e.source), heap - multiset{e};
    var rest := Behead(sources, i);
    assert IsHead(e, sources, memtable, |sources|);
    var heap' := if rest[i] == [] then popped else popped + multiset{EntryOf(rest[i][0], e.source)};
    forall f ensures heap'[f] == if IsHead(f, rest, memtable, |rest|) then 1 else 0 {
      assert heap[f] == if IsHead(f, sources, memtable, |sources|) then 1 else 0;
    }
  }

  // ---------------------------------------------------------------- progress

  function Total(sources: seq<seq<InternalRecord>>): nat {
    if sources == [] then 0 else |sources[0]| + Total(sources[1..])
  }

  lemma {:induction false} BeheadTotal(sources: seq<seq<InternalRecord>>, i: nat)
    requires i < |sources| && sources[i] != []
    ensures Total(Behead(sources, i)) == Total(sources) - 1
  {
    var rest := Behead(sources, i);
    if i == 0 {
      assert rest[1..] == sources[1..];
    } else {
      BeheadTotal(sources[1..], i - 1);
      assert rest[1..] == Behead(sources[1..], i - 1);
    }
  }
}
