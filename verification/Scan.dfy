/** `ScanIterator` as the object it is: sources, heap and the last pair seen change with every
    record; and `build`, which assembles the sources of a scan. */
module Scan {
  import opened Bytes
  import opened Record
  import opened Seqs
  import opened RecordOrder
  import opened ScanMerge

  class ScanIterator {
    var sources: seq<seq<InternalRecord>>
    var heap: multiset<MergeEntry>
    const tombstones: seq<(bytes, bytes)>
    var lastDedup: Option<Pair>
    const fastSource: Option<nat>

    ghost const input: seq<seq<InternalRecord>>
    ghost const memtable: bool
    /** The record that has won each pair met so far. */
    ghost var winners: seq<InternalRecord>

    ghost predicate Valid()
      reads this
    {
      && Underway(input, sources, winners)
      && lastDedup == (if winners == [] then None else Some(PairOf(winners[|winners| - 1])))
      && (fastSource.None? ==> HeapHolds(heap, sources, memtable, |sources|))
      && (fastSource.Some? ==> fastSource.value == 0 && |sources| == 1 && tombstones == [])
    }

    /** What the caller has received so far. */
    ghost function Emitted(): seq<InternalRecord>
      reads this
    {
      Keep(winners, Shown(tombstones))
    }

    ghost predicate Exhausted()
      reads this
    {
      forall i :: 0 <= i < |sources| ==> sources[i] == []
    }

    constructor (sources: seq<seq<InternalRecord>>, tombstones: seq<(bytes, bytes)>, memtable: bool, fast: bool)
      requires |sources| <= MEMTABLE_SOURCE
      requires forall i :: 0 <= i < |sources| ==> Sorted(sources[i], Before)
      requires fast ==> |sources| == 1 && tombstones == []
      ensures Valid() && Emitted() == [] && this.sources == input == sources && this.tombstones == tombstones
    {
      this.sources, this.tombstones, this.input, this.memtable := sources, tombstones, sources, memtable;
      this.lastDedup, this.winners := None, [];
      this.fastSource := if fast then Some(0) else None;
      this.heap := multiset{};
      new;
      if fastSource.None? {
        var i := 0;
        while i < |sources|
          invariant 0 <= i <= |sources| && this.sources == sources
          invariant lastDedup == None && winners == []
          invariant HeapHolds(heap, sources, memtable, i)
        {
          if sources[i] != [] {
            heap := heap + multiset{EntryOf(sources[i][0], SourceId(memtable, i))};
          }
          i := i + 1;
        }
      }
    }

    /** Take the next record of a source and put its successor on the heap. */
    method AdvanceSource(source: nat) returns (r: InternalRecord)
      requires Slot(source) < |sources| && sources[Slot(source)] != []
      modifies this`sources, this`heap
      ensures r == old(sources)[Slot(source)][0] && sources == Behead(old(sources), Slot(source))
      ensures heap == if sources[Slot(source)] == [] then old(heap)
                      else old(heap) + multiset{EntryOf(sources[Slot(source)][0], source)}
    {
      var i := Slot(source);
      r := sources[i][0];
      sources := sources[i := sources[i][1..]];
      if sources[i] != [] {
        heap := heap + multiset{EntryOf(sources[i][0], source)};
      }
    }

    /** `BinaryHeap::pop`: some greatest entry. */
    method Pop() returns (entry: MergeEntry)
      requires |heap| > 0
      modifies this`heap
      ensures entry in old(heap) && heap == old(heap) - multiset{entry}
      ensures forall f :: f in old(heap) ==> Compare(f, entry) != Greater
    {
      hide Compare;
      ghost var top := HasGreatest(heap);
      entry :| entry in heap && forall f :: f in heap ==> Compare(f, entry) != Greater;
      heap := heap - multiset{entry};
    }

    /** The next record of the answer, or None when every source is used up. */
    method Next() returns (r: Option<InternalRecord>)
      requires Valid()
      modifies this
      ensures Valid() && Total(sources) <= old(Total(sources))
      ensures r.Some? ==> Emitted() == old(Emitted()) + [r.value] && Total(sources) < old(Total(sources))
      ensures r.None? ==> Emitted() == old(Emitted()) && Exhausted()
    {
      if fastSource.Some? {
        r := NextFast();
      } else {
        r := NextMerged();
      }
    }

    /** Pop an entry and advance its source. */
    method TakeHead() returns (entry: MergeEntry, rec: InternalRecord)
      requires Underway(input, sources, winners) && HeapHolds(heap, sources, memtable, |sources|) && |heap| > 0
      modifies this`heap, this`sources, this`winners
      ensures Underway(input, sources, winners) && HeapHolds(heap, sources, memtable, |sources|)
      ensures winners == Absorb(old(winners), rec) && PairOf(rec) == (entry.key, entry.ts)
      ensures Total(sources) == old(Total(sources)) - 1
    {
      hide Underway, HeapHolds, Compare, Absorb, Total;
      ghost var heads := heap;
      entry := Pop();
      MergeStep(input, sources, winners, heads, memtable, entry);
      winners := Absorb(winners, sources[Slot(entry.source)][0]);
      rec := AdvanceSource(entry.source);
    }

    method NextFast() returns (r: Option<InternalRecord>)
      requires Valid() && fastSource.Some?
      modifies this
      ensures Valid() && Total(sources) <= old(Total(sources))
      ensures r.Some? ==> Emitted() == old(Emitted()) + [r.value] && Total(sources) < old(Total(sources))
      ensures r.None? ==> Emitted() == old(Emitted()) && Exhausted()
    {
      hide Underway, Keep, Absorb, Before;
      while sources[0] != []
        invariant Valid() && Emitted() == old(Emitted()) && Total(sources) <= old(Total(sources))
        decreases |sources[0]|
      {
        var rec := sources[0][0];
        HeadIsLeast(input, sources, winners);
        ConsumeKeeps(input, sources, winners, 0);
        AbsorbShown(winners, rec, tombstones);
        sources := Behead(sources, 0);
        winners := Absorb(winners, rec);
        if rec.op.Delete? || rec.op.DeleteRange? {
          lastDedup := Some(PairOf(rec));
          continue;
        }
        if lastDedup == Some(PairOf(rec)) {
          continue;
        }
        lastDedup := Some(PairOf(rec));
        return Some(rec);
      }
      return None;
    }

    method NextMerged() returns (r: Option<InternalRecord>)
      requires Valid() && fastSource.None?
      modifies this
      ensures Valid() && Total(sources) <= old(Total(sources))
      ensures r.Some? ==> Emitted() == old(Emitted()) + [r.value] && Total(sources) < old(Total(sources))
      ensures r.None? ==> Emitted() == old(Emitted()) && Exhausted()
    {
      hide Underway, Keep, Absorb, HeapHolds, Tombstoned, Total;
      while |heap| > 0
        invariant Valid() && Emitted() == old(Emitted()) && Total(sources) <= old(Total(sources))
        decreases Total(sources)
      {
        ghost var before := winners;
        var entry, rec := TakeHead();
        AbsorbShown(before, rec, tombstones);
        var dedup := (entry.key, entry.ts);
        if lastDedup == Some(dedup) {
          continue;
        }
        lastDedup := Some(dedup);
        if rec.op.Delete? || rec.op.DeleteRange? {
          continue;
        }
        if Tombstoned(tombstones, rec.key) {
          continue;
        }
        return Some(rec);
      }
      SourcesSorted(input, sources, winners);
      EmptyHeap(heap, sources, memtable);
      return None;
    }

    /** Everything the iterator yields: the newest record of every pair, in order, except
        deletes and records under a range tombstone. */
    method Drain() returns (out: seq<InternalRecord>)
      requires Valid() && Emitted() == []
      modifies this
      ensures Winners(input, winners) && out == Keep(winners, Shown(tombstones))
      ensures |input| == 1 ==> winners == Firsts(input[0])
    {
      out := [];
      while true
        invariant Valid() && out == Emitted()
        decreases Total(sources)
      {
        var r := Next();
        if r.None? { break; }
        out := out + [r.value];
      }
      MergingDone(input, sources, winners);
      if |input| == 1 { InStepDone(input[0], sources[0], winners); }
    }
  }

  /** With a single source the winners are the first records of its pairs. */
  ghost predicate InStep(input: seq<InternalRecord>, source: seq<InternalRecord>, ws: seq<InternalRecord>) {
    |source| <= |input| && source == input[|input| - |source|..] && ws == Firsts(input[..|input| - |source|])
  }

  lemma InStepAdvances(input: seq<InternalRecord>, source: seq<InternalRecord>, ws: seq<InternalRecord>)
    requires InStep(input, source, ws) && source != []
    ensures InStep(input, source[1..], Absorb(ws, source[0]))
  {
    var k := |input| - |source|;
    assert input[..k + 1][..k] == input[..k] && input[k] == source[0];
  }

  lemma InStepDone(input: seq<InternalRecord>, source: seq<InternalRecord>, ws: seq<InternalRecord>)
    requires InStep(input, source, ws) && source == []
    ensures ws == Firsts(input)
  {
    assert input[..|input|] == input;
  }

  /** Sorted sources, winners that are right so far. */
  ghost predicate Underway(input: seq<seq<InternalRecord>>, sources: seq<seq<InternalRecord>>,
                           ws: seq<InternalRecord>) {
    && |sources| == |input| <= MEMTABLE_SOURCE
    && (forall i :: 0 <= i < |sources| ==> Sorted(sources[i], Before))
    && Merging(input, sources, ws)
    && (|input| == 1 ==> InStep(input[0], sources[0], ws))
  }

  lemma SourcesSorted(input: seq<seq<InternalRecord>>, sources: seq<seq<InternalRecord>>, ws: seq<InternalRecord>)
    requires Underway(input, sources, ws)
    ensures |sources| == |input| <= MEMTABLE_SOURCE
    ensures forall i :: 0 <= i < |sources| ==> Sorted(sources[i], Before)
  {}

  /** Consuming a least head. */
  lemma ConsumeKeeps(input: seq<seq<InternalRecord>>, sources: seq<seq<InternalRecord>>, ws: seq<InternalRecord>,
                     i: nat)
    requires Underway(input, sources, ws) && i < |sources| && sources[i] != []
    requires forall r :: Present(sources, r) ==> Before(sources[i][0], r)
    ensures Underway(input, Behead(sources, i), Absorb(ws, sources[i][0]))
    ensures Total(Behead(sources, i)) == Total(sources) - 1
  {
    hide Merging, InStep, Before;
    AbsorbKeeps(input, sources, ws, i);
    if |input| == 1 { InStepAdvances(input[0], sources[0], ws); }
    BeheadTotal(sources, i);
  }

  /** One turn of the merge: the head that comes off the heap is consumed. */
  lemma MergeStep(input: seq<seq<InternalRecord>>, sources: seq<seq<InternalRecord>>, ws: seq<InternalRecord>,
                  heap: multiset<MergeEntry>, memtable: bool, e: MergeEntry)
    requires Underway(input, sources, ws) && HeapHolds(heap, sources, memtable, |sources|)
    requires e in heap && forall f :: f in heap ==> Compare(f, e) != Greater
    ensures Slot(e.source) < |sources| && sources[Slot(e.source)] != []
    ensures (e.key, e.ts) == PairOf(sources[Slot(e.source)][0])
    ensures var i, popped := Slot(e.source), heap - multiset{e};
            var rest := Behead(sources, i);
            && Underway(input, rest, Absorb(ws, sources[i][0])) && |rest| == |input|
            && Total(rest) == Total(sources) - 1
            && HeapHolds(if rest[i] == [] then popped else popped + multiset{EntryOf(rest[i][0], e.source)},
                         rest, memtable, |rest|)
  {
    hide Underway, HeapHolds, Compare, Absorb, Before;
    SourcesSorted(input, sources, ws);
    GreatestIsLeast(heap, sources, memtable, e);
    HeapAdvances(heap, sources, memtable, e);
    ConsumeKeeps(input, sources, ws, Slot(e.source));
  }

  lemma HeadIsLeast(input: seq<seq<InternalRecord>>, sources: seq<seq<InternalRecord>>, ws: seq<InternalRecord>)
    requires Underway(input, sources, ws) && |sources| == 1 && sources[0] != []
    ensures forall r :: Present(sources, r) ==> Before(sources[0][0], r)
  {
    hide Merging, InStep;
    forall r | Present(sources, r) ensures Before(sources[0][0], r) {
      var k :| 0 <= k < |sources[0]| && sources[0][k] == r;
    }
  }

  lemma AbsorbShown(ws: seq<InternalRecord>, x: InternalRecord, tombstones: seq<(bytes, bytes)>)
    ensures Keep(Absorb(ws, x), Shown(tombstones)) ==
            if Absorb(ws, x) != ws && Visible(tombstones, x) then Keep(ws, Shown(tombstones)) + [x]
            else Keep(ws, Shown(tombstones))
    ensures Absorb(ws, x) != []
    ensures PairOf(Absorb(ws, x)[|Absorb(ws, x)| - 1]) == PairOf(x)
    ensures Absorb(ws, x) != ws <==> !(ws != [] && PairOf(ws[|ws| - 1]) == PairOf(x))
  {
    KeepSnoc(ws, x, Shown(tombstones));
  }

  lemma EmptyHeap(heap: multiset<MergeEntry>, sources: seq<seq<InternalRecord>>, memtable: bool)
    requires |sources| <= MEMTABLE_SOURCE && |heap| == 0
    requires HeapHolds(heap, sources, memtable, |sources|)
    ensures forall i :: 0 <= i < |sources| ==> sources[i] == []
  {
    forall i | 0 <= i < |sources| ensures sources[i] == [] {
      if sources[i] != [] { HeadInHeap(heap, sources, memtable, i); }
    }
  }

  lemma HeadInHeap(heap: multiset<MergeEntry>, sources: seq<seq<InternalRecord>>, memtable: bool, i: nat)
    requires |sources| <= MEMTABLE_SOURCE && HeapHolds(heap, sources, memtable, |sources|)
    requires i < |sources| && sources[i] != []
    ensures |heap| > 0
  {
    HeadOf(sources, memtable, |sources|, i);
    assert heap[EntryOf(sources[i][0], SourceId(memtable, i))] == 1;
  }
}
