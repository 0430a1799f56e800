/** The simple form that the memtables refine: a map from (key, timestamp) to the record
    written last. */
module LatestWins {
  import opened Record
  import opened RecordOrder

  /** The map of last writes. */
  function Latest(written: seq<InternalRecord>): map<Pair, InternalRecord> {
    if written == [] then map[]
    else
      var n := |written| - 1;
      Latest(written[..n])[PairOf(written[n]) := written[n]]
  }

  function LookUp(m: map<Pair, InternalRecord>, p: Pair): Option<InternalRecord> {
    if p in m then Some(m[p]) else None
  }

  ghost predicate Increasing(written: seq<InternalRecord>) {
    forall i, j :: 0 <= i < j < |written| ==> written[i].seqno < written[j].seqno
  }

  ghost predicate Has(s: seq<InternalRecord>, p: Pair) {
    exists r :: r in s && PairOf(r) == p
  }

  /** w is a record of pair p with the highest sequence number. */
  ghost predicate Newest(s: seq<InternalRecord>, p: Pair, w: InternalRecord) {
    w in s && PairOf(w) == p && forall r :: r in s && PairOf(r) == p ==> r.seqno <= w.seqno
  }

  lemma {:induction false} LatestHas(written: seq<InternalRecord>, p: Pair)
    ensures p in Latest(written) <==> Has(written, p)
    ensures p in Latest(written) ==> PairOf(Latest(written)[p]) == p && Latest(written)[p] in written
  {
    if written != [] {
      var n := |written| - 1;
      LatestHas(written[..n], p);
      assert written == written[..n] + [written[n]];
      if Has(written, p) && PairOf(written[n]) != p {
        var r :| r in written && PairOf(r) == p;
        assert r in written[..n];
      }
    }
  }

  /** With increasing sequence numbers, written last means highest sequence number. */
  lemma {:induction false} LatestIsNewest(written: seq<InternalRecord>, p: Pair, w: InternalRecord)
    requires Increasing(written)
    ensures Newest(written, p, w) <==> p in Latest(written) && Latest(written)[p] == w
  {
    if written != [] {
      var n := |written| - 1;
      var last, front := written[n], written[..n];
      LatestIsNewest(front, p, w);
      assert written == front + [last];
      assert forall r :: r in front ==> r.seqno < last.seqno;
      assert last in written;
    }
  }

  /** Sequence numbers tell records apart. */
  lemma IncreasingDistinct(written: seq<InternalRecord>, r: InternalRecord, s: InternalRecord)
    requires Increasing(written) && r in written && s in written && r.seqno == s.seqno
    ensures r == s
  {
    var i :| 0 <= i < |written| && written[i] == r;
    var j :| 0 <= j < |written| && written[j] == s;
  }

  lemma IncreasingSplit(a: seq<InternalRecord>, b: seq<InternalRecord>)
    requires Increasing(a + b)
    ensures Increasing(a) && Increasing(b)
    ensures forall r, s :: r in a && s in b ==> r.seqno < s.seqno
  {
    assert forall i :: 0 <= i < |a| ==> (a + b)[i] == a[i];
    assert forall i :: 0 <= i < |b| ==> (a + b)[|a| + i] == b[i];
  }

  lemma {:induction false} LatestAppend(a: seq<InternalRecord>, b: seq<InternalRecord>)
    ensures Latest(a + b) == Latest(a) + Latest(b)
    decreases |b|
  {
    if b == [] {
      assert a + b == a;
    } else {
      var n := |b| - 1;
      assert (a + b)[..|a| + n] == a + b[..n];
      LatestAppend(a, b[..n]);
    }
  }

  // ---------------------------------------------------------------- several tables

  function Flatten(parts: seq<seq<InternalRecord>>): seq<InternalRecord> {
    if parts == [] then [] else Flatten(parts[..|parts| - 1]) + parts[|parts| - 1]
  }

  lemma {:induction false} FlattenHolds(parts: seq<seq<InternalRecord>>, r: InternalRecord)
    ensures r in Flatten(parts) <==> exists i :: 0 <= i < |parts| && r in parts[i]
  {
    if parts != [] {
      var n := |parts| - 1;
      FlattenHolds(parts[..n], r);
      if i :| 0 <= i < |parts| && r in parts[i] { assert i < n ==> r in parts[..n][i]; }
      if i :| 0 <= i < n && r in parts[..n][i] { assert r in parts[i]; }
    }
  }

  /** How frozen tables are searched: the oldest first. */
  function OldestFirst(parts: seq<seq<InternalRecord>>, p: Pair): Option<InternalRecord> {
    if parts == [] then None
    else
      var first := Latest(parts[0]);
      if p in first then Some(first[p]) else OldestFirst(parts[1..], p)
  }

  /** `MemTables::get`: the active table, then the frozen ones. */
  function Search(parts: seq<seq<InternalRecord>>, active: seq<InternalRecord>, p: Pair): Option<InternalRecord> {
    if p in Latest(active) then Some(Latest(active)[p]) else OldestFirst(parts, p)
  }

  /** At most one frozen table has the pair. */
  ghost predicate InOnePart(parts: seq<seq<InternalRecord>>, p: Pair) {
    forall i, j :: 0 <= i < j < |parts| ==> !(Has(parts[i], p) && Has(parts[j], p))
  }

  lemma {:induction false} OldestFirstFinds(parts: seq<seq<InternalRecord>>, p: Pair) returns (i: nat)
    requires exists j :: 0 <= j < |parts| && Has(parts[j], p)
    ensures i < |parts| && Has(parts[i], p) && p in Latest(parts[i])
    ensures OldestFirst(parts, p) == Some(Latest(parts[i])[p])
    ensures forall j :: 0 <= j < i ==> !Has(parts[j], p)
  {
    LatestHas(parts[0], p);
    if Has(parts[0], p) {
      i := 0;
    } else {
      var j :| 0 <= j < |parts| && Has(parts[j], p);
      assert parts[1..][j - 1] == parts[j];
      i := OldestFirstFinds(parts[1..], p);
      assert forall k :: 1 <= k < i + 1 ==> parts[k] == parts[1..][k - 1];
      i := i + 1;
    }
  }

  lemma {:induction false} OldestFirstMisses(parts: seq<seq<InternalRecord>>, p: Pair)
    requires forall j :: 0 <= j < |parts| ==> !Has(parts[j], p)
    ensures OldestFirst(parts, p) == None
  {
    if parts != [] {
      LatestHas(parts[0], p);
      OldestFirstMisses(parts[1..], p);
    }
  }

  /** Records of a later table are newer. */
  lemma {:induction false} LaterPartNewer(parts: seq<seq<InternalRecord>>, i: nat, j: nat, r: InternalRecord,
                                          s: InternalRecord)
    requires Increasing(Flatten(parts)) && i < j < |parts| && r in parts[i] && s in parts[j]
    ensures r.seqno < s.seqno
  {
    var n := |parts| - 1;
    IncreasingSplit(Flatten(parts[..n]), parts[n]);
    if j == n {
      assert r in parts[..n][i];
      FlattenHolds(parts[..n], r);
    } else {
      LaterPartNewer(parts[..n], i, j, r, s);
    }
  }

  /** The search order of the frozen tables gives the last write exactly when no two of them
      have the pair. */
  lemma OldestFirstExact(parts: seq<seq<InternalRecord>>, p: Pair)
    requires Increasing(Flatten(parts))
    ensures OldestFirst(parts, p) == LookUp(Latest(Flatten(parts)), p) <==> InOnePart(parts, p)
  {
    hide Flatten, Latest, Increasing, OldestFirst;
    var all := Flatten(parts);
    LatestHas(all, p);
    HasFlatten(parts, p);
    if exists j :: 0 <= j < |parts| && Has(parts[j], p) {
      var i := OldestFirstFinds(parts, p);
      LatestHas(parts[i], p);
      var w := Latest(parts[i])[p];
      FlattenHolds(parts, w);
      assert Has(all, p);
      LatestIsNewest(all, p, w);
      if InOnePart(parts, p) {
        forall r | r in all && PairOf(r) == p ensures r.seqno <= w.seqno {
          FlattenHolds(parts, r);
          var j :| 0 <= j < |parts| && r in parts[j];
          assert Has(parts[j], p) && j == i;
          PartIncreasing(parts, i);
          LatestIsNewest(parts[i], p, w);
        }
      } else {
        var a, b :| 0 <= a < b < |parts| && Has(parts[a], p) && Has(parts[b], p);
        var s :| s in parts[b] && PairOf(s) == p;
        FlattenHolds(parts, s);
        LaterPartNewer(parts, i, b, w, s);
      }
    } else {
      OldestFirstMisses(parts, p);
    }
  }

  lemma HasFlatten(parts: seq<seq<InternalRecord>>, p: Pair)
    ensures Has(Flatten(parts), p) ==> exists j :: 0 <= j < |parts| && Has(parts[j], p)
  {
    hide Flatten;
    if r :| r in Flatten(parts) && PairOf(r) == p {
      FlattenHolds(parts, r);
      var j :| 0 <= j < |parts| && r in parts[j];
      assert Has(parts[j], p);
    }
  }

  lemma {:induction false} PartIncreasing(parts: seq<seq<InternalRecord>>, i: nat)
    requires Increasing(Flatten(parts)) && i < |parts|
    ensures Increasing(parts[i])
  {
    var n := |parts| - 1;
    IncreasingSplit(Flatten(parts[..n]), parts[n]);
    if i < n { PartIncreasing(parts[..n], i); }
  }

  /** A point read gives the last write exactly when the pair is in the active table or in
      at most one frozen table. */
  lemma SearchExact(parts: seq<seq<InternalRecord>>, active: seq<InternalRecord>, p: Pair)
    requires Increasing(Flatten(parts) + active)
    ensures Search(parts, active, p) == LookUp(Latest(Flatten(parts) + active), p)
            <==> (Has(active, p) || InOnePart(parts, p))
  {
    hide Flatten, Latest, Increasing, OldestFirst;
    IncreasingSplit(Flatten(parts), active);
    LatestAppend(Flatten(parts), active);
    LatestHas(active, p);
    OldestFirstExact(parts, p);
  }

  /** With two frozen tables an overwrite can be missed. */
  lemma StaleRead()
    ensures exists parts, p :: |parts| == 2 && Increasing(Flatten(parts))
                               && Search(parts, [], p) != LookUp(Latest(Flatten(parts)), p)
  {
    hide Latest, Search;
    var a := InternalRecord(1, Put, [97], 0, 0, [1], None);
    var b := InternalRecord(2, Put, [97], 0, 0, [2], None);
    FlattenTwo([a], [b]);
    hide Flatten;
    var parts := [[a], [b]];
    assert a in parts[0] && Has(parts[0], PairOf(a));
    assert b in parts[1] && Has(parts[1], PairOf(a));
    assert Flatten(parts) + [] == Flatten(parts);
    assert !InOnePart(parts, PairOf(a)) && !Has([], PairOf(a));
    SearchExact(parts, [], PairOf(a));
  }

  lemma FlattenTwo(a: seq<InternalRecord>, b: seq<InternalRecord>)
    ensures Flatten([a, b]) == a + b
  {
    assert [a, b][..1] == [a] && [a][..0] == [];
    assert Flatten([a]) == [] + a == a;
  }
}
