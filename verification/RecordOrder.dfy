/** The order of records in tables and scans: key ascending, timestamp ascending, newest
    first (`MemTable::sort`, `MergeEntry::cmp`, step 6 of `ScanIterator::build`). */
module RecordOrder {
  import opened Bytes
  import opened BigEndian
  import opened Record
  import opened Seqs

  /** What identifies a stored value: its key and its timestamp. */
  type Pair = (bytes, i64)

  function PairOf(r: InternalRecord): Pair {
    (r.key, r.ts)
  }

  predicate PairLess(a: Pair, b: Pair) {
    Less(a.0, b.0) || (a.0 == b.0 && a.1 < b.1)
  }

  predicate Before(a: InternalRecord, b: InternalRecord) {
    PairLess(PairOf(a), PairOf(b)) || (PairOf(a) == PairOf(b) && a.seqno >= b.seqno)
  }

  lemma PairTrichotomy(a: Pair, b: Pair)
    ensures PairLess(a, b) || a == b || PairLess(b, a)
    ensures PairLess(a, b) ==> a != b && !PairLess(b, a)
  {
    Trichotomy(a.0, b.0);
  }

  lemma PairTransitive(a: Pair, b: Pair, c: Pair)
    requires PairLess(a, b) && PairLess(b, c)
    ensures PairLess(a, c)
  {
    if Less(a.0, b.0) && Less(b.0, c.0) { LessTransitive(a.0, b.0, c.0); }
  }

  lemma BeforeTransitive(a: InternalRecord, b: InternalRecord, c: InternalRecord)
    requires Before(a, b) && Before(b, c)
    ensures Before(a, c)
  {
    hide PairLess;
    if PairLess(PairOf(a), PairOf(b)) && PairLess(PairOf(b), PairOf(c)) {
      PairTransitive(PairOf(a), PairOf(b), PairOf(c));
    }
  }

  lemma BeforeIsTotal()
    ensures TotalPreorder(Before)
  {
    forall a, b ensures Before(a, b) || Before(b, a) { PairTrichotomy(PairOf(a), PairOf(b)); }
    forall a, b, c | Before(a, b) && Before(b, c) ensures Before(a, c) { BeforeTransitive(a, b, c); }
  }

  /** One record per pair, in order. */
  ghost predicate StrictlyAscending(s: seq<InternalRecord>) {
    forall i, j :: 0 <= i < j < |s| ==> PairLess(PairOf(s[i]), PairOf(s[j]))
  }

  /** Strictly ascending sequences are determined by their members. */
  lemma {:induction false} AscendingDetermined(a: seq<InternalRecord>, b: seq<InternalRecord>)
    requires StrictlyAscending(a) && StrictlyAscending(b)
    requires forall r :: r in a <==> r in b
    ensures a == b
    decreases |a|
  {
    hide PairLess, StrictlyAscending;
    assert b != [] ==> b[0] in b;
    if a != [] {
      var n, m := |a| - 1, |b| - 1;
      assert a[n] in b;
      LastIsLast(a, b);
      DropLast(a);
      DropLast(b);
      assert forall r :: r in a[..n] <==> r in a && r != a[n];
      assert forall r :: r in b[..m] <==> r in b && r != b[m];
      AscendingDetermined(a[..n], b[..m]);
      assert a == a[..n] + [a[n]] && b == b[..m] + [b[m]];
    }
  }

  lemma LastIsLast(a: seq<InternalRecord>, b: seq<InternalRecord>)
    requires StrictlyAscending(a) && StrictlyAscending(b) && a != [] && b != []
    requires forall r :: r in a <==> r in b
    ensures a[|a| - 1] == b[|b| - 1]
  {
    hide PairLess;
    var n, m := |a| - 1, |b| - 1;
    assert a[n] in b && b[m] in a;
    var i :| 0 <= i < |b| && b[i] == a[n];
    var j :| 0 <= j < |a| && a[j] == b[m];
    PairTrichotomy(PairOf(a[n]), PairOf(b[m]));
  }

  lemma DropLast(s: seq<InternalRecord>)
    requires StrictlyAscending(s) && s != []
    ensures StrictlyAscending(s[..|s| - 1])
    ensures forall r :: r in s[..|s| - 1] <==> r in s && r != s[|s| - 1]
  {
    hide PairLess;
    var n := |s| - 1;
    PairTrichotomy(PairOf(s[n]), PairOf(s[n]));
    assert s == s[..n] + [s[n]];
    forall i | 0 <= i < n ensures s[i] != s[n] { assert PairLess(PairOf(s[i]), PairOf(s[n])); }
  }

  /** Filtering keeps the order. */
  lemma {:induction false} KeepAscending(s: seq<InternalRecord>, test: InternalRecord -> bool)
    requires StrictlyAscending(s)
    ensures StrictlyAscending(Keep(s, test))
  {
    hide PairLess;
    if s != [] {
      var n := |s| - 1;
      KeepAscending(s[..n], test);
      KeepMembers(s[..n], test);
      var kept := Keep(s[..n], test);
      forall i | 0 <= i < |kept| ensures PairLess(PairOf(kept[i]), PairOf(s[n])) {
        assert kept[i] in kept && kept[i] in s[..n];
      }
    }
  }
}
