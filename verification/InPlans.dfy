/** Query plans whose first index field has an `In` filter (`src/jsondb/query.rs`).  The planner
    drops the separator that ends the bare index prefix, so the scan reads the entries of every
    index of the store whose name extends the chosen one. */
module InPlans {
  import opened Bytes
  import opened Record
  import opened Seqs
  import opened Json
  import opened Encoding
  import opened Keyspace
  import opened Store
  import opened Lookup
  import opened Query
  import opened PlanCounts

  predicate StartsIn(filters: seq<Filter>, paths: seq<bytes>) {
    paths != [] && FirstOn(filters, paths[0]).Some? && FirstOn(filters, paths[0]).value.WhereIn?
  }

  /** The bare index prefix without its last separator. */
  function Base(store: bytes, name: bytes): bytes {
    [IDX_PREFIX] + store + [SEP] + name
  }

  lemma PlanKeysIn(e: Engine, filters: seq<Filter>, store: bytes, idx: IndexDef)
    requires StartsIn(filters, idx.keyPaths)
    ensures PlanKeys(e, filters, store, idx) == PrefixScan(e, Base(store, idx.name))
  {
    hide PrefixScan, FirstOn;
    var pfx := IdxPrefix(store, idx.name);
    assert pfx == Base(store, idx.name) + [SEP] && pfx[..|pfx| - 1] == Base(store, idx.name);
  }

  /** It leads to the indexes of the store whose names extend the given one. */
  lemma BaseMeansName(store: bytes, name: bytes, s: bytes, other: bytes, rest: bytes)
    requires ValidName(store) && ValidName(name) && ValidName(s) && ValidName(other)
    ensures Base(store, name) <= IdxPrefix(s, other) + rest <==> s == store && name <= other
  {
    var k, base := IdxPrefix(s, other) + rest, Base(store, name);
    assert k == [IDX_PREFIX] + s + [SEP] + (other + [SEP] + rest);
    if base <= k {
      var x := k[|base|..];
      assert k == [IDX_PREFIX] + store + [SEP] + (name + x);
      assert k[1..] == store + [SEP] + (name + x) && k[1..] == s + [SEP] + (other + [SEP] + rest);
      ComponentCut(store, name + x, s, other + [SEP] + rest);
      NameUnder(name, other, rest, x);
    }
    if s == store && name <= other {
      assert k == base + (other[|name|..] + [SEP] + rest);
    }
  }

  lemma NameUnder(name: bytes, other: bytes, rest: bytes, x: bytes)
    requires ValidName(name) && name + x == other + [SEP] + rest
    ensures name <= other
  {
    hide ValidName;
    var all := other + [SEP] + rest;
    assert all[|other|] == SEP && all[..|name|] == name && all[..|other|] == other;
    SepInside(all, |other|, |name|);
    ValidNameNulFree(name);
  }

  lemma SepInside(s: bytes, m: nat, n: nat)
    requires m < |s| && n <= |s| && s[m] == SEP
    ensures m < n ==> SEP in s[..n]
  {
    if m < n { assert s[..n][m] == SEP; }
  }

  /** Index i of the store is read by a plan on `name`. */
  predicate Read(idxs: seq<IndexDef>, name: bytes, i: nat) {
    i < |idxs| && name <= idxs[i].name
  }

  /** The entries of a document in the indexes that are read: which index, and the encoded row. */
  function EntriesIn(idxs: seq<IndexDef>, name: bytes, doc: Json): set<(nat, bytes)> {
    set i: nat, r: nat | i < |idxs| && name <= idxs[i].name && r < |Rows(doc, idxs[i])| ::
      (i, EncodeRow(Rows(doc, idxs[i])[r]))
  }

  // ---------------------------------------------------------------- scanned entries

  /** Every scanned key is an entry of an index that is read. */
  lemma ScannedEntry(db: Db, store: bytes, name: bytes, k: bytes) returns (i: nat, r: nat)
    requires Consistent(db) && store in db.schema && ValidName(name)
    requires k in db.engine && Base(store, name) <= k
    ensures Read(db.schema[store].indexes, name, i) && db.engine[k].Ref?
    ensures Entry(db, store, db.schema[store].indexes[i], db.engine[k].pk, r, k)
  {
    assert HasTag(k, IDX_PREFIX);
    assert ValidName(store) by { assert ValidDef(db.schema[store]); }
    hide Consistent, Base;
    var s, p := OwnerOf(db, k);
    var def, doc := db.schema[s], Live(db.engine, s, p).value;
    KeysOfMember(s, def.indexes, p, doc, k);
    var a, b :| IsRowKey(s, def.indexes, p, doc, k, a, b);
    i, r := a, b;
    assert ValidIndex(def.indexes[i]);
    var row := Rows(doc, def.indexes[i])[r];
    IdxKeyShape(s, def.indexes[i].name, row, p);
    BaseMeansName(store, name, s, def.indexes[i].name, Terminated(row) + p);
  }

  /** An entry of a document in an index that is read is scanned. */
  lemma EntryScanned(db: Db, store: bytes, name: bytes, i: nat, p: bytes, r: nat, k: bytes)
    requires Consistent(db) && store in db.schema && ValidName(name)
    requires Read(db.schema[store].indexes, name, i) && Entry(db, store, db.schema[store].indexes[i], p, r, k)
    ensures k in PrefixScan(db.engine, Base(store, name)) && k in db.engine && db.engine[k] == Ref(p)
  {
    var idx, doc := db.schema[store].indexes[i], Live(db.engine, store, p).value;
    assert ValidDef(db.schema[store]) && ValidIndex(idx);
    hide Consistent, Base, EncodeRow, RowNulFree;
    EntryIsKey(db, store, idx, p, r, k);
    EntryRow(db, store, idx, p, r);
    IdxKeyShape(store, idx.name, Rows(doc, idx)[r], p);
    BaseMeansName(store, name, store, idx.name, Terminated(Rows(doc, idx)[r]) + p);
  }

  lemma ScannedLead(db: Db, store: bytes, name: bytes, ks: seq<bytes>)
    requires Consistent(db) && store in db.schema && ValidName(name) && ks == PrefixScan(db.engine, Base(store, name))
    ensures forall n :: 0 <= n < |ks| ==> Leads(db.engine, store, ks[n])
  {
    hide Consistent, Base;
    forall n | 0 <= n < |ks| ensures Leads(db.engine, store, ks[n]) {
      assert ks[n] in ks;
      var i, r := ScannedEntry(db, store, name, ks[n]);
    }
  }

  lemma ChosenName(db: Db, store: bytes, spec: QuerySpec, idx: IndexDef)
    requires Consistent(db) && store in db.schema && Best(spec.filters, db.schema[store].indexes) == Some(idx)
    ensures ValidName(idx.name) && HasIndex(db, store, idx)
  {
    BestIsBest(spec.filters, db.schema[store].indexes);
    var j := IndexPosition(db.schema, store, idx);
  }

  /** What the plan scans. */
  lemma InScans(db: Db, store: bytes, spec: QuerySpec, idx: IndexDef)
    requires Consistent(db) && store in db.schema && Best(spec.filters, db.schema[store].indexes) == Some(idx)
    requires StartsIn(spec.filters, idx.keyPaths)
    ensures ValidName(idx.name) && Scans(db, store, spec, idx, PrefixScan(db.engine, Base(store, idx.name)))
  {
    hide Consistent, Base, Best, PrefixScan, PlanKeys, StartsIn;
    ChosenName(db, store, spec, idx);
    PlanKeysIn(db.engine, spec.filters, store, idx);
    ScannedLead(db, store, idx.name, PrefixScan(db.engine, Base(store, idx.name)));
  }

  // ---------------------------------------------------------------- how often

  /** Where an entry is kept. */
  function KeyAt(store: bytes, idxs: seq<IndexDef>, p: bytes, x: (nat, bytes)): bytes {
    if x.0 < |idxs| then IdxKey(store, idxs[x.0].name, x.1, p) else []
  }

  lemma KeySplit(store: bytes, name: bytes, row: bytes, p: bytes)
    ensures IdxKey(store, name, row, p) == IdxPrefix(store, name) + (row + [SEP] + p)
  {
    hide IdxPrefix;
  }

  /** Entries of one document in two indexes have different keys. */
  lemma EntriesDiffer(db: Db, store: bytes, p: bytes, x: (nat, bytes), y: (nat, bytes))
    requires Consistent(db) && store in db.schema
    requires x.0 < |db.schema[store].indexes| && y.0 < |db.schema[store].indexes|
    requires KeyAt(store, db.schema[store].indexes, p, x) == KeyAt(store, db.schema[store].indexes, p, y)
    ensures x == y
  {
    var def := db.schema[store];
    assert ValidDef(def) && ValidIndex(def.indexes[x.0]) && ValidIndex(def.indexes[y.0]);
    hide Consistent, IdxKey, IdxPrefix, ValidName;
    var i, j := def.indexes[x.0].name, def.indexes[y.0].name;
    KeySplit(store, i, x.1, p);
    KeySplit(store, j, y.1, p);
    IdxPrefixInjective(store, i, x.1 + [SEP] + p, store, j, y.1 + [SEP] + p);
    RowInKey(store, i, x.1, y.1, p);
  }

  /** The scanned keys that lead to a document are those of its entries. */
  lemma EntriesCount(db: Db, store: bytes, name: bytes, p: bytes)
    requires Consistent(db) && store in db.schema && ValidName(name) && Live(db.engine, store, p).Some?
    ensures |KeysTo(db.engine, PrefixScan(db.engine, Base(store, name)), p)|
            == |EntriesIn(db.schema[store].indexes, name, Live(db.engine, store, p).value)|
  {
    hide Consistent, Live, Base, EncodeRow, Rows, IdxKey;
    var ks, idxs, doc := PrefixScan(db.engine, Base(store, name)), db.schema[store].indexes,
      Live(db.engine, store, p).value;
    var a, b := EntriesIn(idxs, name, doc), KeysTo(db.engine, ks, p);
    var f := x => KeyAt(store, idxs, p, x);
    forall x | x in a ensures f(x) in b {
      var r: nat :| r < |Rows(doc, idxs[x.0])| && EncodeRow(Rows(doc, idxs[x.0])[r]) == x.1;
      EntryScanned(db, store, name, x.0, p, r, f(x));
    }
    forall k | k in b ensures exists x :: x in a && f(x) == k {
      var i, r := ScannedEntry(db, store, name, k);
      var x := (i, EncodeRow(Rows(doc, idxs[i])[r]));
      assert x in a && f(x) == k;
    }
    forall x, y | x in a && y in a && f(x) == f(y) ensures x == y { EntriesDiffer(db, store, p, x, y); }
    SameSize(a, b, f);
  }

  /** With an `In` filter on the first field of the chosen index, the plan returns a document
      that passes the filters once per distinct entry it has in the indexes whose names extend
      the chosen one's, multi-entry ones included.  So it answers like the reference if and
      only if each of them has exactly one. */
  lemma InPlanExact(db: Db, store: bytes, spec: QuerySpec, idx: IndexDef)
    requires Consistent(db) && store in db.schema && Best(spec.filters, db.schema[store].indexes) == Some(idx)
    requires StartsIn(spec.filters, idx.keyPaths)
    ensures Collect(db, store, spec).Ok? && Reference(db, store, spec).Ok?
    ensures forall p :: Wanted(db.engine, store, spec.filters, p) ==>
              multiset(Collect(db, store, spec).value)[Live(db.engine, store, p).value] ==
              |EntriesIn(db.schema[store].indexes, idx.name, Live(db.engine, store, p).value)|
    ensures multiset(Collect(db, store, spec).value) == multiset(Reference(db, store, spec).value) <==>
            forall p :: Wanted(db.engine, store, spec.filters, p) ==>
              |EntriesIn(db.schema[store].indexes, idx.name, Live(db.engine, store, p).value)| == 1
  {
    hide Consistent, Live, Collect, Reference, KeysTo, AllMatch, Scans, Best, EntriesIn, PrefixScan, Base, StartsIn;
    InScans(db, store, spec, idx);
    var ks, idxs := PrefixScan(db.engine, Base(store, idx.name)), db.schema[store].indexes;
    CountsDecide(db, store, spec, idx, ks);
    forall p | Live(db.engine, store, p).Some?
      ensures |KeysTo(db.engine, ks, p)| == |EntriesIn(idxs, idx.name, Live(db.engine, store, p).value)|
      ensures multiset(Collect(db, store, spec).value)[Live(db.engine, store, p).value] ==
              if Wanted(db.engine, store, spec.filters, p) then |KeysTo(db.engine, ks, p)| else 0
    {
      ScanCounts(db, store, spec, idx, ks, p);
      EntriesCount(db, store, idx.name, p);
    }
  }

  // ---------------------------------------------------------------- in which order

  /** Entry of a wanted document in an index that is read. */
  ghost predicate WantedEntry(db: Db, store: bytes, name: bytes, filters: seq<Filter>, i: nat, p: bytes, r: nat,
                              k: bytes)
  {
    && store in db.schema && Read(db.schema[store].indexes, name, i)
    && Wanted(db.engine, store, filters, p) && Entry(db, store, db.schema[store].indexes[i], p, r, k)
  }

  /** The entries of the wanted documents come in the order of the field. */
  ghost predicate InStep(db: Db, store: bytes, name: bytes, filters: seq<Filter>, field: bytes) {
    forall i, j, p, q, r, l, k, m ::
      WantedEntry(db, store, name, filters, i, p, r, k) && WantedEntry(db, store, name, filters, j, q, l, m)
      && Less(k, m) ==>
      AtMost(SortKey(Live(db.engine, store, p).value, field), SortKey(Live(db.engine, store, q).value, field))
  }

  /** Keys of different indexes compare like the names. */
  lemma KeysByName(store: bytes, a: bytes, x: bytes, p: bytes, b: bytes, y: bytes, q: bytes)
    requires ValidName(a) && ValidName(b) && a != b
    ensures Less(IdxKey(store, a, x, p), IdxKey(store, b, y, q)) <==> Less(a, b)
  {
    var pfx := [IDX_PREFIX] + store + [SEP];
    assert IdxKey(store, a, x, p) == pfx + (a + [SEP] + (x + [SEP] + p));
    assert IdxKey(store, b, y, q) == pfx + (b + [SEP] + (y + [SEP] + q));
    LessCancel(pfx, a + [SEP] + (x + [SEP] + p), b + [SEP] + (y + [SEP] + q));
    ValidNameNulFree(a);
    ValidNameNulFree(b);
    TerminatedOrder(a, b);
    TerminatedOrder(b, a);
    LessDiverged(a + [SEP], x + [SEP] + p, b + [SEP], y + [SEP] + q);
  }

  /** When the in-memory sort is skipped, the answer is in the requested order if and only if the
      entries of the documents asked for are, over all indexes that are read; when it is not
      skipped, it always is. */
  lemma InPlanOrderedExactly(db: Db, store: bytes, spec: QuerySpec, idx: IndexDef)
    requires Consistent(db) && store in db.schema && Best(spec.filters, db.schema[store].indexes) == Some(idx)
    requires StartsIn(spec.filters, idx.keyPaths) && spec.orderField.Some?
    ensures Collect(db, store, spec).Ok?
    ensures SortedBy(Collect(db, store, spec).value, spec.orderField.value, spec.orderDir) <==>
            NeedsSort(spec, Some(idx)) || InStep(db, store, idx.name, spec.filters, spec.orderField.value)
  {
    hide Consistent, Live, Fetch, Keep, Sort, AllMatch, Leads, Best, PrefixScan, Base, StartsIn, InStep, SortKey, Less,
         PlanKeys;
    InScans(db, store, spec, idx);
    var ks, pass := PrefixScan(db.engine, Base(store, idx.name)), Passing(spec.filters);
    FetchAll(db.engine, store, ks);
    var docs, le := Fetch(db.engine, store, ks).value, Order(spec.orderField.value, spec.orderDir);
    if NeedsSort(spec, Some(idx)) {
      OrderIsPreorder(spec.orderField.value, spec.orderDir);
      SortSorts(Keep(docs, pass), le);
    } else {
      KeepSortedExactly(docs, pass, le);
      StepsDecide(db, store, idx.name, spec.filters, spec.orderField.value, ks, docs);
    }
  }

  lemma StepsDecide(db: Db, store: bytes, name: bytes, filters: seq<Filter>, field: bytes, ks: seq<bytes>,
                    docs: seq<Json>)
    requires Consistent(db) && store in db.schema && ValidName(name)
    requires ks == PrefixScan(db.engine, Base(store, name)) && |docs| == |ks|
    requires forall n :: 0 <= n < |ks| ==> ks[n] in db.engine && db.engine[ks[n]].Ref?
    requires forall n :: 0 <= n < |ks| ==> Live(db.engine, store, db.engine[ks[n]].pk) == Some(docs[n])
    ensures InStep(db, store, name, filters, field) <==>
            forall n, m :: 0 <= n < m < |docs| && AllMatch(docs[n], filters) && AllMatch(docs[m], filters) ==>
              InOrder(docs[n], docs[m], field, Asc)
  {
    hide Consistent, Live, Base, AllMatch, Entry, SortKey, Less, PrefixScan;
    if InStep(db, store, name, filters, field) {
      forall n, m | 0 <= n < m < |docs| && AllMatch(docs[n], filters) && AllMatch(docs[m], filters)
        ensures InOrder(docs[n], docs[m], field, Asc)
      {
        assert ks[n] in ks && ks[m] in ks;
        var i, r := ScannedEntry(db, store, name, ks[n]);
        var j, l := ScannedEntry(db, store, name, ks[m]);
        var p, q := db.engine[ks[n]].pk, db.engine[ks[m]].pk;
        assert WantedEntry(db, store, name, filters, i, p, r, ks[n]);
        assert WantedEntry(db, store, name, filters, j, q, l, ks[m]);
      }
    }
    if forall n, m :: 0 <= n < m < |docs| && AllMatch(docs[n], filters) && AllMatch(docs[m], filters) ==>
         InOrder(docs[n], docs[m], field, Asc) {
      forall i, j, p, q, r, l, k, m |
        WantedEntry(db, store, name, filters, i, p, r, k) && WantedEntry(db, store, name, filters, j, q, l, m)
        && Less(k, m)
        ensures AtMost(SortKey(Live(db.engine, store, p).value, field), SortKey(Live(db.engine, store, q).value, field))
      {
        var a := WantedAt(db, store, name, filters, i, p, r, k, ks, docs);
        var b := WantedAt(db, store, name, filters, j, q, l, m, ks, docs);
        LaterKey(ks, a, b);
        assert InOrder(docs[a], docs[b], field, Asc);
      }
    }
  }

  lemma WantedAt(db: Db, store: bytes, name: bytes, filters: seq<Filter>, i: nat, p: bytes, r: nat, k: bytes,
                 ks: seq<bytes>, docs: seq<Json>) returns (n: nat)
    requires Consistent(db) && ValidName(name) && WantedEntry(db, store, name, filters, i, p, r, k)
    requires ks == PrefixScan(db.engine, Base(store, name)) && |docs| == |ks|
    requires forall n :: 0 <= n < |ks| ==> ks[n] in db.engine && db.engine[ks[n]].Ref?
    requires forall n :: 0 <= n < |ks| ==> Live(db.engine, store, db.engine[ks[n]].pk) == Some(docs[n])
    ensures n < |ks| && ks[n] == k && Live(db.engine, store, p) == Some(docs[n]) && AllMatch(docs[n], filters)
  {
    hide Consistent, Live, Base, AllMatch, Entry, PrefixScan;
    EntryScanned(db, store, name, i, p, r, k);
    n :| 0 <= n < |ks| && ks[n] == k;
  }

  lemma LaterKey(ks: seq<bytes>, a: nat, b: nat)
    requires Ascending(ks) && a < |ks| && b < |ks| && Less(ks[a], ks[b])
    ensures a < b
  {
    LessIrreflexive(ks[a]);
    if b < a { LessAsymmetric(ks[a], ks[b]); }
  }

  /** When no other index's name extends the chosen one's, the requested order is kept. */
  lemma InPlanOrdered(db: Db, store: bytes, spec: QuerySpec, idx: IndexDef)
    requires Consistent(db) && store in db.schema && Best(spec.filters, db.schema[store].indexes) == Some(idx)
    requires StartsIn(spec.filters, idx.keyPaths) && !idx.multiEntry && spec.orderField.Some?
    requires forall i :: 0 <= i < |db.schema[store].indexes| && Read(db.schema[store].indexes, idx.name, i) ==>
               db.schema[store].indexes[i] == idx
    ensures Collect(db, store, spec).Ok?
    ensures SortedBy(Collect(db, store, spec).value, spec.orderField.value, spec.orderDir)
  {
    hide Consistent, Best, Collect, StartsIn, SortedBy, Less, SortKey, Live, Entry;
    ChosenName(db, store, spec, idx);
    var field := spec.orderField.value;
    if !NeedsSort(spec, Some(idx)) {
      forall i, j, p, q, r, l, k, m |
        WantedEntry(db, store, idx.name, spec.filters, i, p, r, k)
        && WantedEntry(db, store, idx.name, spec.filters, j, q, l, m) && Less(k, m)
        ensures AtMost(SortKey(Live(db.engine, store, p).value, field), SortKey(Live(db.engine, store, q).value, field))
      {
        OneIndexInStep(db, store, idx, p, r, k, q, l, m);
      }
    }
    InPlanOrderedExactly(db, store, spec, idx);
  }

  /** Within one index, key order is the order of its first field. */
  lemma OneIndexInStep(db: Db, store: bytes, idx: IndexDef, p: bytes, r: nat, k: bytes, q: bytes, l: nat, m: bytes)
    requires Consistent(db) && HasIndex(db, store, idx) && !idx.multiEntry && idx.keyPaths != []
    requires Entry(db, store, idx, p, r, k) && Entry(db, store, idx, q, l, m) && Less(k, m)
    ensures Live(db.engine, store, p).Some? && Live(db.engine, store, q).Some?
    ensures AtMost(SortKey(Live(db.engine, store, p).value, idx.keyPaths[0]),
                   SortKey(Live(db.engine, store, q).value, idx.keyPaths[0]))
  {
    hide Consistent, Live, SortKey, Less, EncodeRow, IdxPrefix, Rows;
    EntryIsKey(db, store, idx, p, r, k);
    EntryIsKey(db, store, idx, q, l, m);
    assert IdxPrefix(store, idx.name) <= k && IdxPrefix(store, idx.name) <= m;
    IndexOrderPair(db, store, idx, k, m);
  }
}
