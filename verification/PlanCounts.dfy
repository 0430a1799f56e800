/** How often an index-driven query returns each document (`src/jsondb/query.rs`): once per
    scanned index key that leads to it, whatever the filters and whether or not the index expands
    arrays. */
module PlanCounts {
  import opened Bytes
  import opened Record
  import opened Seqs
  import opened Json
  import opened Encoding
  import opened Keyspace
  import opened Store
  import opened Lookup
  import opened Query

  /** A live document that passes the filters. */
  ghost predicate Wanted(e: Engine, store: bytes, filters: seq<Filter>, p: bytes) {
    Live(e, store, p).Some? && AllMatch(Live(e, store, p).value, filters)
  }

  /** The keys that lead to one document. */
  function KeysTo(e: Engine, ks: seq<bytes>, p: bytes): set<bytes> {
    set k | k in ks && k in e && e[k] == Ref(p)
  }

  ghost function WantedIn(e: Engine, store: bytes, filters: seq<Filter>): bytes -> bool {
    p => Wanted(e, store, filters, p)
  }

  lemma WantedIsLive(e: Engine, store: bytes, filters: seq<Filter>, p: bytes)
    requires Wanted(e, store, filters, p)
    ensures Live(e, store, p).Some?
  {}

  function Leading(e: Engine, ks: seq<bytes>): bytes -> nat {
    p => |KeysTo(e, ks, p)|
  }

  // ---------------------------------------------------------------- counting

  /** Sets in one-to-one correspondence have the same size. */
  lemma {:induction false} SameSize<A(!new), B(!new)>(a: set<A>, b: set<B>, f: A -> B)
    requires forall x, y :: x in a && y in a && f(x) == f(y) ==> x == y
    requires forall x :: x in a ==> f(x) in b
    requires forall z :: z in b ==> exists x :: x in a && f(x) == z
    ensures |a| == |b|
    decreases |a|
  {
    if a == {} {
      if z :| z in b {}
      assert b == {};
    } else {
      var x :| x in a;
      forall z | z in b - {f(x)} ensures exists y :: y in a - {x} && f(y) == z {
        var y :| y in a && f(y) == z;
        assert y in a - {x};
      }
      SameSize(a - {x}, b - {f(x)}, f);
    }
  }

  /** A document tells its primary key. */
  lemma DocumentTellsKey(db: Db, store: bytes, p: bytes, q: bytes)
    requires Consistent(db) && store in db.schema
    requires Live(db.engine, store, p).Some? && Live(db.engine, store, q) == Live(db.engine, store, p)
    ensures p == q
  {
    assert DocKey(store, p) in db.engine && DocKey(store, q) in db.engine;
    assert Fits(db.schema[store], p, Live(db.engine, store, p).value)
        && Fits(db.schema[store], q, Live(db.engine, store, q).value);
  }

  lemma {:induction false} FetchCounts(db: Db, store: bytes, ks: seq<bytes>, docs: seq<Json>, p: bytes)
    requires Consistent(db) && store in db.schema && Live(db.engine, store, p).Some?
    requires Distinct(ks) && |docs| == |ks|
    requires forall n :: 0 <= n < |ks| ==> ks[n] in db.engine && db.engine[ks[n]].Ref?
    requires forall n :: 0 <= n < |ks| ==> Live(db.engine, store, db.engine[ks[n]].pk) == Some(docs[n])
    ensures multiset(docs)[Live(db.engine, store, p).value] == |KeysTo(db.engine, ks, p)|
    decreases |ks|
  {
    hide Consistent, Live;
    if ks == [] {
      assert KeysTo(db.engine, ks, p) == {};
    } else {
      var n := |ks| - 1;
      assert ks == ks[..n] + [ks[n]] && docs == docs[..n] + [docs[n]];
      assert ks[n] !in ks[..n];
      FetchCounts(db, store, ks[..n], docs[..n], p);
      KeysToSnoc(db.engine, ks[..n], ks[n], p);
      if docs[n] == Live(db.engine, store, p).value { DocumentTellsKey(db, store, p, db.engine[ks[n]].pk); }
    }
  }

  lemma KeysToSnoc(e: Engine, ks: seq<bytes>, k: bytes, p: bytes)
    requires k !in ks && k in e
    ensures |KeysTo(e, ks + [k], p)| == |KeysTo(e, ks, p)| + if e[k] == Ref(p) then 1 else 0
  {
    var before := KeysTo(e, ks, p);
    assert KeysTo(e, ks + [k], p) == if e[k] == Ref(p) then before + {k} else before;
  }

  /** Filtering and sorting leave a document that passes as often as it was. */
  lemma FinishCounts(docs: seq<Json>, spec: QuerySpec, used: Option<IndexDef>)
    ensures Finish(Ok(docs), spec, used).Ok?
    ensures multiset(Finish(Ok(docs), spec, used).value) == multiset(Keep(docs, Passing(spec.filters)))
  {
    hide Keep, Sort;
    if NeedsSort(spec, used) {
      OrderIsPreorder(spec.orderField.value, spec.orderDir);
      SortSorts(Keep(docs, Passing(spec.filters)), Order(spec.orderField.value, spec.orderDir));
    }
  }

  /** The reference holds every wanted document once. */
  lemma ReferenceCounts(db: Db, store: bytes, spec: QuerySpec, p: bytes)
    requires Consistent(db) && store in db.schema && Live(db.engine, store, p).Some?
    ensures Reference(db, store, spec).Ok?
    ensures multiset(Reference(db, store, spec).value)[Live(db.engine, store, p).value] ==
            if Wanted(db.engine, store, spec.filters, p) then 1 else 0
  {
    hide Consistent, Live, FullScan, Finish, Keep, AllMatch;
    var all := FullScanFetches(db, store);
    var docs := FullScan(db.engine, store).value;
    FinishCounts(docs, spec, None);
    KeepCount(docs, Passing(spec.filters), Live(db.engine, store, p).value);
    ListedOnce(db, store, all, docs, p);
  }

  /** A complete listing holds a document once. */
  lemma ListedOnce(db: Db, store: bytes, pks: seq<bytes>, docs: seq<Json>, p: bytes)
    requires Consistent(db) && store in db.schema && DocsOf(db.engine, store, pks, docs) && p in pks
    ensures Live(db.engine, store, p).Some? && multiset(docs)[Live(db.engine, store, p).value] == 1
  {
    hide Consistent, Live;
    var i :| 0 <= i < |pks| && pks[i] == p;
    forall j | 0 <= j < |docs| && j != i ensures docs[j] != docs[i] {
      if docs[j] == docs[i] { DocumentTellsKey(db, store, p, pks[j]); }
    }
    CountOnce(docs, i);
  }

  lemma CountOnce<T>(s: seq<T>, i: nat)
    requires i < |s| && forall j :: 0 <= j < |s| && j != i ==> s[j] != s[i]
    ensures multiset(s)[s[i]] == 1
  {
    assert s == s[..i] + [s[i]] + s[i + 1..];
    assert s[i] !in s[..i] && s[i] !in s[i + 1..];
  }

  // ---------------------------------------------------------------- plans

  /** The scanned keys of a plan, each leading to a document. */
  ghost predicate Scans(db: Db, store: bytes, spec: QuerySpec, idx: IndexDef, ks: seq<bytes>) {
    && store in db.schema && Best(spec.filters, db.schema[store].indexes) == Some(idx)
    && ks == PlanKeys(db.engine, spec.filters, store, idx)
    && forall n :: 0 <= n < |ks| ==> Leads(db.engine, store, ks[n])
  }

  lemma AscendingIsDistinct(ks: seq<bytes>)
    requires Ascending(ks)
    ensures Distinct(ks)
  {
    forall i, j | 0 <= i < j < |ks| ensures ks[i] != ks[j] {
      if ks[i] == ks[j] { AscendingDistinct(ks, i, j); }
    }
  }

  /** A plan returns a document that passes the filters once per scanned key that leads to it,
      and no other document. */
  lemma ScanCounts(db: Db, store: bytes, spec: QuerySpec, idx: IndexDef, ks: seq<bytes>, p: bytes)
    requires Consistent(db) && Scans(db, store, spec, idx, ks) && Live(db.engine, store, p).Some?
    ensures Collect(db, store, spec).Ok?
    ensures multiset(Collect(db, store, spec).value)[Live(db.engine, store, p).value] ==
            if Wanted(db.engine, store, spec.filters, p) then |KeysTo(db.engine, ks, p)| else 0
  {
    hide Consistent, Live, Fetch, Finish, Keep, AllMatch, Best, PlanKeys, Leads, KeysTo, Less;
    AscendingIsDistinct(ks);
    FetchAll(db.engine, store, ks);
    var docs := Fetch(db.engine, store, ks).value;
    FetchCounts(db, store, ks, docs, p);
    FinishCounts(docs, spec, Some(idx));
    KeepCount(docs, Passing(spec.filters), Live(db.engine, store, p).value);
  }

  /** The reference holds live documents only. */
  lemma ReferenceLive(db: Db, store: bytes, spec: QuerySpec, doc: Json)
    requires Consistent(db) && store in db.schema
    requires Reference(db, store, spec).Ok? && doc in multiset(Reference(db, store, spec).value)
    ensures exists p :: Live(db.engine, store, p) == Some(doc)
  {
    hide Consistent, Live, Finish, Keep, AllMatch, FullScan;
    var all := FullScanFetches(db, store);
    var scanned := FullScan(db.engine, store).value;
    FinishCounts(scanned, spec, None);
    KeepCount(scanned, Passing(spec.filters), doc);
    assert doc in multiset(scanned);
    var n :| 0 <= n < |scanned| && scanned[n] == doc;
    assert Live(db.engine, store, all[n]) == Some(doc);
  }

  /** Both answers hold live documents only. */
  lemma AnswersLive(db: Db, store: bytes, spec: QuerySpec, idx: IndexDef, ks: seq<bytes>, doc: Json)
    requires Consistent(db) && Scans(db, store, spec, idx, ks)
    requires Collect(db, store, spec).Ok? && Reference(db, store, spec).Ok?
    requires doc in multiset(Collect(db, store, spec).value) || doc in multiset(Reference(db, store, spec).value)
    ensures exists p :: Live(db.engine, store, p) == Some(doc)
  {
    hide Consistent, Live, Fetch, Finish, Keep, AllMatch, Best, PlanKeys, Reference, Less, Leads;
    if doc in multiset(Collect(db, store, spec).value) {
      FetchAll(db.engine, store, ks);
      var docs := Fetch(db.engine, store, ks).value;
      FinishCounts(docs, spec, Some(idx));
      KeepCount(docs, Passing(spec.filters), doc);
      assert doc in multiset(docs);
      var n :| 0 <= n < |docs| && docs[n] == doc;
    } else {
      ReferenceLive(db, store, spec, doc);
    }
  }

  /** The plan returns the documents of the reference, each as often, if and only if exactly one
      scanned key leads to each of them. */
  lemma CountsDecide(db: Db, store: bytes, spec: QuerySpec, idx: IndexDef, ks: seq<bytes>)
    requires Consistent(db) && Scans(db, store, spec, idx, ks)
    ensures Collect(db, store, spec).Ok? && Reference(db, store, spec).Ok?
    ensures multiset(Collect(db, store, spec).value) == multiset(Reference(db, store, spec).value) <==>
            forall p :: Wanted(db.engine, store, spec.filters, p) ==> |KeysTo(db.engine, ks, p)| == 1
  {
    AnswersOk(db, store, spec, idx, ks);
    hide Consistent, Live, Collect, Reference, KeysTo, Scans, Wanted;
    var got, ref := multiset(Collect(db, store, spec).value), multiset(Reference(db, store, spec).value);
    var read, want, count := Reader(db.engine, store), WantedIn(db.engine, store, spec.filters), Leading(db.engine, ks);
    forall p | read(p).Some?
      ensures got[read(p).value] == (if want(p) then count(p) else 0) && ref[read(p).value] == if want(p) then 1 else 0
    {
      ScanCounts(db, store, spec, idx, ks, p);
      ReferenceCounts(db, store, spec, p);
    }
    forall p | want(p) ensures read(p).Some? { WantedIsLive(db.engine, store, spec.filters, p); }
    forall doc | doc in got || doc in ref ensures exists p :: read(p) == Some(doc) {
      AnswersLive(db, store, spec, idx, ks, doc);
      var p :| Live(db.engine, store, p) == Some(doc);
      assert read(p) == Some(doc);
    }
    SameCounts(read, want, count, got, ref);
    assert forall p :: want(p) == Wanted(db.engine, store, spec.filters, p) && count(p) == |KeysTo(db.engine, ks, p)|;
  }

  /** Documents counted by their keys: the counts decide. */
  lemma SameCounts(read: bytes -> Option<Json>, want: bytes -> bool, count: bytes -> nat, got: multiset<Json>,
                   ref: multiset<Json>)
    requires forall p :: read(p).Some? ==> got[read(p).value] == if want(p) then count(p) else 0
    requires forall p :: read(p).Some? ==> ref[read(p).value] == if want(p) then 1 else 0
    requires forall p :: want(p) ==> read(p).Some?
    requires forall doc :: doc in got || doc in ref ==> exists p :: read(p) == Some(doc)
    ensures got == ref <==> forall p :: want(p) ==> count(p) == 1
  {
    if forall p :: want(p) ==> count(p) == 1 {
      forall doc ensures got[doc] == ref[doc] {
        if doc in got || doc in ref {
          var p :| read(p) == Some(doc);
        }
      }
    } else {
      var p :| want(p) && count(p) != 1;
      assert got[read(p).value] != ref[read(p).value];
    }
  }

  lemma AnswersOk(db: Db, store: bytes, spec: QuerySpec, idx: IndexDef, ks: seq<bytes>)
    requires Consistent(db) && Scans(db, store, spec, idx, ks)
    ensures Collect(db, store, spec).Ok? && Reference(db, store, spec).Ok?
  {
    hide Consistent, Live, Fetch, Finish, Keep, AllMatch, Best, PlanKeys, FullScan, Less, Leads;
    FetchAll(db.engine, store, ks);
    FinishCounts(Fetch(db.engine, store, ks).value, spec, Some(idx));
    var all := FullScanFetches(db, store);
    FinishCounts(FullScan(db.engine, store).value, spec, None);
  }

  // ---------------------------------------------------------------- one index

  /** The distinct encoded rows of a document whose keys are scanned. */
  function ScannedRows(ks: seq<bytes>, store: bytes, idx: IndexDef, p: bytes, doc: Json): set<bytes> {
    set r | 0 <= r < |Rows(doc, idx)| && IdxKey(store, idx.name, EncodeRow(Rows(doc, idx)[r]), p) in ks ::
      EncodeRow(Rows(doc, idx)[r])
  }

  /** With an equality or a range on the first field, also of a multi-entry index, the plan
      returns a document once per distinct row that it scans. */
  lemma RowsCount(db: Db, store: bytes, idx: IndexDef, ks: seq<bytes>, p: bytes)
    requires Consistent(db) && HasIndex(db, store, idx) && Live(db.engine, store, p).Some?
    requires forall n :: 0 <= n < |ks| ==> ks[n] in db.engine && IdxPrefix(store, idx.name) <= ks[n]
    ensures |KeysTo(db.engine, ks, p)| == |ScannedRows(ks, store, idx, p, Live(db.engine, store, p).value)|
  {
    hide Consistent, Live, IdxPrefix, EncodeRow, Rows;
    var doc := Live(db.engine, store, p).value;
    var a, b := ScannedRows(ks, store, idx, p, doc), KeysTo(db.engine, ks, p);
    var f := (row: bytes) => IdxKey(store, idx.name, row, p);
    forall row | row in a ensures f(row) in b {
      var r :| 0 <= r < |Rows(doc, idx)| && f(EncodeRow(Rows(doc, idx)[r])) in ks
        && EncodeRow(Rows(doc, idx)[r]) == row;
      EntryIsKey(db, store, idx, p, r, f(row));
    }
    forall k | k in b ensures exists row :: row in a && f(row) == k {
      var r := KeyIsEntry(db, store, idx, k);
      assert EncodeRow(Rows(doc, idx)[r]) in a;
    }
    forall x, y | f(x) == f(y) ensures x == y { RowInKey(store, idx.name, x, y, p); }
    SameSize(a, b, f);
  }

  lemma RowInKey(store: bytes, name: bytes, x: bytes, y: bytes, p: bytes)
    requires IdxKey(store, name, x, p) == IdxKey(store, name, y, p)
    ensures x == y
  {
    var pfx, k := IdxPrefix(store, name), IdxKey(store, name, x, p);
    assert k == pfx + x + [SEP] + p && k == pfx + y + [SEP] + p;
    assert k[|pfx|..|pfx| + |x|] == x && k[|pfx|..|pfx| + |y|] == y;
  }

  /** The exact condition for plans on one index, multi-entry ones included: each document asked
      for has exactly one distinct row in the planned bounds. */
  lemma NarrowPlanExact(db: Db, store: bytes, spec: QuerySpec, idx: IndexDef)
    requires Consistent(db) && store in db.schema && Best(spec.filters, db.schema[store].indexes) == Some(idx)
    requires StartsNarrow(spec.filters, idx.keyPaths)
    ensures Collect(db, store, spec).Ok? && Reference(db, store, spec).Ok?
    ensures var ks := PlanKeys(db.engine, spec.filters, store, idx);
            && (forall p :: Wanted(db.engine, store, spec.filters, p) ==>
                  multiset(Collect(db, store, spec).value)[Live(db.engine, store, p).value] ==
                    |ScannedRows(ks, store, idx, p, Live(db.engine, store, p).value)|)
            && (multiset(Collect(db, store, spec).value) == multiset(Reference(db, store, spec).value) <==>
                forall p :: Wanted(db.engine, store, spec.filters, p) ==>
                  |ScannedRows(ks, store, idx, p, Live(db.engine, store, p).value)| == 1)
  {
    hide Consistent, Live, Collect, Reference, KeysTo, AllMatch, PlanKeys, Best, ScannedRows, Leads, IdxPrefix,
         StartsNarrow;
    var ks := PlanKeys(db.engine, spec.filters, store, idx);
    BestIsBest(spec.filters, db.schema[store].indexes);
    PlanKeysUnder(db.engine, spec.filters, store, idx);
    KeysLead(db, store, idx, ks);
    CountsDecide(db, store, spec, idx, ks);
    forall p | Live(db.engine, store, p).Some?
      ensures |KeysTo(db.engine, ks, p)| == |ScannedRows(ks, store, idx, p, Live(db.engine, store, p).value)|
      ensures multiset(Collect(db, store, spec).value)[Live(db.engine, store, p).value] ==
              if Wanted(db.engine, store, spec.filters, p) then |KeysTo(db.engine, ks, p)| else 0
    {
      ScanCounts(db, store, spec, idx, ks, p);
      RowsCount(db, store, idx, ks, p);
    }
  }
}
