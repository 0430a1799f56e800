/** A run after which an index-driven query returns less than a full scan with the same filters
    (`src/jsondb/query.rs`): the document lacks a field of the index that has no filter. */
module MissedDocuments {
  import opened Bytes
  import opened Record
  import opened Seqs
  import opened Json
  import opened Paths
  import opened Keyspace
  import opened Store
  import opened Database
  import opened Indexing
  import opened Lookup
  import opened Query
  import opened Runs
  import opened SmallRuns

  /** A listing of at most one key. */
  lemma OneListed(e: Engine, store: bytes, pks: seq<bytes>, docs: seq<Json>, p: bytes, doc: Json)
    requires DocsOf(e, store, pks, docs) && Live(e, store, p) == Some(doc)
    requires forall q :: q in pks <==> q == p
    ensures docs == [doc]
  {
    assert p in pks;
    var a, b := 0, |pks| - 1;
    assert pks[a] in pks && pks[b] in pks;
    assert pks[a] == pks[b] && !(a < b);
  }

  lemma NoneListed(e: Engine, store: bytes, pks: seq<bytes>, docs: seq<Json>)
    requires DocsOf(e, store, pks, docs) && forall q :: q !in pks
    ensures docs == []
  {
    NoMembers(pks);
  }

  /** Whenever the only document passes the filters but has no entry in the chosen index, the
      plan returns nothing and the reference returns the document. */
  lemma PlanMisses(db: Db, store: bytes, idx: IndexDef, p: bytes, doc: Json, filters: seq<Filter>)
    requires Consistent(db) && store in db.schema && HasIndex(db, store, idx) && Holds(db, store, map[p := doc])
    requires Best(filters, db.schema[store].indexes) == Some(idx) && Plans(filters, idx)
    requires RangesClean(filters) && ZeroSafe(doc, filters)
    requires AllMatch(doc, filters) && !HasEntry(doc, idx)
    ensures Collect(db, store, QuerySpec(filters, None, Asc)) == Ok([])
    ensures Reference(db, store, QuerySpec(filters, None, Asc)) == Ok([doc])
  {
    hide Consistent, Fetch, FullScan, PlanKeys, Best, AllMatch, HasEntry, ZeroSafe, RangesClean, Keep, Live;
    var all := FullScanFetches(db, store);
    OneListed(db.engine, store, all, FullScan(db.engine, store).value, p, doc);
    var found := PlanFetches(db, store, idx, filters);
    NoneListed(db.engine, store, found, Fetch(db.engine, store, PlanKeys(db.engine, filters, store, idx)).value);
    KeepNone([], Passing(filters));
    KeepSnoc([], doc, Passing(filters));
    assert [] + [doc] == [doc];
  }

  // ---------------------------------------------------------------- the run

  const STORE: bytes := [115]
  const INDEX: IndexDef := IndexDef([105], [[97], [98]], false, false)
  const DOCUMENT: Json := Obj(map[[107] := Str([120]), [97] := I64(1)], [123, 125])
  const FILTERS: seq<Filter> := [WhereEq([97], I64(1))]

  lemma DocumentFields()
    ensures Extract(DOCUMENT, [107]) == Some(Str([120])) && Extract(DOCUMENT, [97]) == Some(I64(1))
    ensures Extract(DOCUMENT, [98]) == None
    ensures !HasEntry(DOCUMENT, INDEX) && Rows(DOCUMENT, INDEX) == []
  {
    FieldName(DOCUMENT, [107]);
    FieldName(DOCUMENT, [97]);
    FieldName(DOCUMENT, [98]);
    hide Extract;
    assert INDEX.keyPaths[1] == [98];
    EntryIsRow(DOCUMENT, INDEX);
  }

  lemma FiltersFit()
    ensures AllMatch(DOCUMENT, FILTERS) && ZeroSafe(DOCUMENT, FILTERS) && RangesClean(FILTERS) && Plans(FILTERS, INDEX)
    ensures Best(FILTERS, [INDEX]) == Some(INDEX)
  {
    DocumentFields();
    hide Extract, Rows;
    assert FirstOn(FILTERS, [97]) == Some(FILTERS[0]);
    assert [INDEX][..0] == [];
    assert Score(FILTERS, INDEX.keyPaths) > 0;
  }

  /** After this run of create store, create index and put, the planned query finds nothing and
      the full scan finds the document. */
  lemma PlanDropsDocument() returns (run: seq<Action>, db: Db)
    ensures IsRun(EMPTY, run) && db == After(EMPTY, run) && STORE in db.schema
    ensures Collect(db, STORE, QuerySpec(FILTERS, None, Asc)) == Ok([])
    ensures Reference(db, STORE, QuerySpec(FILTERS, None, Asc)) == Ok([DOCUMENT])
  {
    hide Consistent, Holds, IsRun, Collect, Reference, Best, AllMatch, ZeroSafe, RangesClean, HasEntry, Extract, Rows;
    DocumentFields();
    FiltersFit();
    run, db := FreshStore(STORE, [107]);
    run, db := ThenIndex(run, db, STORE, INDEX.name, INDEX.keyPaths, false, map[]);
    assert [] + [INDEX] == [INDEX];
    run, db := ThenPut(run, db, STORE, DOCUMENT, [120], map[]);
    assert map[][[120] := DOCUMENT] == map[[120] := DOCUMENT];
    PlanMisses(db, STORE, INDEX, [120], DOCUMENT, FILTERS);
  }
}
