/** Building small runs of the document layer, operation by operation, from the empty database. */
module SmallRuns {
  import opened Bytes
  import opened Record
  import opened Json
  import opened Paths
  import opened Encoding
  import opened Keyspace
  import opened Store
  import opened Database
  import opened Indexing
  import opened Query
  import opened Runs
  import opened Effects

  /** The database at the end of a run from the empty one. */
  ghost predicate Reached(run: seq<Action>, db: Db) {
    IsRun(EMPTY, run) && db == After(EMPTY, run) && Consistent(db)
  }

  lemma ThenStep(run: seq<Action>, db: Db, a: Action)
    requires Reached(run, db) && Admissible(db, a)
    ensures Reached(run + [a], Step(db, a))
  {
    hide Consistent, Admissible, Step;
    RunSnoc(EMPTY, run, a);
    StepKeepsConsistent(db, a);
  }

  /** The row of a document in an index on one plain field. */
  lemma NamedRow(doc: Json, idx: IndexDef, name: bytes)
    requires doc.Obj? && name != [] && DOT !in name && idx.keyPaths == [name] && !idx.multiEntry
    ensures Rows(doc, idx) == if name in doc.fields then [[doc.fields[name]]] else []
  {
    FieldName(doc, name);
    hide Extract;
    EntryIsRow(doc, idx);
    if name in doc.fields {
      var row := Rows(doc, idx)[0];
      assert idx.keyPaths[0] == name && row[0] == doc.fields[name] && row == [doc.fields[name]];
    } else {
      assert idx.keyPaths[0] == name;
    }
  }

  /** The store holds exactly these documents. */
  ghost predicate Holds(db: Db, store: bytes, docs: map<bytes, Json>) {
    forall p :: Live(db.engine, store, p) == if p in docs then Some(docs[p]) else None
  }

  lemma FreshStore(store: bytes, keyPath: bytes) returns (run: seq<Action>, db: Db)
    requires ValidName(store) && keyPath != []
    ensures Reached(run, db) && store in db.schema && db.schema[store] == StoreDef(store, keyPath, false, [])
    ensures Holds(db, store, map[])
  {
    hide Consistent, ValidName;
    var a, def := DoCreateStore(store, keyPath), StoreDef(store, keyPath, false, []);
    EmptyConsistent();
    ThenStep([], EMPTY, a);
    run, db := [] + [a], Step(EMPTY, a);
    assert db == Db(map[SchemaKey(store) := Definition(def)], map[store := def]);
    forall p ensures Live(db.engine, store, p) == None { assert DocKey(store, p)[0] != SchemaKey(store)[0]; }
  }

  lemma ThenIndex(run: seq<Action>, db: Db, store: bytes, name: bytes, keyPaths: seq<bytes>, unique: bool,
                  docs: map<bytes, Json>) returns (run': seq<Action>, db': Db)
    requires Reached(run, db) && store in db.schema && Holds(db, store, docs)
    requires ValidNewIndex(db.schema[store], name, keyPaths)
    requires var def := Extended(db.schema[store], IndexDef(name, keyPaths, unique, false));
             def.name == store && forall p :: p in docs ==> RowsClean(def, docs[p])
    ensures CreateIndex(db, store, name, keyPaths, unique) == Ok(db') && Reached(run', db') && Holds(db', store, docs)
    ensures Admissible(db, DoCreateIndex(store, name, keyPaths, unique))
    ensures db'.schema == db.schema[store := Extended(db.schema[store], IndexDef(name, keyPaths, unique, false))]
  {
    hide Consistent, Live, Backfill, Apply, IsRun, ValidNewIndex, RowsClean, CreateIndex;
    var a, idx := DoCreateIndex(store, name, keyPaths, unique), IndexDef(name, keyPaths, unique, false);
    CreateIndexEffect(db, store, name, keyPaths, unique);
    ThenStep(run, db, a);
    run', db' := run + [a], Step(db, a);
    CreateIndexKeeps(db, db', store, idx);
  }

  /** No index of the store is unique. */
  predicate NoneUnique(def: StoreDef) {
    forall i :: 0 <= i < |def.indexes| ==> !def.indexes[i].unique
  }

  lemma PutAccepted(db: Db, store: bytes, doc: Json, p: bytes)
    requires Consistent(db) && store in db.schema && NoneUnique(db.schema[store])
    requires KeyOf(db.schema[store], doc) == Ok(p)
    ensures Database.Put(db, store, doc).Ok? && Database.Put(db, store, doc).value.schema == db.schema
  {
    assert db.schema[store].name == store;
    hide Extract, Rows, UpdateRecords, Apply, KeyOf;
    StoredIsLive(db, store, p);
  }

  lemma PutHolds(db: Db, store: bytes, doc: Json, p: bytes, docs: map<bytes, Json>)
    requires Consistent(db) && store in db.schema && NoneUnique(db.schema[store]) && Holds(db, store, docs)
    requires KeyOf(db.schema[store], doc) == Ok(p)
    ensures Database.Put(db, store, doc).Ok? && Database.Put(db, store, doc).value.schema == db.schema
    ensures Holds(Database.Put(db, store, doc).value, store, docs[p := doc])
  {
    hide Consistent, Live, Database.Put, KeyOf;
    PutAccepted(db, store, doc, p);
    forall q { PutReadsBack(db, store, doc, store, q); }
  }

  lemma ThenPut(run: seq<Action>, db: Db, store: bytes, doc: Json, p: bytes,
                docs: map<bytes, Json>) returns (run': seq<Action>, db': Db)
    requires Reached(run, db) && store in db.schema && NoneUnique(db.schema[store]) && Holds(db, store, docs)
    requires KeyOf(db.schema[store], doc) == Ok(p) && RowsClean(db.schema[store], doc)
    ensures Reached(run', db') && db'.schema == db.schema && Holds(db', store, docs[p := doc])
    ensures run' == run + [DoPut(store, doc)]
  {
    hide Consistent, Live, IsRun, Database.Put, RowsClean, KeyOf, Holds;
    ThenStep(run, db, DoPut(store, doc));
    PutHolds(db, store, doc, p, docs);
    run', db' := run + [DoPut(store, doc)], Step(db, DoPut(store, doc));
  }
}
