/** Serial runs of put, delete, put_auto, create_index and commit keep every index exact and
    every unique index unique. */
module Runs {
  import opened Bytes
  import opened BigEndian
  import opened Record
  import opened Json
  import opened Paths
  import opened Keyspace
  import opened Store
  import opened Database
  import opened Committing
  import opened Indexing

  datatype Action =
    | DoCreateStore(name: bytes, keyPath: bytes)
    | DoEnableAuto(name: bytes)
    | DoCreateIndex(store: bytes, index: bytes, keyPaths: seq<bytes>, unique: bool)
    | DoPut(store: bytes, doc: Json)
    | DoDelete(store: bytes, key: Json)
    | DoPutAuto(store: bytes, doc: Json, newText: text)
    | DoCommit(writes: Buffer, counters: seq<(bytes, u64)>, order: seq<Slot>)

  function Attempt(db: Db, a: Action): Result<Db>
    requires a.DoCommit? ==> Enumerates(a.order, a.writes)
  {
    match a
    case DoCreateStore(n, kp) => CreateStore(db, n, kp)
    case DoEnableAuto(n) => EnableAuto(db, n)
    case DoCreateIndex(s, n, kps, u) => CreateIndex(db, s, n, kps, u)
    case DoPut(s, d) => Database.Put(db, s, d)
    case DoDelete(s, k) => Database.Delete(db, s, k)
    case DoPutAuto(s, d, t) => PutAuto(db, s, d, t)
    case DoCommit(w, c, o) => Commit(db, w, c, o)
  }

  /** A failed operation writes nothing. */
  function Step(db: Db, a: Action): Db
    requires a.DoCommit? ==> Enumerates(a.order, a.writes)
  {
    match Attempt(db, a) case Ok(db') => db' case Err(_) => db
  }

  /** What is asked of the inputs: indexed strings carry no NUL byte, `put_auto` gets an
      object and an undotted key path, and a transaction's buffer holds documents under their
      own keys (as `Transaction::put` files them). */
  ghost predicate Admissible(db: Db, a: Action) {
    match a
    case DoCreateIndex(s, n, kps, u) =>
      s in db.schema ==> CleanFor(db, Extended(db.schema[s], IndexDef(n, kps, u, false)))
    case DoPut(s, d) => s in db.schema ==> RowsClean(db.schema[s], d)
    case DoPutAuto(s, d, t) =>
      s in db.schema ==>
        d.Obj? && DOT !in db.schema[s].keyPath
        && forall id: u64 :: RowsClean(db.schema[s], InjectKey(d, db.schema[s].keyPath, id, t))
    case DoCommit(w, c, o) => Enumerates(o, w) && BufferFits(db.schema, w)
    case _ => true
  }

  /** The generated key is found where the store looks for it. */
  lemma InjectedKey(doc: Json, keyPath: bytes, id: u64, newText: text)
    requires doc.Obj? && keyPath != [] && DOT !in keyPath
    ensures Extract(InjectKey(doc, keyPath, id, newText), keyPath) == Some(NumberOf(id))
    ensures PrimaryKey(NumberOf(id)) == Ok(Decimal(id))
  {
    var doc', segments := InjectKey(doc, keyPath, id, newText), Split(keyPath);
    assert segments[1..] == [];
    assert Member(doc', segments[0]) == Some(NumberOf(id));
    assert Walk(NumberOf(id), segments[1..]) == Some(NumberOf(id));
  }

  /** Everything else in the object stays, and what is not an object stays as it is. */
  lemma InjectKeepsRest(doc: Json, keyPath: bytes, id: u64, newText: text, name: bytes)
    requires name != [] && DOT !in name && (doc.Obj? ==> name != keyPath)
    ensures Extract(InjectKey(doc, keyPath, id, newText), name) == Extract(doc, name)
    ensures !doc.Obj? ==> InjectKey(doc, keyPath, id, newText) == doc
  {
    hide Extract;
    if doc.Obj? {
      FieldName(doc, name);
      FieldName(InjectKey(doc, keyPath, id, newText), name);
    }
  }

  lemma PutAutoKeeps(db: Db, store: bytes, doc: Json, newText: text)
    requires Consistent(db) && Admissible(db, DoPutAuto(store, doc, newText))
    requires PutAuto(db, store, doc, newText).Ok?
    ensures var db' := PutAuto(db, store, doc, newText).value;
            Consistent(db') && db'.schema == db.schema
            && forall s, i: nat | s in db.schema && i < |db.schema[s].indexes|
                 && db.schema[s].indexes[i].unique && UniqueHolds(db, s, i) :: UniqueHolds(db', s, i)
  {
    hide Consistent, UniqueHolds, Live, Apply, PutBatch, HasTag, RowsClean;
    var def := db.schema[store];
    var id := NextId(db.engine, store).value;
    var doc' := InjectKey(doc, def.keyPath, id, newText);
    GeneratedFits(db, store, doc, newText, id);
    var batch := PutBatch(db.engine, def, Decimal(id), doc').value;
    PutKeeps(db, store, Decimal(id), doc');
    CounterLast(Db(Apply(db.engine, batch), db.schema), db.engine, batch, store, id);
    var db1, db' := Db(Apply(db.engine, batch), db.schema), PutAuto(db, store, doc, newText).value;
    forall s, i: nat | s in db.schema && i < |db.schema[s].indexes| && UniqueHolds(db1, s, i)
      ensures UniqueHolds(db', s, i)
    {
      SameDocumentsUnique(db1, db', s, i);
    }
  }

  lemma GeneratedFits(db: Db, store: bytes, doc: Json, newText: text, id: u64)
    requires Consistent(db) && Admissible(db, DoPutAuto(store, doc, newText)) && store in db.schema
    ensures Fits(db.schema[store], Decimal(id), InjectKey(doc, db.schema[store].keyPath, id, newText))
  {
    InjectedKey(doc, db.schema[store].keyPath, id, newText);
  }

  /** The counter record at the end of the batch disturbs nothing. */
  lemma CounterLast(db: Db, e: Engine, batch: seq<Write>, store: bytes, id: u64)
    requires Consistent(db) && db.engine == Apply(e, batch)
    ensures var e' := Apply(e, batch + [PutCell(CounterKey(store), Counter(id))]);
            Consistent(Db(e', db.schema)) && forall s, p :: Live(e', s, p) == Live(db.engine, s, p)
  {
    var k, c := CounterKey(store), Counter(id);
    ApplyAppend(e, batch, [PutCell(k, c)]);
    assert [PutCell(k, c)][1..] == [];
    OtherKeyKeeps(db, k, c);
  }

  lemma CreateStoreKeeps(db: Db, name: bytes, keyPath: bytes)
    requires Consistent(db) && CreateStore(db, name, keyPath).Ok?
    ensures Consistent(CreateStore(db, name, keyPath).value)
  {
    if name !in db.schema {
      var def := StoreDef(name, keyPath, false, []);
      OtherKeyKeeps(db, SchemaKey(name), Definition(def));
      var db1 := Db(db.engine[SchemaKey(name) := Definition(def)], db.schema);
      var db' := Db(db1.engine, db.schema[name := def]);
      forall p ensures DocKey(name, p) !in db1.engine {
        if DocKey(name, p) in db1.engine {
          assert HasTag(DocKey(name, p), DOC_PREFIX);
          var s, q :| s in db.schema && DocKey(name, p) == DocKey(s, q);
          DocKeyInjective(name, p, s, q);
        }
      }
      SameOwners(db1, db');
    }
  }

  lemma EnableAutoKeeps(db: Db, name: bytes)
    requires Consistent(db) && EnableAuto(db, name).Ok?
    ensures Consistent(EnableAuto(db, name).value)
  {
    var def := db.schema[name].(autoIncrement := true);
    OtherKeyKeeps(db, SchemaKey(name), Definition(def));
    var db1 := Db(db.engine[SchemaKey(name) := Definition(def)], db.schema);
    SameOwners(db1, Db(db1.engine, db.schema[name := def]));
  }

  /** A schema change that leaves index lists and key paths of stored documents alone. */
  lemma SameOwners(db: Db, db': Db)
    requires Consistent(db) && db'.engine == db.engine && ValidSchema(db'.schema)
    requires forall s :: s in db.schema ==>
               (s in db'.schema && db'.schema[s].indexes == db.schema[s].indexes
                && db'.schema[s].keyPath == db.schema[s].keyPath)
    requires forall s, p :: s in db'.schema && s !in db.schema ==> DocKey(s, p) !in db.engine
    ensures Consistent(db')
  {
    forall s, p, k ensures Owns(db', s, p, k) <==> Owns(db, s, p, k) {}
    forall s, p | s in db'.schema && DocKey(s, p) in db'.engine
      ensures Live(db'.engine, s, p).Some? && Fits(db'.schema[s], p, Live(db'.engine, s, p).value)
    {
      assert s in db.schema;
      assert Fits(db.schema[s], p, Live(db.engine, s, p).value);
    }
    forall k | k in db'.engine && HasTag(k, DOC_PREFIX)
      ensures exists s, p :: s in db'.schema && k == DocKey(s, p)
    {
      var s, p :| s in db.schema && k == DocKey(s, p);
      assert s in db'.schema;
    }
  }

  /** Every operation keeps the index exact, whether it succeeds or fails. */
  lemma StepKeepsConsistent(db: Db, a: Action)
    requires Consistent(db) && Admissible(db, a)
    ensures Consistent(Step(db, a))
  {
    if Attempt(db, a).Ok? {
      match a {
        case DoCreateStore(n, kp) => CreateStoreKeeps(db, n, kp);
        case DoEnableAuto(n) => EnableAutoKeeps(db, n);
        case DoCreateIndex(s, n, kps, u) =>
          CreateIndexEffect(db, s, n, kps, u);
          CreateIndexKeeps(db, CreateIndex(db, s, n, kps, u).value, s, IndexDef(n, kps, u, false));
        case DoPut(s, d) => PutKeeps(db, s, KeyOf(db.schema[s], d).value, d);
        case DoDelete(s, k) => UpdateKeepsConsistent(db, s, PrimaryKey(k).value, None);
        case DoPutAuto(s, d, t) => PutAutoKeeps(db, s, d, t);
        case DoCommit(w, c, o) => CommitKeeps(db, w, c, o);
      }
    }
  }

  lemma SameDocumentsUnique(db: Db, db': Db, s: bytes, i: nat)
    requires s in db.schema && i < |db.schema[s].indexes| && UniqueHolds(db, s, i)
    requires s in db'.schema && i < |db'.schema[s].indexes|
    requires db'.schema[s].indexes[i] == db.schema[s].indexes[i]
    requires forall p :: Live(db'.engine, s, p) == Live(db.engine, s, p)
    ensures UniqueHolds(db', s, i)
  {}

  /** Whatever uniqueness held before holds after. */
  ghost predicate KeepsUniqueness(db: Db, db': Db) {
    forall s, i: nat | s in db.schema && i < |db.schema[s].indexes|
      && db.schema[s].indexes[i].unique && UniqueHolds(db, s, i) ::
      s in db'.schema && i < |db'.schema[s].indexes| && db'.schema[s].indexes[i] == db.schema[s].indexes[i]
      && UniqueHolds(db', s, i)
  }

  /** So it does when documents and existing indexes stay. */
  lemma SameDocumentsKeepUnique(db: Db, db': Db)
    requires forall s | s in db.schema ::
               s in db'.schema && |db'.schema[s].indexes| >= |db.schema[s].indexes|
               && forall i | 0 <= i < |db.schema[s].indexes| :: db'.schema[s].indexes[i] == db.schema[s].indexes[i]
    requires forall s, p :: Live(db'.engine, s, p) == Live(db.engine, s, p)
    ensures KeepsUniqueness(db, db')
  {
    hide UniqueHolds, Live;
    forall s, i: nat | s in db.schema && i < |db.schema[s].indexes|
      && db.schema[s].indexes[i].unique && UniqueHolds(db, s, i)
      ensures UniqueHolds(db', s, i)
    {
      SameDocumentsUnique(db, db', s, i);
    }
  }

  lemma CreateStoreKeepsUnique(db: Db, name: bytes, keyPath: bytes)
    requires Consistent(db) && CreateStore(db, name, keyPath).Ok?
    ensures KeepsUniqueness(db, CreateStore(db, name, keyPath).value)
  {
    hide Consistent, KeepsUniqueness, Live;
    OtherKeyKeeps(db, SchemaKey(name), Definition(StoreDef(name, keyPath, false, [])));
    SameDocumentsKeepUnique(db, CreateStore(db, name, keyPath).value);
  }

  lemma EnableAutoKeepsUnique(db: Db, name: bytes)
    requires Consistent(db) && EnableAuto(db, name).Ok?
    ensures KeepsUniqueness(db, EnableAuto(db, name).value)
  {
    hide Consistent, KeepsUniqueness, Live;
    OtherKeyKeeps(db, SchemaKey(name), Definition(db.schema[name].(autoIncrement := true)));
    SameDocumentsKeepUnique(db, EnableAuto(db, name).value);
  }

  lemma CreateIndexKeepsUnique(db: Db, store: bytes, name: bytes, keyPaths: seq<bytes>, unique: bool)
    requires Consistent(db) && Admissible(db, DoCreateIndex(store, name, keyPaths, unique))
    requires CreateIndex(db, store, name, keyPaths, unique).Ok?
    ensures KeepsUniqueness(db, CreateIndex(db, store, name, keyPaths, unique).value)
  {
    hide Consistent, KeepsUniqueness, Live, Backfill, Apply, CleanFor, NewKey, BackfillsFor;
    var db' := CreateIndex(db, store, name, keyPaths, unique).value;
    CreateIndexEffect(db, store, name, keyPaths, unique);
    CreateIndexKeeps(db, db', store, IndexDef(name, keyPaths, unique, false));
    SameDocumentsKeepUnique(db, db');
  }

  lemma DeleteKeepsUnique(db: Db, store: bytes, key: Json)
    requires Consistent(db) && Database.Delete(db, store, key).Ok?
    ensures KeepsUniqueness(db, Database.Delete(db, store, key).value)
  {
    hide UniqueHolds, Consistent, UpdateRecords, Apply, Replaced;
    var pk, db' := PrimaryKey(key).value, Database.Delete(db, store, key).value;
    UpdateEffect(db.engine, db.schema[store], pk, None);
    forall s, i: nat | s in db.schema && i < |db.schema[s].indexes|
      && db.schema[s].indexes[i].unique && UniqueHolds(db, s, i)
      ensures UniqueHolds(db', s, i)
    {
      UpdateKeepsUnique(db, db'.engine, store, pk, None, s, i);
    }
  }

  lemma CommitKeepsAllUnique(db: Db, writes: Buffer, counters: seq<(bytes, u64)>, order: seq<Slot>)
    requires Consistent(db) && Enumerates(order, writes) && BufferFits(db.schema, writes)
    requires Commit(db, writes, counters, order).Ok?
    ensures KeepsUniqueness(db, Commit(db, writes, counters, order).value)
  {
    hide UniqueHolds, Consistent, Apply, BufferFits, Enumerates, SlotAccepted, CommitRecords, CounterRecords;
    forall s, i: nat | s in db.schema && i < |db.schema[s].indexes|
      && db.schema[s].indexes[i].unique && UniqueHolds(db, s, i)
      ensures UniqueHolds(Commit(db, writes, counters, order).value, s, i)
    {
      CommitKeepsUnique(db, writes, counters, order, s, i);
    }
  }

  lemma PutStepKeepsUnique(db: Db, store: bytes, doc: Json)
    requires Consistent(db) && Admissible(db, DoPut(store, doc)) && Database.Put(db, store, doc).Ok?
    ensures KeepsUniqueness(db, Database.Put(db, store, doc).value)
  {
    hide UniqueHolds, Consistent, UpdateRecords, Apply, RowsClean;
    PutKeeps(db, store, KeyOf(db.schema[store], doc).value, doc);
  }

  /** Uniqueness of an index, once it holds, survives every operation. */
  lemma StepKeepsUnique(db: Db, a: Action)
    requires Consistent(db) && Admissible(db, a)
    ensures KeepsUniqueness(db, Step(db, a))
  {
    hide Consistent, UniqueHolds, CreateStore, EnableAuto, CreateIndex, Database.Put, Database.Delete, PutAuto, Commit,
         RowsClean, BufferFits, CleanFor;
    if Attempt(db, a).Ok? {
      match a {
        case DoPut(t, d) => PutStepKeepsUnique(db, t, d);
        case DoDelete(t, k) => DeleteKeepsUnique(db, t, k);
        case DoPutAuto(t, d, x) => PutAutoKeeps(db, t, d, x);
        case DoCommit(w, c, o) => CommitKeepsAllUnique(db, w, c, o);
        case DoCreateStore(n, kp) => CreateStoreKeepsUnique(db, n, kp);
        case DoEnableAuto(n) => EnableAutoKeepsUnique(db, n);
        case DoCreateIndex(t, n, kps, u) => CreateIndexKeepsUnique(db, t, n, kps, u);
      }
    }
  }

  /** A run is a list of operations, each admissible where it starts. */
  ghost predicate IsRun(db: Db, run: seq<Action>)
    decreases |run|
  {
    run == [] || (Admissible(db, run[0]) && IsRun(Step(db, run[0]), run[1..]))
  }

  ghost function After(db: Db, run: seq<Action>): Db
    requires IsRun(db, run)
    decreases |run|
  {
    if run == [] then db else After(Step(db, run[0]), run[1..])
  }

  /** Runs grow at their end. */
  lemma {:induction false} RunSnoc(db: Db, run: seq<Action>, a: Action)
    requires IsRun(db, run) && Admissible(After(db, run), a)
    ensures IsRun(db, run + [a]) && After(db, run + [a]) == Step(After(db, run), a)
    decreases |run|
  {
    hide Attempt, RowsClean, BufferFits, CleanFor;
    if run == [] {
      assert run + [a] == [a] && [a][1..] == [];
    } else {
      assert (run + [a])[0] == run[0] && (run + [a])[1..] == run[1..] + [a];
      RunSnoc(Step(db, run[0]), run[1..], a);
    }
  }

  const EMPTY: Db := Db(map[], map[])

  lemma EmptyConsistent()
    ensures Consistent(EMPTY)
  {}

  /** Index consistency over every serial run. */
  lemma {:induction false} RunKeepsConsistent(db: Db, run: seq<Action>)
    requires Consistent(db) && IsRun(db, run)
    ensures Consistent(After(db, run))
    decreases |run|
  {
    if run != [] {
      StepKeepsConsistent(db, run[0]);
      RunKeepsConsistent(Step(db, run[0]), run[1..]);
    }
  }

  /** Uniqueness over every serial run. */
  lemma {:induction false} RunKeepsUnique(db: Db, run: seq<Action>, s: bytes, i: nat)
    requires Consistent(db) && IsRun(db, run)
    requires s in db.schema && i < |db.schema[s].indexes| && db.schema[s].indexes[i].unique
    requires UniqueHolds(db, s, i)
    ensures s in After(db, run).schema && i < |After(db, run).schema[s].indexes|
    ensures UniqueHolds(After(db, run), s, i)
    decreases |run|
  {
    hide Consistent, Attempt, UniqueHolds, RowsClean, BufferFits, CleanFor;
    if run != [] {
      StepKeepsConsistent(db, run[0]);
      StepKeepsUnique(db, run[0]);
      RunKeepsUnique(Step(db, run[0]), run[1..], s, i);
    }
  }
}
