/** Runs in which the document layer breaks a promise: the inputs behind `InPlans.InPlanExact`,
    `InPlans.InPlanOrderedExactly`, `Effects.NewIndexUniqueExactly`, `PrimaryKeys.KeysMeetExactly`,
    `Acceptance.CommitAcceptedExactly` and the restriction to strings without NUL bytes. */
module Witnesses {
  import opened Bytes
  import opened BigEndian
  import opened Record
  import opened Seqs
  import opened Json
  import opened Paths
  import opened Encoding
  import opened Keyspace
  import opened Store
  import opened Database
  import opened Indexing
  import opened Lookup
  import opened Query
  import opened PlanCounts
  import opened InPlans
  import opened Runs
  import opened Effects
  import opened ReadYourWrites
  import opened SmallRuns
  import opened PrimaryKeys
  import opened Committing
  import opened Acceptance

  const STORE: bytes := [115]
  const FIELD: bytes := [97]

  /** The index "i" on the field, and one whose name extends its name. */
  const FIRST: IndexDef := IndexDef([105], [FIELD], false, false)
  const SECOND: IndexDef := IndexDef([105, 106], [FIELD], false, false)

  /** A document with this key and this number in the field. */
  function Numbered(key: bytes, n: i64): Json {
    Obj(map[[107] := Str(key), FIELD := I64(n)], [123, 125])
  }

  lemma NumberedFields(def: StoreDef, key: bytes, n: i64)
    requires def.keyPath == [107] && SEP !in key
    requires forall i :: 0 <= i < |def.indexes| ==> def.indexes[i].keyPaths == [FIELD] && !def.indexes[i].multiEntry
    ensures KeyOf(def, Numbered(key, n)) == Ok(key) && Extract(Numbered(key, n), FIELD) == Some(I64(n))
    ensures RowsClean(def, Numbered(key, n))
    ensures forall i :: 0 <= i < |def.indexes| ==> Rows(Numbered(key, n), def.indexes[i]) == [[I64(n)]]
  {
    FieldName(Numbered(key, n), [107]);
    FieldName(Numbered(key, n), FIELD);
    hide Extract, Rows;
    forall i | 0 <= i < |def.indexes| ensures Rows(Numbered(key, n), def.indexes[i]) == [[I64(n)]] {
      NamedRow(Numbered(key, n), def.indexes[i], FIELD);
    }
  }

  // ---------------------------------------------------------------- a document returned twice

  const ANY_OF: seq<Filter> := [WhereIn(FIELD, [I64(1), I64(2)])]

  lemma ChoosesFirst()
    ensures Best(ANY_OF, [FIRST, SECOND]) == Some(FIRST) && StartsIn(ANY_OF, FIRST.keyPaths)
  {
    assert FirstOn(ANY_OF, FIELD) == Some(ANY_OF[0]);
    assert [FIRST, SECOND][..1] == [FIRST] && [FIRST][..0] == [];
    assert [FIELD][1..] == [];
    assert Score(ANY_OF, [FIELD]) == 1;
    assert Best(ANY_OF, []) == None && Best(ANY_OF, [FIRST]) == Some(FIRST);
  }

  lemma NumberedMatches(key: bytes, n: i64)
    requires SEP !in key && (n == 1 || n == 2)
    ensures AllMatch(Numbered(key, n), ANY_OF)
  {
    NumberedFields(StoreDef(STORE, [107], false, []), key, n);
    hide Extract;
    var vals := ANY_OF[0].vals;
    assert EncodeValue(I64(n)) == EncodeValue(vals[n - 1]);
  }

  /** The store with both indexes. */
  lemma TwoIndexes() returns (run: seq<Action>, db: Db)
    ensures Reached(run, db) && STORE in db.schema && Holds(db, STORE, map[])
    ensures db.schema[STORE] == StoreDef(STORE, [107], false, [FIRST, SECOND])
  {
    hide Reached, Holds;
    run, db := FreshStore(STORE, [107]);
    run, db := ThenIndex(run, db, STORE, FIRST.name, FIRST.keyPaths, false, map[]);
    assert [] + [FIRST] == [FIRST];
    run, db := ThenIndex(run, db, STORE, SECOND.name, SECOND.keyPaths, false, map[]);
    assert [FIRST] + [SECOND] == [FIRST, SECOND];
  }

  lemma TwoEntries(key: bytes, n: i64)
    requires SEP !in key
    ensures |EntriesIn([FIRST, SECOND], FIRST.name, Numbered(key, n))| == 2
  {
    var def := StoreDef(STORE, [107], false, [FIRST, SECOND]);
    NumberedFields(def, key, n);
    assert def.indexes[0] == FIRST && def.indexes[1] == SECOND && FIRST.name <= SECOND.name;
    hide Rows, EncodeRow, EntriesIn, Numbered;
    var doc, row := Numbered(key, n), EncodeRow([I64(n)]);
    OneRow(def.indexes, FIRST.name, doc, 0);
    OneRow(def.indexes, FIRST.name, doc, 1);
    assert EntriesIn(def.indexes, FIRST.name, doc) == {(0, row), (1, row)};
  }

  /** An index with one row gives one entry. */
  lemma OneRow(idxs: seq<IndexDef>, name: bytes, doc: Json, i: nat)
    requires Read(idxs, name, i) && |Rows(doc, idxs[i])| == 1
    ensures forall x :: x in EntriesIn(idxs, name, doc) ==> x.0 < |idxs|
    ensures forall x :: x in EntriesIn(idxs, name, doc) && x.0 == i ==> x.1 == EncodeRow(Rows(doc, idxs[i])[0])
    ensures (i, EncodeRow(Rows(doc, idxs[i])[0])) in EntriesIn(idxs, name, doc)
  {
    hide Rows, EncodeRow;
  }

  /** After this run an `In` query returns the only document twice. */
  lemma DocumentReturnedTwice() returns (run: seq<Action>, db: Db, spec: QuerySpec)
    ensures IsRun(EMPTY, run) && db == After(EMPTY, run) && STORE in db.schema
    ensures Holds(db, STORE, map[[120] := Numbered([120], 2)])
    ensures Collect(db, STORE, spec).Ok? && Reference(db, STORE, spec).Ok?
    ensures multiset(Collect(db, STORE, spec).value)[Numbered([120], 2)] == 2
    ensures multiset(Collect(db, STORE, spec).value) != multiset(Reference(db, STORE, spec).value)
  {
    hide Consistent, IsRun, Collect, Reference, Best, AllMatch, EntriesIn, StartsIn, Numbered, KeyOf, RowsClean, Live,
         EncodeRow, Rows;
    spec := QuerySpec(ANY_OF, None, Asc);
    run, db := TwoIndexes();
    NumberedFields(db.schema[STORE], [120], 2);
    run, db := ThenPut(run, db, STORE, Numbered([120], 2), [120], map[]);
    assert map[][[120] := Numbered([120], 2)] == map[[120] := Numbered([120], 2)];
    ChoosesFirst();
    NumberedMatches([120], 2);
    TwoEntries([120], 2);
    InPlanExact(db, STORE, spec, FIRST);
    assert Wanted(db.engine, STORE, ANY_OF, [120]);
  }

  /** And with a second document, ordering by the field fails: the scan reads 1, 2, 1, 2. */
  lemma AnswerOutOfOrder() returns (run: seq<Action>, db: Db, spec: QuerySpec)
    ensures IsRun(EMPTY, run) && db == After(EMPTY, run) && STORE in db.schema
    ensures Holds(db, STORE, map[[120] := Numbered([120], 2), [121] := Numbered([121], 1)])
    ensures spec.orderField == Some(FIELD) && Collect(db, STORE, spec).Ok?
    ensures !SortedBy(Collect(db, STORE, spec).value, FIELD, spec.orderDir)
  {
    hide Consistent, IsRun, Collect, Best, AllMatch, StartsIn, Numbered, KeyOf, RowsClean, Live, SortedBy,
         EncodeRow, Rows, InStep;
    spec := QuerySpec(ANY_OF, Some(FIELD), Asc);
    run, db := TwoIndexes();
    NumberedFields(db.schema[STORE], [120], 2);
    NumberedFields(db.schema[STORE], [121], 1);
    run, db := ThenPut(run, db, STORE, Numbered([120], 2), [120], map[]);
    run, db := ThenPut(run, db, STORE, Numbered([121], 1), [121], map[][[120] := Numbered([120], 2)]);
    assert map[][[120] := Numbered([120], 2)][[121] := Numbered([121], 1)]
        == map[[120] := Numbered([120], 2), [121] := Numbered([121], 1)];
    ChoosesFirst();
    OutOfStep(db);
    InPlanOrderedExactly(db, STORE, spec, FIRST);
  }

  lemma OutOfStep(db: Db)
    requires Consistent(db) && STORE in db.schema
    requires db.schema[STORE] == StoreDef(STORE, [107], false, [FIRST, SECOND])
    requires Holds(db, STORE, map[[120] := Numbered([120], 2), [121] := Numbered([121], 1)])
    ensures !InStep(db, STORE, FIRST.name, ANY_OF, FIELD)
  {
    hide Consistent, AllMatch, Numbered, Live, EncodeRow, Rows, IdxKey, Less;
    NumberedFields(db.schema[STORE], [120], 2);
    NumberedFields(db.schema[STORE], [121], 1);
    NumberedMatches([120], 2);
    NumberedMatches([121], 1);
    var k := IdxKey(STORE, FIRST.name, EncodeRow([I64(2)]), [120]);
    var m := IdxKey(STORE, SECOND.name, EncodeRow([I64(1)]), [121]);
    assert WantedEntry(db, STORE, FIRST.name, ANY_OF, 0, [120], 0, k);
    assert WantedEntry(db, STORE, FIRST.name, ANY_OF, 1, [121], 0, m);
    KeysByName(STORE, FIRST.name, EncodeRow([I64(2)]), [120], SECOND.name, EncodeRow([I64(1)]), [121]);
    PrefixLess(FIRST.name, SECOND.name);
    TwoAboveOne();
  }

  lemma TwoAboveOne()
    ensures !AtMost(EncodeValue(I64(2)), EncodeValue(I64(1)))
  {
    ValueOrder(I64(1), I64(2));
    LessAsymmetric(EncodeValue(I64(1)), EncodeValue(I64(2)));
  }

  // ---------------------------------------------------------------- a unique index that is not

  /** After this run `create_index` accepts a unique index that two documents already break. */
  lemma UniqueIndexBroken() returns (run: seq<Action>, db: Db, db': Db)
    ensures IsRun(EMPTY, run) && db == After(EMPTY, run)
    ensures Admissible(db, DoCreateIndex(STORE, FIRST.name, [FIELD], true))
    ensures CreateIndex(db, STORE, FIRST.name, [FIELD], true) == Ok(db')
    ensures STORE in db'.schema && |db'.schema[STORE].indexes| == 1 && db'.schema[STORE].indexes[0].unique
    ensures !UniqueHolds(db', STORE, 0)
  {
    hide Consistent, IsRun, Numbered, KeyOf, RowsClean, Live, Rows, RowsMeet, CreateIndex, UniqueHolds, Admissible,
         Holds;
    var a, b := Numbered([120], 1), Numbered([121], 1);
    run, db := FreshStore(STORE, [107]);
    NumberedFields(db.schema[STORE], [120], 1);
    NumberedFields(db.schema[STORE], [121], 1);
    run, db := ThenPut(run, db, STORE, a, [120], map[]);
    run, db := ThenPut(run, db, STORE, b, [121], map[][[120] := a]);
    var idx := IndexDef(FIRST.name, [FIELD], true, false);
    var def := Extended(db.schema[STORE], idx);
    assert [] + [idx] == [idx];
    NumberedFields(def, [120], 1);
    NumberedFields(def, [121], 1);
    var run';
    run', db' := ThenIndex(run, db, STORE, FIRST.name, [FIELD], true, map[][[120] := a][[121] := b]);
    assert def.indexes[0] == idx;
    SameRowMeets(idx, a, b);
    ClashStays(db, db', idx, a, b);
  }

  lemma ClashStays(db: Db, db': Db, idx: IndexDef, a: Json, b: Json)
    requires Consistent(db) && STORE in db.schema && db.schema[STORE].indexes == []
    requires idx == IndexDef(FIRST.name, [FIELD], true, false) && RowsMeet(idx, a, b)
    requires Admissible(db, DoCreateIndex(STORE, FIRST.name, [FIELD], true))
    requires CreateIndex(db, STORE, FIRST.name, [FIELD], true) == Ok(db')
    requires Holds(db, STORE, map[][[120] := a][[121] := b])
    ensures STORE in db'.schema && db'.schema[STORE].indexes != [] && !UniqueHolds(db', STORE, 0)
  {
    hide Consistent, Live, RowsMeet, CreateIndex, Admissible, UniqueHolds;
    NewIndexUniqueExactly(db, STORE, FIRST.name, [FIELD]);
    assert Live(db.engine, STORE, [120]) == Some(a) && Live(db.engine, STORE, [121]) == Some(b);
  }

  lemma SameRowMeets(idx: IndexDef, a: Json, b: Json)
    requires Rows(a, idx) == Rows(b, idx) && Rows(a, idx) != []
    ensures RowsMeet(idx, a, b)
  {
    assert EncodeRow(Rows(a, idx)[0]) == EncodeRow(Rows(b, idx)[0]);
  }

  // ---------------------------------------------------------------- a NUL byte in an indexed string

  /** A document with this key and this string in the field. */
  function Titled(key: Json, title: bytes): Json {
    Obj(map[[107] := key, FIELD := Str(title)], [123, 125])
  }

  lemma TitledFields(key: Json, title: bytes)
    ensures KeyOf(StoreDef(STORE, [107], false, [FIRST]), Titled(key, title)) == PrimaryKey(key)
    ensures Rows(Titled(key, title), FIRST) == [[Str(title)]]
  {
    FieldName(Titled(key, title), [107]);
    NamedRow(Titled(key, title), FIRST, FIELD);
  }

  /** After this run and one more accepted put, of a string that ends in NUL, two documents share
      an index key.  It leads to the second only, so the index is no longer exact. */
  lemma NulBreaksIndex() returns (run: seq<Action>, db: Db, db': Db, k: bytes)
    ensures IsRun(EMPTY, run) && db == After(EMPTY, run) && STORE in db.schema
    ensures Database.Put(db, STORE, Titled(Str([]), [97, 0])) == Ok(db')
    ensures Holds(db', STORE, map[[0] := Titled(Null, [97]), [] := Titled(Str([]), [97, 0])])
    ensures Owns(db', STORE, [0], k) && k in db'.engine && db'.engine[k] == Ref([])
    ensures !IndexExact(db')
  {
    hide Consistent, IsRun, Titled, KeyOf, Live, Rows, Database.Put, EncodeRow, Owns, IndexExact;
    var a, b := Titled(Null, [97]), Titled(Str([]), [97, 0]);
    TitledFields(Null, [97]);
    TitledFields(Str([]), [97, 0]);
    run, db := FreshStore(STORE, [107]);
    run, db := ThenIndex(run, db, STORE, FIRST.name, FIRST.keyPaths, false, map[]);
    assert [] + [FIRST] == [FIRST];
    run, db := ThenPut(run, db, STORE, a, [0], map[]);
    PutHolds(db, STORE, b, [], map[][[0] := a]);
    db' := Database.Put(db, STORE, b).value;
    assert map[][[0] := a][[] := b] == map[[0] := a, [] := b];
    NulSharesKey(STORE, FIRST.name);
    k := IdxKey(STORE, FIRST.name, EncodeRow([Str([97])]), [0]);
    RowOwned(db', STORE, [0], a, k);
    RowOwned(db', STORE, [], b, k);
    PutWrites(db, STORE, b, [], k);
    NotExact(db', STORE, [0], k);
  }

  lemma RowOwned(db: Db, store: bytes, p: bytes, doc: Json, k: bytes)
    requires store in db.schema && db.schema[store].indexes == [FIRST] && Live(db.engine, store, p) == Some(doc)
    requires Rows(doc, FIRST) != [] && k == IdxKey(store, FIRST.name, EncodeRow(Rows(doc, FIRST)[0]), p)
    ensures Owns(db, store, p, k) && k in KeysOf(store, db.schema[store].indexes, p, doc)
  {
    hide Rows, EncodeRow, IdxKey;
    assert IsRowKey(store, db.schema[store].indexes, p, doc, k, 0, 0);
    KeysOfMember(store, db.schema[store].indexes, p, doc, k);
  }

  /** A put writes its own keys. */
  lemma PutWrites(db: Db, store: bytes, doc: Json, p: bytes, k: bytes)
    requires store in db.schema && db.schema[store].name == store && Database.Put(db, store, doc).Ok?
    requires KeyOf(db.schema[store], doc) == Ok(p) && k in KeysOf(store, db.schema[store].indexes, p, doc)
    ensures var db' := Database.Put(db, store, doc).value; k in db'.engine && db'.engine[k] == Ref(p)
  {
    hide KeysOf, Live, UpdateRecords, UniqueFree, Apply, KeyOf;
    UpdateEffect(db.engine, db.schema[store], p, Some(doc));
  }

  lemma NotExact(db: Db, s: bytes, p: bytes, k: bytes)
    requires Owns(db, s, p, k) && k in db.engine && db.engine[k] != Ref(p)
    ensures !IndexExact(db)
  {}

  // ---------------------------------------------------------------- a key that is not unique

  function Keyed(key: Json): Json {
    Obj(map[[107] := key], [123, 125])
  }

  lemma KeyedFields(key: Json)
    ensures KeyOf(StoreDef(STORE, [107], false, []), Keyed(key)) == PrimaryKey(key)
  {
    FieldName(Keyed(key), [107]);
  }

  /** After this run, which puts a document under the number 5 and another one under the string
      "5", only the second is there. */
  lemma StringReplacesNumber() returns (run: seq<Action>, db: Db)
    ensures IsRun(EMPTY, run) && db == After(EMPTY, run) && |run| >= 2
    ensures run[|run| - 2..] == [DoPut(STORE, Keyed(I64(5))), DoPut(STORE, Keyed(Str([53])))]
    ensures Holds(db, STORE, map[[53] := Keyed(Str([53]))])
  {
    hide Consistent, IsRun, Keyed, KeyOf, Live, PrimaryKey;
    var a, b := Keyed(I64(5)), Keyed(Str([53]));
    KeyedFields(I64(5));
    KeyedFields(Str([53]));
    FiveAndItsText();
    run, db := FreshStore(STORE, [107]);
    run, db := ThenPut(run, db, STORE, a, [53], map[]);
    run, db := ThenPut(run, db, STORE, b, [53], map[][[53] := a]);
    assert map[][[53] := a][[53] := b] == map[[53] := b];
  }

  lemma FiveAndItsText()
    ensures PrimaryKey(I64(5)) == Ok([53]) && PrimaryKey(Str([53])) == Ok([53])
  {}

  // ---------------------------------------------------------------- a commit that is refused

  const UNIQUE: IndexDef := IndexDef([105], [FIELD], true, false)

  /** The transaction deletes the document under "x" and puts one with the same number under
      "y". */
  const MOVE: Buffer := map[Slot(STORE, [120]) := None, Slot(STORE, [121]) := Some(Numbered([121], 1))]
  const MOVE_ORDER: seq<Slot> := [Slot(STORE, [120]), Slot(STORE, [121])]

  /** After this run the commit is refused for a unique violation, while the same delete and put,
      one after the other, both succeed. */
  lemma CommitRefused() returns (run: seq<Action>, db: Db)
    ensures IsRun(EMPTY, run) && db == After(EMPTY, run) && STORE in db.schema
    ensures BufferFits(db.schema, MOVE) && Enumerates(MOVE_ORDER, MOVE)
    ensures Database.Commit(db, MOVE, [], MOVE_ORDER) == Err(UniqueViolation)
    ensures var r := Database.Delete(db, STORE, Str([120]));
            r.Ok? && Database.Put(r.value, STORE, Numbered([121], 1)).Ok?
  {
    hide Consistent, IsRun, Numbered, KeyOf, RowsClean, Live, Rows, RowsMeet, CreateIndex, BufferFits, Enumerates,
         Database.Commit, Database.Delete, Database.Put, Holds;
    run, db := UniqueStore();
    MoveRefused(db);
    MoveSerially(db);
  }

  lemma UniqueStore() returns (run: seq<Action>, db: Db)
    ensures Reached(run, db) && STORE in db.schema && db.schema[STORE] == StoreDef(STORE, [107], false, [UNIQUE])
    ensures Holds(db, STORE, map[[120] := Numbered([120], 1)])
  {
    hide Consistent, IsRun, Numbered, KeyOf, RowsClean, Live, Rows, CreateIndex;
    var a := Numbered([120], 1);
    run, db := FreshStore(STORE, [107]);
    NumberedFields(db.schema[STORE], [120], 1);
    run, db := ThenPut(run, db, STORE, a, [120], map[]);
    assert map[][[120] := a] == map[[120] := a];
    assert [] + [UNIQUE] == [UNIQUE];
    NumberedFields(Extended(db.schema[STORE], UNIQUE), [120], 1);
    run, db := ThenIndex(run, db, STORE, UNIQUE.name, [FIELD], true, map[[120] := a]);
  }

  lemma MoveFits(db: Db)
    requires STORE in db.schema && db.schema[STORE] == StoreDef(STORE, [107], false, [UNIQUE])
    ensures BufferFits(db.schema, MOVE) && Enumerates(MOVE_ORDER, MOVE)
  {
    NumberedFields(db.schema[STORE], [121], 1);
    hide Numbered, Extract, Rows, RowsClean, PrimaryKey;
    assert MOVE_ORDER[0] in MOVE_ORDER && MOVE_ORDER[1] in MOVE_ORDER;
  }

  lemma MoveRefused(db: Db)
    requires Consistent(db) && STORE in db.schema && db.schema[STORE] == StoreDef(STORE, [107], false, [UNIQUE])
    requires Holds(db, STORE, map[[120] := Numbered([120], 1)])
    ensures BufferFits(db.schema, MOVE) && Enumerates(MOVE_ORDER, MOVE)
    ensures Database.Commit(db, MOVE, [], MOVE_ORDER) == Err(UniqueViolation)
  {
    hide Consistent, Numbered, Live, Rows, RowsMeet, RowsClean, SlotAccepted, BufferFits, Enumerates, Apply,
         CommitRecords, KeyOf;
    MoveFits(db);
    NumberedFields(db.schema[STORE], [120], 1);
    NumberedFields(db.schema[STORE], [121], 1);
    assert db.schema[STORE].indexes[0] == UNIQUE;
    SameRowMeets(UNIQUE, Numbered([121], 1), Numbered([120], 1));
    assert Live(db.engine, STORE, [120]) == Some(Numbered([120], 1));
    assert Clash(db, STORE, [121], Numbered([121], 1));
    hide Clash;
    var slot := Slot(STORE, [121]);
    assert slot in MOVE && MOVE[slot] == Some(Numbered([121], 1));
    CommitAcceptedExactly(db, MOVE, [], MOVE_ORDER);
  }

  lemma MoveSerially(db: Db)
    requires Consistent(db) && STORE in db.schema && db.schema[STORE] == StoreDef(STORE, [107], false, [UNIQUE])
    requires Holds(db, STORE, map[[120] := Numbered([120], 1)])
    ensures var r := Database.Delete(db, STORE, Str([120]));
            r.Ok? && Database.Put(r.value, STORE, Numbered([121], 1)).Ok?
  {
    hide Consistent, Numbered, Live, Rows, RowsMeet, RowsClean, Database.Put, KeyOf, Extract;
    TextKey([120]);
    hide PrimaryKey;
    DeleteAcceptedExactly(db, STORE, Str([120]));
    StepKeepsConsistent(db, DoDelete(STORE, Str([120])));
    var db1 := Database.Delete(db, STORE, Str([120])).value;
    hide Database.Delete;
    forall p ensures Live(db1.engine, STORE, p) == None { DeleteReadsBack(db, STORE, Str([120]), STORE, p); }
    DeleteReadsBack(db, STORE, Str([120]), STORE, []);
    NumberedFields(db1.schema[STORE], [121], 1);
    PutAcceptedExactly(db1, STORE, Numbered([121], 1));
    KeyFound(db1.schema[STORE], Numbered([121], 1), [121]);
  }

  lemma TextKey(s: bytes)
    requires SEP !in s
    ensures PrimaryKey(Str(s)) == Ok(s)
  {}

  lemma KeyFound(def: StoreDef, doc: Json, p: bytes)
    requires KeyOf(def, doc) == Ok(p)
    ensures Extract(doc, def.keyPath).Some? && PrimaryKey(Extract(doc, def.keyPath).value) == Ok(p)
  {}
}
