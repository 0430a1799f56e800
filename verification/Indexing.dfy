/** Creating an index over existing documents keeps every index exact. */
module Indexing {
  import opened Bytes
  import opened Record
  import opened Json
  import opened Keyspace
  import opened Store
  import opened Database
  import opened Committing

  /** k is a key the new index gives to the live document pk. */
  predicate BackfillsFor(e: Engine, store: bytes, idx: IndexDef, pk: bytes, k: bytes) {
    Live(e, store, pk).Some? && k in RowKeys(store, idx, Rows(Live(e, store, pk).value, idx), pk)
  }

  ghost predicate Backfills(e: Engine, store: bytes, idx: IndexDef, ks: seq<bytes>, k: bytes) {
    exists pk :: DocKey(store, pk) in ks && BackfillsFor(e, store, idx, pk, k)
  }

  /** The documents under `ks` have been backfilled into e0, giving e'. */
  ghost predicate BackfillDone(e: Engine, e0: Engine, e': Engine, s: bytes, idx: IndexDef, ks: seq<bytes>) {
    && (forall k :: Backfills(e, s, idx, ks, k) ==>
          k in e' && e'[k].Ref? && BackfillsFor(e, s, idx, e'[k].pk, k))
    && (forall k :: !Backfills(e, s, idx, ks, k) ==>
          (k in e' <==> k in e0) && (k in e0 ==> e'[k] == e0[k]))
  }

  lemma BackfillStep(e: Engine, e0: Engine, e1: Engine, e2: Engine, s: bytes, idx: IndexDef,
                     init: seq<bytes>, pk: bytes, more: seq<bytes>)
    requires Live(e, s, pk).Some? && more == RowKeys(s, idx, Rows(Live(e, s, pk).value, idx), pk)
    requires BackfillDone(e, e0, e1, s, idx, init)
    requires e2 == e1 + (map k | k in more :: Ref(pk))
    ensures BackfillDone(e, e0, e2, s, idx, init + [DocKey(s, pk)])
  {
    var ks := init + [DocKey(s, pk)];
    forall k | Backfills(e, s, idx, ks, k)
      ensures k in e2 && e2[k].Ref? && BackfillsFor(e, s, idx, e2[k].pk, k)
    {
      BackfillsSnoc(e, s, idx, init, pk, k);
      if k in more { assert BackfillsFor(e, s, idx, pk, k); }
    }
    forall k | !Backfills(e, s, idx, ks, k)
      ensures (k in e2 <==> k in e0) && (k in e0 ==> e2[k] == e0[k])
    {
      BackfillsSnoc(e, s, idx, init, pk, k);
    }
  }

  lemma {:induction false} BackfillEffect(db: Db, e0: Engine, def: StoreDef, idx: IndexDef, ks: seq<bytes>)
    requires Consistent(db) && def.name in db.schema && def.keyPath == db.schema[def.name].keyPath
    requires forall n :: 0 <= n < |ks| ==> ks[n] in db.engine && DocPrefix(def.name) <= ks[n]
    ensures Backfill(db.engine, def, idx, ks).Ok?
    ensures BackfillDone(db.engine, e0, Apply(e0, Backfill(db.engine, def, idx, ks).value), def.name, idx, ks)
    decreases |ks|
  {
    hide Consistent, RowKeys, Rows, BackfillKey, Live, DocKey, DocPrefix, Refs;
    var e, s := db.engine, def.name;
    if ks == [] {
      BackfillNone(e, e0, def, idx);
    } else {
      hide Backfill, Apply;
      var n := |ks| - 1;
      var k0, init := ks[n], ks[..n];
      var pk := PkOf(s, k0);
      DocKeyOfPk(s, k0);
      assert ks == init + [k0];
      BackfillEffect(db, e0, def, idx, init);
      var doc := BackfillReadable(db, def, pk);
      var fills, more := Backfill(e, def, idx, init).value, RowKeys(s, idx, Rows(doc, idx), pk);
      var e1, e2 := Apply(e0, fills), Apply(e0, fills + Refs(more, pk));
      ApplyAppend(e0, fills, Refs(more, pk));
      ApplyRefs(e1, more, pk);
      BackfillStep(e, e0, e1, e2, s, idx, init, pk, more);
      BackfillUnfold(e, def, idx, ks, doc, pk);
    }
  }

  lemma BackfillNone(e: Engine, e0: Engine, def: StoreDef, idx: IndexDef)
    ensures Backfill(e, def, idx, []) == Ok([]) && BackfillDone(e, e0, Apply(e0, []), def.name, idx, [])
  {}

  lemma BackfillUnfold(e: Engine, def: StoreDef, idx: IndexDef, ks: seq<bytes>, doc: Json, pk: bytes)
    requires ks != [] && forall n :: 0 <= n < |ks| ==> ks[n] in e
    requires e[ks[|ks| - 1]] == Doc(doc) && BackfillKey(def, doc) == Ok(pk)
    requires Backfill(e, def, idx, ks[..|ks| - 1]).Ok?
    ensures Backfill(e, def, idx, ks) ==
            Ok(Backfill(e, def, idx, ks[..|ks| - 1]).value + Refs(RowKeys(def.name, idx, Rows(doc, idx), pk), pk))
  {
    var fills, more := Backfill(e, def, idx, ks[..|ks| - 1]).value, RowKeys(def.name, idx, Rows(doc, idx), pk);
    if Rows(doc, idx) == [] { assert Refs(more, pk) == [] && fills + Refs(more, pk) == fills; }
  }

  lemma BackfillReadable(db: Db, def: StoreDef, pk: bytes) returns (doc: Json)
    requires Consistent(db) && def.name in db.schema && def.keyPath == db.schema[def.name].keyPath
    requires DocKey(def.name, pk) in db.engine
    ensures db.engine[DocKey(def.name, pk)] == Doc(doc) && Live(db.engine, def.name, pk) == Some(doc)
    ensures BackfillKey(def, doc) == Ok(pk)
  {
    doc := Live(db.engine, def.name, pk).value;
    assert Fits(db.schema[def.name], pk, doc);
  }

  lemma BackfillsSnoc(e: Engine, s: bytes, idx: IndexDef, init: seq<bytes>, pk: bytes, k: bytes)
    requires Live(e, s, pk).Some?
    ensures Backfills(e, s, idx, init + [DocKey(s, pk)], k) <==>
            Backfills(e, s, idx, init, k) || k in RowKeys(s, idx, Rows(Live(e, s, pk).value, idx), pk)
  {
    var ks := init + [DocKey(s, pk)];
    if Backfills(e, s, idx, ks, k) {
      var p :| DocKey(s, p) in ks && BackfillsFor(e, s, idx, p, k);
      if DocKey(s, p) !in init {
        assert DocKey(s, p)[|DocPrefix(s)|..] == DocKey(s, pk)[|DocPrefix(s)|..];
        assert p == pk;
      }
    }
    if k in RowKeys(s, idx, Rows(Live(e, s, pk).value, idx), pk) {
      assert DocKey(s, pk) in ks && BackfillsFor(e, s, idx, pk, k);
    }
    if Backfills(e, s, idx, init, k) {
      var p :| DocKey(s, p) in init && BackfillsFor(e, s, idx, p, k);
      assert DocKey(s, p) in ks;
    }
  }

  /** Every live document stays clean under the definition that includes the new index. */
  ghost predicate CleanFor(db: Db, def: StoreDef) {
    forall p :: Live(db.engine, def.name, p).Some? ==> RowsClean(def, Live(db.engine, def.name, p).value)
  }

  function Extended(def: StoreDef, idx: IndexDef): StoreDef {
    def.(indexes := def.indexes + [idx])
  }

  lemma ExtendedKeys(def: StoreDef, idx: IndexDef, pk: bytes, doc: Json, k: bytes)
    ensures k in KeysOf(def.name, Extended(def, idx).indexes, pk, doc) <==>
            k in KeysOf(def.name, def.indexes, pk, doc) || k in RowKeys(def.name, idx, Rows(doc, idx), pk)
  {
    KeysOfAppend(def.name, def.indexes, [idx], pk, doc);
    assert KeysOf(def.name, [idx], pk, doc) == RowKeys(def.name, idx, Rows(doc, idx), pk) + [];
  }

  ghost predicate NewKey(e: Engine, store: bytes, idx: IndexDef, k: bytes) {
    exists p :: BackfillsFor(e, store, idx, p, k)
  }

  lemma NewKeyTag(e: Engine, store: bytes, idx: IndexDef, k: bytes)
    requires NewKey(e, store, idx, k)
    ensures HasTag(k, IDX_PREFIX)
  {
    var p :| BackfillsFor(e, store, idx, p, k);
  }

  /** The whole effect of `create_index` on the keyspace. */
  ghost predicate Indexed(db: Db, db': Db, store: bytes, idx: IndexDef)
    requires store in db.schema
  {
    && db'.schema == db.schema[store := Extended(db.schema[store], idx)]
    && (forall k :: NewKey(db.engine, store, idx, k) ==>
          k in db'.engine && db'.engine[k].Ref? && BackfillsFor(db.engine, store, idx, db'.engine[k].pk, k))
    && (forall k :: k != SchemaKey(store) && !NewKey(db.engine, store, idx, k) ==>
          (k in db'.engine <==> k in db.engine) && (k in db.engine ==> db'.engine[k] == db.engine[k]))
  }

  lemma CreateIndexEffect(db: Db, store: bytes, name: bytes, keyPaths: seq<bytes>, unique: bool)
    requires Consistent(db) && store in db.schema && ValidNewIndex(db.schema[store], name, keyPaths)
    ensures CreateIndex(db, store, name, keyPaths, unique).Ok?
    ensures Indexed(db, CreateIndex(db, store, name, keyPaths, unique).value, store,
                    IndexDef(name, keyPaths, unique, false))
  {
    hide Consistent, Backfill, Apply, BackfillDone, Indexed, ValidNewIndex, PrefixScan, DocPrefix, SchemaKey;
    NamesValid(db);
    var idx := IndexDef(name, keyPaths, unique, false);
    var def' := Extended(db.schema[store], idx);
    var ks := PrefixScan(db.engine, DocPrefix(store));
    var e0 := db.engine[SchemaKey(store) := Definition(def')];
    ScannedKeys(db.engine, store, ks);
    BackfillEffect(db, e0, def', idx, ks);
    var fills := Backfill(db.engine, def', idx, ks).value;
    DefinitionFirst(db.engine, SchemaKey(store), def', fills);
    WholeStoreBackfilled(db, e0, Apply(e0, fills), store, idx, ks);
  }

  lemma ScannedKeys(e: Engine, store: bytes, ks: seq<bytes>)
    requires ks == PrefixScan(e, DocPrefix(store))
    ensures forall n :: 0 <= n < |ks| ==> ks[n] in e && DocPrefix(store) <= ks[n]
  {
    hide DocPrefix;
    assert forall n :: 0 <= n < |ks| ==> ks[n] in ks;
  }

  /** Backfilling every scanned document is indexing the store. */
  lemma WholeStoreBackfilled(db: Db, e0: Engine, e': Engine, store: bytes, idx: IndexDef, ks: seq<bytes>)
    requires store in db.schema && ks == PrefixScan(db.engine, DocPrefix(store))
    requires e0 == db.engine[SchemaKey(store) := Definition(Extended(db.schema[store], idx))]
    requires BackfillDone(db.engine, e0, e', store, idx, ks)
    ensures Indexed(db, Db(e', db.schema[store := Extended(db.schema[store], idx)]), store, idx)
  {
    hide BackfillsFor, PrefixScan, SchemaKey, DocKey, DocPrefix;
    forall k ensures NewKey(db.engine, store, idx, k) <==> Backfills(db.engine, store, idx, ks, k) {
      if NewKey(db.engine, store, idx, k) {
        var p :| BackfillsFor(db.engine, store, idx, p, k);
        LiveKeyScanned(db.engine, store, idx, p, k);
      }
    }
  }

  lemma DefinitionFirst(e: Engine, k: bytes, def: StoreDef, rest: seq<Write>)
    ensures Apply(e, [PutCell(k, Definition(def))] + rest) == Apply(e[k := Definition(def)], rest)
  {
    assert ([PutCell(k, Definition(def))] + rest)[1..] == rest;
  }

  lemma LiveKeyScanned(e: Engine, store: bytes, idx: IndexDef, p: bytes, k: bytes)
    requires BackfillsFor(e, store, idx, p, k)
    ensures DocKey(store, p) in PrefixScan(e, DocPrefix(store))
  {
    assert DocPrefix(store) <= DocKey(store, p);
  }

  lemma CreateIndexLive(db: Db, db': Db, store: bytes, idx: IndexDef, k: bytes)
    requires store in db.schema && Indexed(db, db', store, idx) && HasTag(k, DOC_PREFIX)
    ensures (k in db'.engine <==> k in db.engine) && (k in db.engine ==> db'.engine[k] == db.engine[k])
  {
    if NewKey(db.engine, store, idx, k) { NewKeyTag(db.engine, store, idx, k); }
  }

  lemma CreateIndexDocuments(db: Db, db': Db, store: bytes, idx: IndexDef)
    requires Consistent(db) && store in db.schema && Indexed(db, db', store, idx)
    requires CleanFor(db, Extended(db.schema[store], idx))
    ensures forall s, p :: Live(db'.engine, s, p) == Live(db.engine, s, p)
    ensures DocumentsOk(db')
  {
    forall s, p ensures Live(db'.engine, s, p) == Live(db.engine, s, p) {
      CreateIndexLive(db, db', store, idx, DocKey(s, p));
    }
    forall s, p | s in db'.schema && DocKey(s, p) in db'.engine
      ensures Live(db'.engine, s, p).Some? && Fits(db'.schema[s], p, Live(db'.engine, s, p).value)
    {
      CreateIndexLive(db, db', store, idx, DocKey(s, p));
      assert Fits(db.schema[s], p, Live(db.engine, s, p).value);
    }
    forall k | k in db'.engine && HasTag(k, DOC_PREFIX)
      ensures exists s, p :: s in db'.schema && k == DocKey(s, p)
    {
      CreateIndexLive(db, db', store, idx, k);
      var s, p :| s in db.schema && k == DocKey(s, p);
      assert s in db'.schema;
    }
  }

  /** Backfilling a new index keeps every index exact, the new one included. */
  lemma CreateIndexKeeps(db: Db, db': Db, store: bytes, idx: IndexDef)
    requires Consistent(db) && store in db.schema && Indexed(db, db', store, idx)
    requires ValidNewIndex(db.schema[store], idx.name, idx.keyPaths)
    requires CleanFor(db, Extended(db.schema[store], idx))
    ensures Consistent(db')
    ensures forall s, p :: Live(db'.engine, s, p) == Live(db.engine, s, p)
  {
    CreateIndexDocuments(db, db', store, idx);
    assert ValidSchema(db'.schema);
    forall k | k in db'.engine && HasTag(k, IDX_PREFIX) ensures exists s, p :: Owns(db', s, p, k) {
      var s, p := CreateIndexOwner(db, db', store, idx, k);
    }
    forall s, p, k | Owns(db', s, p, k) ensures k in db'.engine && db'.engine[k] == Ref(p) {
      CreateIndexOwns(db, db', store, idx, s, p, k);
    }
  }

  lemma NotSchema(store: bytes, k: bytes)
    requires HasTag(k, IDX_PREFIX)
    ensures k != SchemaKey(store)
  {}

  lemma OldOwner(db: Db, k: bytes) returns (s: bytes, p: bytes)
    requires Consistent(db) && k in db.engine && HasTag(k, IDX_PREFIX)
    ensures Owns(db, s, p, k)
  {
    s, p :| Owns(db, s, p, k);
  }

  lemma CreateIndexOwner(db: Db, db': Db, store: bytes, idx: IndexDef, k: bytes) returns (s: bytes, p: bytes)
    requires Consistent(db) && store in db.schema && Indexed(db, db', store, idx)
    requires forall s, p :: Live(db'.engine, s, p) == Live(db.engine, s, p)
    requires k in db'.engine && HasTag(k, IDX_PREFIX)
    ensures Owns(db', s, p, k)
  {
    NamesValid(db);
    hide Consistent, Indexed, BackfillsFor, Owns, Live, SchemaKey, HasTag;
    if NewKey(db.engine, store, idx, k) {
      s, p := store, db'.engine[k].pk;
      NewKeyFits(db, db', store, idx, k);
      BackfilledOwned(db, db', store, idx, p, k);
    } else {
      NotSchema(store, k);
      OldKeyStays(db, db', store, idx, k);
      s, p := OldOwner(db, k);
      OwnedStill(db, db', store, idx, s, p, k);
    }
  }

  lemma NewKeyFits(db: Db, db': Db, store: bytes, idx: IndexDef, k: bytes)
    requires store in db.schema && Indexed(db, db', store, idx) && NewKey(db.engine, store, idx, k)
    ensures k in db'.engine && db'.engine[k].Ref? && BackfillsFor(db.engine, store, idx, db'.engine[k].pk, k)
  {}

  lemma OldKeyStays(db: Db, db': Db, store: bytes, idx: IndexDef, k: bytes)
    requires store in db.schema && Indexed(db, db', store, idx) && !NewKey(db.engine, store, idx, k)
    requires k in db'.engine && k != SchemaKey(store)
    ensures k in db.engine
  {}

  lemma BackfilledOwned(db: Db, db': Db, store: bytes, idx: IndexDef, p: bytes, k: bytes)
    requires store in db.schema && db.schema[store].name == store && Indexed(db, db', store, idx)
    requires Live(db'.engine, store, p) == Live(db.engine, store, p) && BackfillsFor(db.engine, store, idx, p, k)
    ensures Owns(db', store, p, k)
  {
    hide Live, KeysOf, RowKeys;
    ExtendedKeys(db.schema[store], idx, p, Live(db.engine, store, p).value, k);
  }

  lemma OwnedStill(db: Db, db': Db, store: bytes, idx: IndexDef, s: bytes, p: bytes, k: bytes)
    requires store in db.schema && db.schema[store].name == store && Indexed(db, db', store, idx)
    requires Live(db'.engine, s, p) == Live(db.engine, s, p) && Owns(db, s, p, k)
    ensures Owns(db', s, p, k)
  {
    hide Live, KeysOf, RowKeys;
    if s == store { ExtendedKeys(db.schema[store], idx, p, Live(db.engine, s, p).value, k); }
  }

  lemma CreateIndexOwns(db: Db, db': Db, store: bytes, idx: IndexDef, s: bytes, p: bytes, k: bytes)
    requires Consistent(db) && store in db.schema && Indexed(db, db', store, idx)
    requires ValidSchema(db'.schema) && DocumentsOk(db')
    requires forall s, p :: Live(db'.engine, s, p) == Live(db.engine, s, p)
    requires Owns(db', s, p, k)
    ensures k in db'.engine && db'.engine[k] == Ref(p)
  {
    hide Consistent, DocumentsOk, ValidSchema, KeysOf, RowKeys, Live, SchemaKey;
    NamesValid(db);
    NotDefinition(store, s, db'.schema[s].indexes, p, Live(db.engine, s, p).value, k);
    if s == store { ExtendedKeys(db.schema[store], idx, p, Live(db.engine, s, p).value, k); }
    if NewKey(db.engine, store, idx, k) {
      NewKeyOwner(db, db', store, idx, s, p, k);
    } else {
      assert s == store ==> !BackfillsFor(db.engine, store, idx, p, k);
      assert Owns(db, s, p, k);
      OwnedIsRef(db, s, p, k);
    }
  }

  lemma NotDefinition(store: bytes, s: bytes, idxs: seq<IndexDef>, p: bytes, doc: Json, k: bytes)
    requires k in KeysOf(s, idxs, p, doc)
    ensures k != SchemaKey(store)
  {
    KeysOfTag(s, idxs, p, doc, k);
  }

  lemma OwnedIsRef(db: Db, s: bytes, p: bytes, k: bytes)
    requires Consistent(db) && Owns(db, s, p, k)
    ensures k in db.engine && db.engine[k] == Ref(p)
  {}

  /** A backfilled key maps to the document that owns it. */
  lemma NewKeyOwner(db: Db, db': Db, store: bytes, idx: IndexDef, s: bytes, p: bytes, k: bytes)
    requires store in db.schema && db.schema[store].name == store && Indexed(db, db', store, idx)
    requires ValidSchema(db'.schema) && DocumentsOk(db')
    requires forall s, p :: Live(db'.engine, s, p) == Live(db.engine, s, p)
    requires Owns(db', s, p, k) && NewKey(db.engine, store, idx, k)
    ensures k in db'.engine && db'.engine[k] == Ref(p)
  {
    hide DocumentsOk, ValidSchema, KeysOf, RowKeys, Live;
    var q := db'.engine[k].pk;
    ExtendedKeys(db.schema[store], idx, q, Live(db.engine, store, q).value, k);
    assert Owns(db', store, q, k);
    LiveClean(db', s, p);
    LiveClean(db', store, q);
    OwnerUnique(db', s, p, store, q, k);
  }

  lemma LiveClean(db: Db, s: bytes, p: bytes)
    requires DocumentsOk(db) && s in db.schema && Live(db.engine, s, p).Some?
    ensures RowsClean(db.schema[s], Live(db.engine, s, p).value)
  {
    assert DocKey(s, p) in db.engine;
  }
}
