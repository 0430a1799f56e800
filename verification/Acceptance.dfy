/** When the operations of the document layer succeed, and with which error they fail
    (`src/jsondb/db.rs`, `src/jsondb/helpers.rs`, `src/jsondb/transaction.rs`). */
module Acceptance {
  import opened Bytes
  import opened BigEndian
  import opened Record
  import opened Json
  import opened Encoding
  import opened Keyspace
  import opened Store
  import opened Database
  import opened Committing
  import opened Indexing
  import opened Lookup
  import opened Query
  import opened Runs
  import opened Effects

  // ---------------------------------------------------------------- documents

  /** Only strings that contain NUL are refused as keys. */
  lemma KeyRefusedExactly(v: Json)
    ensures PrimaryKey(v).Err? <==> v.Str? && SEP in v.s
    ensures PrimaryKey(v).Err? ==> PrimaryKey(v).error == BadPrimaryKey
  {}

  lemma Readable(db: Db, store: bytes, p: bytes)
    requires Consistent(db) && store in db.schema
    ensures SlotReadable(db.engine, store, p) && db.schema[store].name == store
  {
    hide Consistent;
    NamesValid(db);
    StoredIsLive(db, store, p);
  }

  /** A put is refused for an unknown store, a missing or unusable key, or another live document
      with an encoded value of a unique index in common, and for nothing else. */
  lemma PutAcceptedExactly(db: Db, store: bytes, doc: Json)
    requires Consistent(db) && (store in db.schema ==> RowsClean(db.schema[store], doc))
    ensures var r := Database.Put(db, store, doc);
            if store !in db.schema then r == Err(StoreNotFound)
            else match Extract(doc, db.schema[store].keyPath)
              case None => r == Err(MissingKeyPath)
              case Some(v) =>
                if PrimaryKey(v).Err? then r == Err(BadPrimaryKey)
                else if Clash(db, store, PrimaryKey(v).value, doc) then r == Err(UniqueViolation)
                else r.Ok?
  {
    hide Consistent, RowsClean, UniqueFree, Clash, Extract, Apply, UpdateRecords, SlotReadable;
    if store in db.schema && KeyOf(db.schema[store], doc).Ok? {
      var p := KeyOf(db.schema[store], doc).value;
      Readable(db, store, p);
      UniqueCheckExact(db, store, p, doc);
    }
  }

  /** A delete is refused for an unknown store or an unusable key only. */
  lemma DeleteAcceptedExactly(db: Db, store: bytes, key: Json)
    requires Consistent(db)
    ensures var r := Database.Delete(db, store, key);
            if store !in db.schema then r == Err(StoreNotFound)
            else if PrimaryKey(key).Err? then r == Err(BadPrimaryKey) else r.Ok?
  {
    hide Consistent, Apply, UpdateRecords, SlotReadable;
    if store in db.schema && PrimaryKey(key).Ok? { Readable(db, store, PrimaryKey(key).value); }
  }

  /** put_auto needs a store with the flag and a readable counter, and obeys unique indexes. */
  lemma PutAutoAcceptedExactly(db: Db, store: bytes, doc: Json, newText: text)
    requires Consistent(db) && Admissible(db, DoPutAuto(store, doc, newText))
    ensures var r := PutAuto(db, store, doc, newText);
            if store !in db.schema then r == Err(StoreNotFound)
            else if !db.schema[store].autoIncrement then r == Err(NotAutoIncrement)
            else match NextId(db.engine, store)
              case Err(_) => r == Err(Corrupted)
              case Ok(id) =>
                var doc' := InjectKey(doc, db.schema[store].keyPath, id, newText);
                if Clash(db, store, Decimal(id), doc') then r == Err(UniqueViolation) else r.Ok?
  {
    hide Consistent, RowsClean, UniqueFree, Clash, Apply, UpdateRecords, SlotReadable, InjectKey, Decimal;
    if store in db.schema && NextId(db.engine, store).Ok? {
      var id := NextId(db.engine, store).value;
      Readable(db, store, Decimal(id));
      UniqueCheckExact(db, store, Decimal(id), InjectKey(doc, db.schema[store].keyPath, id, newText));
    }
  }

  // ---------------------------------------------------------------- commit

  /** Another document of the buffer shares an encoded value of a unique index with this one. */
  ghost predicate BufferClash(sch: Schema, writes: Buffer, slot: Slot, doc: Json)
    requires slot.store in sch
  {
    exists i, o :: 0 <= i < |sch[slot.store].indexes| && sch[slot.store].indexes[i].unique
                   && o in writes && o.store == slot.store && o != slot && writes[o].Some?
                   && RowsMeet(sch[slot.store].indexes[i], doc, writes[o].value)
  }

  lemma BufferTakenMeets(writes: Buffer, idx: IndexDef, slot: Slot, doc: Json)
    ensures (exists r :: 0 <= r < |Rows(doc, idx)| && BufferTaken(writes, idx, slot, Rows(doc, idx)[r])) <==>
            exists o :: o in writes && o.store == slot.store && o != slot && writes[o].Some?
                        && RowsMeet(idx, doc, writes[o].value)
  {
    hide Rows, EncodeRow;
    if r :| 0 <= r < |Rows(doc, idx)| && BufferTaken(writes, idx, slot, Rows(doc, idx)[r]) {
      var o :| o in writes && o.store == slot.store && o != slot && writes[o].Some?
        && exists l :: 0 <= l < |Rows(writes[o].value, idx)|
                    && EncodeRow(Rows(writes[o].value, idx)[l]) == EncodeRow(Rows(doc, idx)[r]);
      assert RowsMeet(idx, doc, writes[o].value);
    }
  }

  lemma BufferFreeExact(sch: Schema, writes: Buffer, slot: Slot, doc: Json)
    requires slot.store in sch
    ensures BufferFree(writes, sch[slot.store], slot, doc) <==> !BufferClash(sch, writes, slot, doc)
  {
    hide Rows, RowsMeet, BufferTaken;
    var def := sch[slot.store];
    forall i | 0 <= i < |def.indexes|
      ensures (exists r :: 0 <= r < |Rows(doc, def.indexes[i])|
                        && BufferTaken(writes, def.indexes[i], slot, Rows(doc, def.indexes[i])[r])) <==>
              exists o :: o in writes && o.store == slot.store && o != slot && writes[o].Some?
                          && RowsMeet(def.indexes[i], doc, writes[o].value)
    {
      BufferTakenMeets(writes, def.indexes[i], slot, doc);
    }
  }

  /** A commit is refused exactly when a buffered document clashes with another document of the
      buffer, or with one that was stored before: also when the transaction itself deletes or
      changes that one. */
  lemma CommitAcceptedExactly(db: Db, writes: Buffer, counters: seq<(bytes, u64)>, order: seq<Slot>)
    requires Consistent(db) && BufferFits(db.schema, writes) && Enumerates(order, writes)
    ensures Database.Commit(db, writes, counters, order).Ok? <==>
            forall s :: s in writes && writes[s].Some? ==>
              s.store in db.schema && !Clash(db, s.store, s.pk, writes[s].value)
              && !BufferClash(db.schema, writes, s, writes[s].value)
  {
    hide Consistent, RowsClean, KeyMatches, UniqueFree, BufferFree, Clash, BufferClash, Enumerates, Apply,
         CommitRecords, CounterRecords;
    forall s | s in writes && writes[s].Some?
      ensures s.store in db.schema
      ensures UniqueFree(db.engine, db.schema[s.store], s.pk, writes[s].value) <==>
              !Clash(db, s.store, s.pk, writes[s].value)
      ensures BufferFree(writes, db.schema[s.store], s, writes[s].value) <==>
              !BufferClash(db.schema, writes, s, writes[s].value)
    {
      assert Fits(db.schema[s.store], s.pk, writes[s].value);
      UniqueCheckExact(db, s.store, s.pk, writes[s].value);
      BufferFreeExact(db.schema, writes, s, writes[s].value);
    }
  }

  // ---------------------------------------------------------------- schema

  /** A store is created under a valid name with a key path.  Creating it again with the same key
      path changes nothing, with another one it is refused; no other store and no document is
      touched. */
  lemma CreateStoreExactly(db: Db, name: bytes, keyPath: bytes)
    requires Consistent(db)
    ensures var r := CreateStore(db, name, keyPath);
            && (r.Ok? <==>
                  ValidName(name) && keyPath != [] && (name in db.schema ==> db.schema[name].keyPath == keyPath))
            && (r.Err? ==> r.error == InvalidDefinition)
            && (r.Ok? && name in db.schema ==> r.value == db)
            && (r.Ok? && name !in db.schema ==>
                  && name in r.value.schema
                  && r.value.schema == db.schema[name := r.value.schema[name]]
                  && r.value.schema[name].name == name && r.value.schema[name].keyPath == keyPath
                  && !r.value.schema[name].autoIncrement && r.value.schema[name].indexes == []
                  && forall s, p :: Live(r.value.engine, s, p) == Live(db.engine, s, p))
  {
    hide Consistent, Live, ValidName;
    if CreateStore(db, name, keyPath).Ok? && name !in db.schema {
      OtherKeyKeeps(db, SchemaKey(name), Definition(StoreDef(name, keyPath, false, [])));
    }
  }

  /** Enabling auto-increment sets that flag of that store and nothing else. */
  lemma EnableAutoExactly(db: Db, name: bytes)
    requires Consistent(db)
    ensures var r := EnableAuto(db, name);
            && (r.Ok? <==> name in db.schema) && (r.Err? ==> r.error == StoreNotFound)
            && (r.Ok? ==>
                  && name in r.value.schema && r.value.schema[name].autoIncrement
                  && r.value.schema[name].(autoIncrement := db.schema[name].autoIncrement) == db.schema[name]
                  && (forall s :: s in r.value.schema <==> s in db.schema)
                  && (forall s :: s in db.schema && s != name ==> r.value.schema[s] == db.schema[s])
                  && forall s, p :: Live(r.value.engine, s, p) == Live(db.engine, s, p))
  {
    hide Consistent, Live;
    if name in db.schema {
      OtherKeyKeeps(db, SchemaKey(name), Definition(db.schema[name].(autoIncrement := true)));
    }
  }

  /** An index is created on a known store under a valid name that no other index of it has, with
      at least one key path and none of them empty; whatever the documents hold. */
  lemma CreateIndexAcceptedExactly(db: Db, store: bytes, name: bytes, keyPaths: seq<bytes>, unique: bool)
    requires Consistent(db)
    ensures var r := CreateIndex(db, store, name, keyPaths, unique);
            && (r.Ok? <==>
                  store in db.schema && ValidName(name) && keyPaths != []
                  && (forall i :: 0 <= i < |keyPaths| ==> keyPaths[i] != [])
                  && (forall i :: 0 <= i < |db.schema[store].indexes| ==> db.schema[store].indexes[i].name != name))
            && (r.Err? ==> r.error == if store in db.schema then InvalidDefinition else StoreNotFound)
  {
    hide Consistent, Indexed, Backfill, Apply, ValidName;
    if store in db.schema && ValidNewIndex(db.schema[store], name, keyPaths) {
      CreateIndexEffect(db, store, name, keyPaths, unique);
    }
  }
}
