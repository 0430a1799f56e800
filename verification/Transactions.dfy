/** Explicit transactions (`src/jsondb/transaction.rs`): buffered writes, reads that see
    them, and an atomic commit. */
module Transactions {
  import opened Bytes
  import opened BigEndian
  import opened Record
  import opened Seqs
  import opened Json
  import opened Encoding
  import opened Keyspace
  import opened Store
  import opened Database
  import opened Committing
  import opened Runs
  import opened Lookup
  import opened Reading
  import opened Helpers
  import opened JsonDb
  import opened GeneratedKeys

  // ---------------------------------------------------------------- comparing values

  /** The serialiser prints a value in one way and different values differently, and the two
      float zeros do not meet. */
  predicate Faithful(v: Json, w: Json) {
    && (v.F64? && w.F64? && v.bits == w.bits ==> v == w)
    && ((v.Arr? || v.Obj?) && (w.Arr? || w.Obj?) && Payload(v) == Payload(w) ==> v == w)
    && !(IsFloatZero(v) && IsFloatZero(w) && v.bits != w.bits)
  }

  /** Comparing values is comparing encodings, and equal values make equal primary keys. */
  lemma FaithfulComparison(v: Json, w: Json)
    requires Faithful(v, w)
    ensures SameValue(v, w) <==> EncodeValue(v) == EncodeValue(w)
    ensures SameValue(v, w) ==> PrimaryKey(v) == PrimaryKey(w)
  {
    if SameValue(v, w) {
      EqualEncodings(v, w);
    }
    if EncodeValue(v) == EncodeValue(w) {
      assert EncodeValue(v)[0] == EncodeValue(w)[0];
      assert EncodeValue(v)[1..] == Payload(v) && EncodeValue(w)[1..] == Payload(w);
      SamePayload(v, w);
    }
  }

  lemma SamePayload(v: Json, w: Json)
    requires Faithful(v, w) && Tag(v) == Tag(w) && Payload(v) == Payload(w)
    ensures SameValue(v, w)
  {
    Widths();
    if v.I64? {
      BeInjective(FlipTop(AsU64(v.i)), FlipTop(AsU64(w.i)), 8);
    } else if v.U64? {
      BeInjective(FlipTop(v.u), FlipTop(w.u), 8);
    } else if v.F64? {
      BeInjective(AdjustFloat(v.bits), AdjustFloat(w.bits), 8);
    }
  }

  predicate SameField(d: Json, f: Json, path: bytes) {
    match (Extract(d, path), Extract(f, path))
    case (Some(v), Some(w)) => SameValue(v, w)
    case (None, None) => true
    case _ => false
  }

  predicate FieldIs(d: Json, path: bytes, value: Json) {
    Extract(d, path).Some? && SameValue(Extract(d, path).value, value)
  }

  /** What an index lookup should return: the field is there and encodes like the value. */
  predicate FieldEncodes(d: Json, path: bytes, value: Json) {
    Extract(d, path).Some? && EncodeValue(Extract(d, path).value) == EncodeValue(value)
  }

  /** Values met by an index lookup compare as their encodings do. */
  ghost predicate Comparable(f: bytes -> Option<Json>, def: StoreDef, path: bytes, value: Json) {
    && (forall p :: f(p).Some? && Extract(f(p).value, path).Some? ==> Faithful(Extract(f(p).value, path).value, value))
    && (forall p, q :: (f(p).Some? && f(q).Some?
                        && Extract(f(p).value, def.keyPath).Some? && Extract(f(q).value, def.keyPath).Some?) ==>
          Faithful(Extract(f(p).value, def.keyPath).value, Extract(f(q).value, def.keyPath).value))
  }

  // ---------------------------------------------------------------- walking the buffer

  lemma BadCounter(e: Engine, store: bytes)
    requires NextId(e, store).Err?
    ensures NextId(e, store).error == Corrupted
  {}

  /** A buffered document that the engine does not have, already walked past. */
  predicate NewlyWalked(e: Engine, writes: Buffer, todo: set<Slot>, store: bytes, p: bytes) {
    Slot(store, p) in writes && Slot(store, p) !in todo && writes[Slot(store, p)].Some? && DocKey(store, p) !in e
  }

  class Transaction {
    const db: JsonDB
    const readWrite: bool
    var writes: Buffer
    var counterUpdates: seq<(bytes, u64)>
    var nextIds: map<bytes, u64>
    var committed: bool

    /** The database's indexes are exact, and buffered documents are filed under their keys. */
    ghost predicate Valid()
      reads this, db
    {
      db.Valid() && BufferFits(db.schema, writes)
    }

    constructor (db: JsonDB, readWrite: bool)
      requires db.Valid()
      ensures Valid() && this.db == db && this.readWrite == readWrite
      ensures writes == map[] && counterUpdates == [] && !committed
    {
      this.db, this.readWrite := db, readWrite;
      writes, counterUpdates, nextIds, committed := map[], [], map[], false;
    }

    // -------------------------------------------------------------- buffered writes

    method Put(store: bytes, doc: Json) returns (r: Result<Json>)
      modifies this`writes
      ensures old(Valid()) && (store in db.schema ==> RowsClean(db.schema[store], doc)) ==> Valid()
      ensures r.Ok? <==> readWrite && store in db.schema && KeyOf(db.schema[store], doc).Ok?
      ensures r.Ok? ==> writes == old(writes)[Slot(store, KeyOf(db.schema[store], doc).value) := Some(doc)]
                        && Extract(doc, db.schema[store].keyPath) == Some(r.value)
      ensures r.Err? ==> writes == old(writes)
      ensures r.Err? ==> r.error == if !readWrite then ReadOnly else if store !in db.schema then StoreNotFound
                                    else KeyOf(db.schema[store], doc).error
    {
      hide Consistent;
      if !readWrite {
        return Err(ReadOnly);
      }
      if store !in db.schema {
        return Err(StoreNotFound);
      }
      var keyVal := ExtractField(doc, db.schema[store].keyPath);
      if keyVal.None? {
        return Err(MissingKeyPath);
      }
      var pk := PrimaryKey(keyVal.value);
      if pk.Err? {
        return Err(pk.error);
      }
      writes := writes[Slot(store, pk.value) := Some(doc)];
      return Ok(keyVal.value);
    }

    method Delete(store: bytes, key: Json) returns (r: Result<()>)
      modifies this`writes
      ensures old(Valid()) ==> Valid()
      ensures r.Ok? <==> readWrite && store in db.schema && PrimaryKey(key).Ok?
      ensures r.Ok? ==> writes == old(writes)[Slot(store, PrimaryKey(key).value) := None]
      ensures r.Err? ==> writes == old(writes)
      ensures r.Err? ==> r.error == if !readWrite then ReadOnly else if store !in db.schema then StoreNotFound
                                    else BadPrimaryKey
    {
      hide Consistent;
      if !readWrite {
        return Err(ReadOnly);
      }
      if store !in db.schema {
        return Err(StoreNotFound);
      }
      var pk := PrimaryKey(key);
      if pk.Err? {
        return Err(pk.error);
      }
      writes := writes[Slot(store, pk.value) := None];
      return Ok(());
    }

    /** What is buffered so far. */
    function Buffered(): Pending
      reads this
    {
      Pending(writes, counterUpdates, nextIds)
    }

    /** A generated key: the engine's counter on first use, counted on in memory afterwards;
        only the first use leaves a counter record for the commit. */
    method PutAuto(store: bytes, doc: Json, newText: text) returns (r: Result<Json>)
      modifies this`writes, this`counterUpdates, this`nextIds
      ensures r.Ok? <==> readWrite && store in db.schema && db.schema[store].autoIncrement
                         && AutoId(db.engine, old(Buffered()), store).Ok?
      ensures r.Ok? ==> Buffered() == BufferAuto(db.engine, db.schema[store], old(Buffered()), store, doc, newText)
                        && r.value == NumberOf(nextIds[store])
      ensures r.Err? ==> Buffered() == old(Buffered())
      ensures r.Err? ==> r.error == if !readWrite then ReadOnly else if store !in db.schema then StoreNotFound
                                    else if !db.schema[store].autoIncrement then NotAutoIncrement else Corrupted
      ensures old(Valid()) && Admissible(db.Snapshot(), DoPutAuto(store, doc, newText)) ==> Valid()
    {
      hide Consistent, Admissible, Fits, InjectKey, Decimal, NextId, BufferFits;
      if !readWrite {
        return Err(ReadOnly);
      }
      if store !in db.schema {
        return Err(StoreNotFound);
      }
      var def := db.schema[store];
      if !def.autoIncrement {
        return Err(NotAutoIncrement);
      }
      var id: u64;
      if store in nextIds {
        id := (nextIds[store] as int + 1) % WRAP;
      } else {
        var next := NextId(db.engine, store);
        if next.Err? {
          BadCounter(db.engine, store);
          return Err(next.error);
        }
        id := next.value;
        counterUpdates := counterUpdates + [(store, id)];
      }
      nextIds := nextIds[store := id];
      if Valid() && Admissible(db.Snapshot(), DoPutAuto(store, doc, newText)) {
        GeneratedFits(db.Snapshot(), store, doc, newText, id);
        OneMoreFits(db.schema, writes, Slot(store, Decimal(id)), InjectKey(doc, def.keyPath, id, newText));
      }
      writes := writes[Slot(store, Decimal(id)) := Some(InjectKey(doc, def.keyPath, id, newText))];
      return Ok(NumberOf(id));
    }

    /** All buffered writes and counters in one batch, or nothing: the database then is what
        `Database.Commit` makes of it, for every order of walking the buffer. */
    method Commit() returns (r: Result<()>)
      requires Valid()
      modifies this, db
      ensures Valid() && writes == old(writes)
      ensures old(committed) ==> r.Ok? && committed && db.Snapshot() == old(db.Snapshot())
      ensures !old(committed) ==>
                forall order :: Enumerates(order, writes) ==>
                  var result := Database.Commit(old(db.Snapshot()), writes, old(counterUpdates), order);
                  (r.Ok? <==> result.Ok?) && (r.Ok? ==> committed && db.Snapshot() == result.value)
      ensures r.Err? ==> !committed && db.Snapshot() == old(db.Snapshot())
    {
      hide Consistent, BufferFits, CommitRecords, CounterRecords, SlotAccepted, Apply, Enumerates, Database.Commit;
      if committed {
        return Ok(());
      }
      ghost var before, counters := db.Snapshot(), counterUpdates;
      ConsistentSchema(before);
      var batch;
      ghost var walked;
      batch, walked := CommitBatch(db.Snapshot(), writes, counterUpdates);
      counterUpdates := [];
      if batch.Err? {
        CommitRefused(before, writes, counters);
        return Err(batch.error);
      }
      CommitDone(before, writes, counters, walked, batch.value);
      db.engine := Apply(db.engine, batch.value);
      committed := true;
      return Ok(());
    }

    // -------------------------------------------------------------- reads

    /** The buffered document if there is a buffered write, otherwise the stored one. */
    method Get(store: bytes, key: Json) returns (r: Result<Option<Json>>)
      requires Valid()
      ensures r.Ok? <==> store in db.schema && PrimaryKey(key).Ok?
      ensures r.Ok? ==> r.value == Overlay(db.engine, writes, store, PrimaryKey(key).value)
    {
      if store !in db.schema {
        return Err(StoreNotFound);
      }
      var pk := PrimaryKey(key);
      if pk.Err? {
        return Err(pk.error);
      }
      if Slot(store, pk.value) in writes {
        return Ok(writes[Slot(store, pk.value)]);
      }
      var dk := DocKey(store, pk.value);
      return Ok(if dk in db.engine then Some(db.engine[dk].doc) else None);
    }

    /** All documents visible in the transaction, each once. */
    method Scan(store: bytes) returns (r: Result<seq<Json>>, ghost pks: seq<bytes>)
      requires Valid()
      ensures r.Ok? <==> store in db.schema
      ensures r.Ok? ==> ListsAll(View(db.engine, writes, store), pks, r.value)
    {
      pks := [];
      if store !in db.schema {
        return Err(StoreNotFound), pks;
      }
      var docs;
      docs, pks := StoredDocuments(db.Snapshot(), writes, store);
      docs, pks := AddBuffered(db.Snapshot(), writes, store, docs, pks);
      r := Ok(docs);
    }

    /** By a single-field index: the visible documents whose field encodes like the value,
        each once, whether stored, overwritten or new. */
    method GetByIndex(store: bytes, index: bytes, value: Json) returns (r: Result<seq<Json>>, ghost pks: seq<bytes>)
      requires Valid() && NulFree(value)
      requires store in db.schema && FindIndex(db.schema[store].indexes, index).Some? ==>
                 var idx := FindIndex(db.schema[store].indexes, index).value;
                 SingleField(idx) && Comparable(View(db.engine, writes, store), db.schema[store], idx.keyPaths[0],
                     value)
      ensures r.Ok? <==> store in db.schema && FindIndex(db.schema[store].indexes, index).Some?
      ensures r.Ok? ==> var idx := FindIndex(db.schema[store].indexes, index).value;
                        SingleField(idx) && Reads(View(db.engine, writes, store), pks, r.value)
                        && forall p :: p in pks <==> Wanted(db.Snapshot(), writes, store, idx.keyPaths[0], value, p)
    {
      pks := [];
      if store !in db.schema {
        return Err(StoreNotFound), pks;
      }
      var found := FindIndex(db.schema[store].indexes, index);
      if found.None? {
        return Err(IndexNotFound), pks;
      }
      hide Consistent, BufferFits, Comparable, Wanted;
      var idx := found.value;
      var docs;
      ghost var stored;
      docs, pks, stored := LookUpStored(db.Snapshot(), writes, store, idx, value);
      docs, pks := AddBufferedMatches(db.Snapshot(), writes, store, idx.keyPaths[0], value, docs, pks, stored);
      forall p ensures p in pks <==> Wanted(db.Snapshot(), writes, store, idx.keyPaths[0], value, p) {
        AllWanted(db.Snapshot(), writes, store, idx.keyPaths[0], value, stored, p);
      }
      r := Ok(docs);
    }

    /** Their number. */
    method Count(store: bytes) returns (r: Result<nat>, ghost pks: seq<bytes>, ghost docs: seq<Json>)
      requires Valid()
      ensures r.Ok? <==> store in db.schema
      ensures r.Ok? ==> ListsAll(View(db.engine, writes, store), pks, docs) && r.value == |docs|
    {
      pks, docs := [], [];
      if store !in db.schema {
        return Err(StoreNotFound), pks, docs;
      }
      var count;
      count, docs, pks := CountStored(db.Snapshot(), writes, store);
      count, docs, pks := CountBuffered(db.Snapshot(), writes, store, count, docs, pks);
      r := Ok(count);
    }
  }

  // ---------------------------------------------------------------- building the commit

  /** The scan of the other buffered writes for one row of a unique index. */
  method BufferRowTaken(writes: Buffer, idx: IndexDef, slot: Slot, row: seq<Json>) returns (taken: bool)
    ensures taken <==> BufferTaken(writes, idx, slot, row)
  {
    hide EncodeRow, Rows;
    var encoded := EncodeCompositeValue(row);
    var todo := writes.Keys;
    while todo != {}
      invariant todo <= writes.Keys
      invariant forall o :: o in writes && o !in todo ==> !Clashes(writes, idx, slot, row, o)
      decreases |todo|
    {
      var o :| o in todo;
      todo := todo - {o};
      if o.store != slot.store { continue; }
      if o.pk == slot.pk { continue; }
      if writes[o].Some? {
        var rows := ExtractIndexValues(writes[o].value, idx);
        for l := 0 to |rows|
          invariant forall m :: 0 <= m < l ==> EncodeRow(rows[m]) != encoded
        {
          var other := EncodeCompositeValue(rows[l]);
          if other == encoded {
            assert Clashes(writes, idx, slot, row, o);
            return true;
          }
        }
      }
    }
    return false;
  }

  /** Another buffered document has the row. */
  predicate Clashes(writes: Buffer, idx: IndexDef, slot: Slot, row: seq<Json>, o: Slot)
    requires o in writes
  {
    o.store == slot.store && o != slot && writes[o].Some?
    && exists l :: 0 <= l < |Rows(writes[o].value, idx)| && EncodeRow(Rows(writes[o].value, idx)[l]) == EncodeRow(row)
  }

  predicate IndexBufferFree(writes: Buffer, idx: IndexDef, slot: Slot, doc: Json) {
    idx.unique ==> forall r :: 0 <= r < |Rows(doc, idx)| ==> !BufferTaken(writes, idx, slot, Rows(doc, idx)[r])
  }

  lemma BufferFreeByIndex(writes: Buffer, def: StoreDef, slot: Slot, doc: Json)
    ensures BufferFree(writes, def, slot, doc) <==>
            forall i :: 0 <= i < |def.indexes| ==> IndexBufferFree(writes, def.indexes[i], slot, doc)
  {
    hide BufferTaken, Rows;
  }

  /** Unique validation against both the engine and the buffer. */
  method CheckBoth(e: Engine, writes: Buffer, def: StoreDef, idx: IndexDef, slot: Slot, doc: Json, rows: seq<seq<Json>>)
    returns (free: bool)
    requires rows == Rows(doc, idx)
    ensures free <==> IndexFree(e, def, idx, slot.pk, doc) && IndexBufferFree(writes, idx, slot, doc)
  {
    hide Taken, BufferTaken, Rows;
    if !idx.unique {
      return true;
    }
    for r := 0 to |rows|
      invariant forall l :: 0 <= l < r ==>
        !Taken(e, def, idx, rows[l], slot.pk) && !BufferTaken(writes, idx, slot, rows[l])
    {
      var stored := ValueTaken(e, def, idx, rows[r], slot.pk);
      if stored {
        return false;
      }
      var buffered := BufferRowTaken(writes, idx, slot, rows[r]);
      if buffered {
        return false;
      }
    }
    return true;
  }

  /** The body of the commit loop: the records of one buffered write. */
  method SlotRecords(db: Db, writes: Buffer, slot: Slot) returns (r: Result<seq<Write>>)
    requires slot in writes && (slot.store in db.schema ==> db.schema[slot.store].name == slot.store)
    ensures r.Ok? <==> SlotAccepted(db, writes, slot)
    ensures r.Ok? ==> r.value == UpdateRecords(db.engine, db.schema[slot.store], slot.pk, writes[slot])
  {
    hide RowKeys, KeysOf, Deletes, Refs, UniqueFree, BufferFree, IndexFree, IndexBufferFree, DocKey;
    if slot.store !in db.schema {
      return Err(StoreNotFound);
    }
    var def, pk := db.schema[slot.store], slot.pk;
    var prior := Live(db.engine, slot.store, pk);
    var records: seq<Write> := [];
    if prior.Some? {
      records := RetractEntries(def, pk, prior.value);
    }
    if writes[slot].None? {
      return Ok(records + [DeleteKey(DocKey(slot.store, pk))]);
    }
    var doc := writes[slot].value;
    ghost var retracted := records;
    records := records + [PutCell(DocKey(slot.store, pk), Doc(doc))];
    UniqueByIndex(db.engine, def, pk, doc);
    BufferFreeByIndex(writes, def, slot, doc);
    NoDeletes(def.name, pk, doc);
    assert def.indexes[..0] == [];
    for i := 0 to |def.indexes|
      invariant forall j :: 0 <= j < i ==>
                  IndexFree(db.engine, def, def.indexes[j], pk, doc)
                      && IndexBufferFree(writes, def.indexes[j], slot, doc)
      invariant records == retracted + [PutCell(DocKey(slot.store, pk), Doc(doc))]
                           + Refs(KeysOf(def.name, def.indexes[..i], pk, doc), pk)
    {
      var idx := def.indexes[i];
      var rows := ExtractIndexValues(doc, idx);
      var free := CheckBoth(db.engine, writes, def, idx, slot, doc, rows);
      if !free {
        return Err(UniqueViolation);
      }
      var ks := IndexKeys(def.name, idx, rows, pk);
      KeysOfSnoc(def.name, def.indexes, pk, doc, i);
      RefsAppend(KeysOf(def.name, def.indexes[..i], pk, doc), ks, pk);
      records := records + Refs(ks, pk);
    }
    assert def.indexes[..|def.indexes|] == def.indexes;
    PutRecords(db.engine, def, pk, doc, retracted);
    return Ok(records);
  }

  lemma {:induction false} CommitRecordsSnoc(e: Engine, sch: Schema, writes: Buffer, order: seq<Slot>, slot: Slot)
    requires Covered(order, sch, writes) && slot in writes && slot.store in sch
    ensures Covered(order + [slot], sch, writes)
    ensures CommitRecords(e, sch, writes, order + [slot]) ==
            CommitRecords(e, sch, writes, order) + UpdateRecords(e, sch[slot.store], slot.pk, writes[slot])
  {
    hide UpdateRecords;
    var all := order + [slot];
    assert forall n :: 0 <= n < |order| ==> order[n] == all[n];
    assert all[|order|] == slot;
    if order == [] {
      assert all == [slot] && all[1..] == [];
    } else {
      assert all[1..] == order[1..] + [slot];
      CommitRecordsSnoc(e, sch, writes, order[1..], slot);
    }
  }

  /** The commit loop, in whatever order the hash map yields. */
  method CommitBatch(db: Db, writes: Buffer, counters: seq<(bytes, u64)>)
    returns (r: Result<seq<Write>>, ghost order: seq<Slot>)
    requires ValidSchema(db.schema)
    ensures r.Ok? <==> forall s :: s in writes ==> SlotAccepted(db, writes, s)
    ensures r.Ok? ==> Enumerates(order, writes) && Covered(order, db.schema, writes)
                      && r.value == CounterRecords(counters) + CommitRecords(db.engine, db.schema, writes, order)
  {
    hide SlotAccepted, UpdateRecords, CounterRecords, ValidSchema;
    var records := CounterRecords(counters);
    order := [];
    var todo := writes.Keys;
    while todo != {}
      invariant todo <= writes.Keys && Distinct(order) && Covered(order, db.schema, writes)
      invariant forall s :: s in writes ==> (s in order <==> s !in todo)
      invariant forall s :: s in writes && s !in todo ==> SlotAccepted(db, writes, s)
      invariant records == CounterRecords(counters) + CommitRecords(db.engine, db.schema, writes, order)
      decreases |todo|
    {
      var slot :| slot in todo;
      todo := todo - {slot};
      SlotName(db.schema, slot);
      var part := SlotRecords(db, writes, slot);
      if part.Err? {
        return Err(part.error), order;
      }
      AcceptedStore(db, writes, slot);
      CommitRecordsSnoc(db.engine, db.schema, writes, order, slot);
      records := records + part.value;
      order := order + [slot];
    }
    r := Ok(records);
  }

  /** The batch makes the database what the commit makes of it, in any order. */
  lemma CommitDone(db: Db, writes: Buffer, counters: seq<(bytes, u64)>, walked: seq<Slot>, batch: seq<Write>)
    requires Consistent(db) && BufferFits(db.schema, writes) && Enumerates(walked, writes)
    requires Covered(walked, db.schema, writes)
    requires forall s :: s in writes ==> SlotAccepted(db, writes, s)
    requires batch == CounterRecords(counters) + CommitRecords(db.engine, db.schema, writes, walked)
    ensures Consistent(Db(Apply(db.engine, batch), db.schema))
    ensures forall order :: Enumerates(order, writes) ==>
              Database.Commit(db, writes, counters, order) == Ok(Db(Apply(db.engine, batch), db.schema))
  {
    hide Consistent, BufferFits, CommitRecords, CounterRecords, SlotAccepted, Apply, Enumerates;
    assert Database.Commit(db, writes, counters, walked) == Ok(Db(Apply(db.engine, batch), db.schema));
    CommitKeeps(db, writes, counters, walked);
    forall order | Enumerates(order, writes)
      ensures Database.Commit(db, writes, counters, order) == Database.Commit(db, writes, counters, walked)
    {
      CommitOrderIrrelevant(db, writes, counters, order, walked);
    }
  }

  lemma CommitRefused(db: Db, writes: Buffer, counters: seq<(bytes, u64)>)
    requires exists s :: s in writes && !SlotAccepted(db, writes, s)
    ensures forall order :: Enumerates(order, writes) ==> Database.Commit(db, writes, counters, order).Err?
  {
    hide SlotAccepted, CommitRecords, CounterRecords, Apply;
  }

  lemma OneMoreFits(sch: Schema, writes: Buffer, slot: Slot, doc: Json)
    requires BufferFits(sch, writes) && slot.store in sch && Fits(sch[slot.store], slot.pk, doc)
    ensures BufferFits(sch, writes[slot := Some(doc)])
  {
    hide Fits;
  }

  lemma ConsistentSchema(db: Db)
    requires Consistent(db)
    ensures ValidSchema(db.schema)
  {}

  lemma SlotName(sch: Schema, slot: Slot)
    requires ValidSchema(sch)
    ensures slot.store in sch ==> sch[slot.store].name == slot.store
  {}

  lemma AcceptedStore(db: Db, writes: Buffer, slot: Slot)
    requires slot in writes && SlotAccepted(db, writes, slot)
    ensures slot.store in db.schema
  {}

  // ---------------------------------------------------------------- index lookups

  /** The visible documents with this value in the indexed field. */
  ghost predicate Wanted(db: Db, writes: Buffer, store: bytes, path: bytes, value: Json, p: bytes) {
    Overlay(db.engine, writes, store, p).Some? && FieldEncodes(Overlay(db.engine, writes, store, p).value, path, value)
  }

  predicate SingleField(idx: IndexDef) {
    !idx.multiEntry && |idx.keyPaths| == 1
  }

  lemma SingleFieldMatching(db: Db, store: bytes, idx: IndexDef, value: Json, p: bytes)
    requires SingleField(idx)
    ensures Probe(idx, value) == [value]
    ensures Matching(db, store, idx, [value], p) <==>
            Live(db.engine, store, p).Some? && FieldEncodes(Live(db.engine, store, p).value, idx.keyPaths[0], value)
  {
    hide EncodeValue, Extract, Rows;
    if Live(db.engine, store, p).Some? {
      var doc := Live(db.engine, store, p).value;
      OnlyRow(doc, idx);
      if FieldEncodes(doc, idx.keyPaths[0], value) {
        assert MatchingRow(db, store, idx, [value], p, 0);
      }
      if Matching(db, store, idx, [value], p) {
        var r :| MatchingRow(db, store, idx, [value], p, r);
        assert Rows(doc, idx)[r] == [Extract(doc, idx.keyPaths[0]).value];
        assert EncodeValue([value][0]) == EncodeValue(Rows(doc, idx)[r][0]);
      }
    }
  }

  lemma OnlyRow(doc: Json, idx: IndexDef)
    requires SingleField(idx)
    ensures Rows(doc, idx) ==
            match Extract(doc, idx.keyPaths[0]) case Some(v) => [[v]] case None => []
  {
    hide Extract;
    var raw := RawRow(doc, idx.keyPaths);
    if raw.Some? { assert raw.value == [raw.value[0]]; }
  }

  /** What an index entry contributes: the buffered document if it still has the value, the
      stored document if nothing is buffered for it. */
  function ShowStored(e: Engine, writes: Buffer, store: bytes, path: bytes, value: Json, p: bytes): Option<Json> {
    if Slot(store, p) in writes then
      var buffered := writes[Slot(store, p)];
      if buffered.Some? && FieldIs(buffered.value, path, value) then buffered else None
    else Live(e, store, p)
  }

  lemma ShowWanted(db: Db, writes: Buffer, store: bytes, path: bytes, value: Json, p: bytes)
    requires store in db.schema && Comparable(View(db.engine, writes, store), db.schema[store], path, value)
    requires Live(db.engine, store, p).Some? && FieldEncodes(Live(db.engine, store, p).value, path, value)
    ensures ShowStored(db.engine, writes, store, path, value, p) ==
            if Wanted(db, writes, store, path, value, p) then Overlay(db.engine, writes, store, p) else None
    ensures Wanted(db, writes, store, path, value, p) ==> Overlay(db.engine, writes, store, p).Some?
    ensures View(db.engine, writes, store)(p) == Overlay(db.engine, writes, store, p)
  {
    hide Comparable, FieldEncodes, FieldIs, Live;
    WantedByValue(db, writes, store, path, value, p);
  }

  /** The first loop of `get_by_index`: what the index says, corrected by the buffer. */
  method LookUpStored(db: Db, writes: Buffer, store: bytes, idx: IndexDef, value: Json)
    returns (docs: seq<Json>, ghost pks: seq<bytes>, ghost stored: seq<bytes>)
    requires Consistent(db) && HasIndex(db, store, idx) && SingleField(idx) && NulFree(value)
    requires Comparable(View(db.engine, writes, store), db.schema[store], idx.keyPaths[0], value)
    ensures forall p :: p in stored <==>
              Live(db.engine, store, p).Some? && FieldEncodes(Live(db.engine, store, p).value, idx.keyPaths[0], value)
    ensures Reads(View(db.engine, writes, store), pks, docs)
    ensures forall p :: p in pks <==> p in stored && Wanted(db, writes, store, idx.keyPaths[0], value, p)
  {
    hide Consistent, PrefixScan, IdxValuePrefix, Live, FieldEncodes, Comparable, DocKey, EncodeRow, ShowStored, Overlay,
         Wanted, View;
    var path := idx.keyPaths[0];
    var encoded := EncodeCompositeValue([value]);
    var ks := PrefixScan(db.engine, IdxValuePrefix(store, idx.name, encoded));
    stored := StoredMatches(db, store, idx, value, ks);
    docs, pks := [], [];
    assert stored[..0] == [];
    for n := 0 to |ks|
      invariant LookedUp(db, writes, store, path, value, stored[..n], pks, docs)
    {
      var p := db.engine[ks[n]].pk;
      assert p == stored[n] && stored[..n + 1] == stored[..n] + [p] && p in stored;
      NotBefore(stored, n);
      LookUpNext(db, writes, store, path, value, stored[..n], pks, docs, p);
      var shown := ShowStored(db.engine, writes, store, path, value, p);
      if shown.Some? {
        docs, pks := docs + [shown.value], pks + [p];
      }
    }
    assert stored[..|ks|] == stored;
  }

  /** The wanted among the given keys, listed. */
  ghost predicate LookedUp(db: Db, writes: Buffer, store: bytes, path: bytes, value: Json, keys: seq<bytes>,
                           pks: seq<bytes>, docs: seq<Json>) {
    Reads(View(db.engine, writes, store), pks, docs)
    && forall p :: p in pks <==> p in keys && Wanted(db, writes, store, path, value, p)
  }

  lemma LookUpNext(db: Db, writes: Buffer, store: bytes, path: bytes, value: Json, keys: seq<bytes>, pks: seq<bytes>,
                   docs: seq<Json>, p: bytes)
    requires store in db.schema && Comparable(View(db.engine, writes, store), db.schema[store], path, value)
    requires Live(db.engine, store, p).Some? && FieldEncodes(Live(db.engine, store, p).value, path, value)
    requires LookedUp(db, writes, store, path, value, keys, pks, docs) && p !in keys
    ensures var shown := ShowStored(db.engine, writes, store, path, value, p);
            if shown.Some? then LookedUp(db, writes, store, path, value, keys + [p], pks + [p], docs + [shown.value])
            else LookedUp(db, writes, store, path, value, keys + [p], pks, docs)
  {
    hide Comparable, Live, FieldEncodes, ShowStored, Overlay, Wanted, View;
    ShowWanted(db, writes, store, path, value, p);
    if Wanted(db, writes, store, path, value, p) {
      ReadsSnoc(View(db.engine, writes, store), pks, docs, p);
    }
  }

  lemma NotBefore(s: seq<bytes>, n: nat)
    requires Distinct(s) && n < |s|
    ensures s[n] !in s[..n]
  {}

  /** The scanned entries lead to the stored documents with the value, each once. */
  lemma StoredMatches(db: Db, store: bytes, idx: IndexDef, value: Json, ks: seq<bytes>) returns (stored: seq<bytes>)
    requires Consistent(db) && HasIndex(db, store, idx) && SingleField(idx) && NulFree(value)
    requires ks == PrefixScan(db.engine, IdxValuePrefix(store, idx.name, EncodeRow([value])))
    ensures |stored| == |ks| && Distinct(stored)
    ensures forall n :: 0 <= n < |ks| ==>
              ks[n] in db.engine && db.engine[ks[n]] == Ref(stored[n])
    ensures forall p :: p in stored <==>
              Live(db.engine, store, p).Some? && FieldEncodes(Live(db.engine, store, p).value, idx.keyPaths[0], value)
  {
    hide Fetch, FieldEncodes, Matching;
    SingleFieldMatching(db, store, idx, value, []);
    var pks := GetByIndexExact(db, store, idx, value);
    forall p ensures p in pks <==>
                       Live(db.engine, store, p).Some?
                           && FieldEncodes(Live(db.engine, store, p).value, idx.keyPaths[0], value)
    {
      SingleFieldMatching(db, store, idx, value, p);
    }
    stored := pks;
  }

  /** For a visible document, comparing the value is comparing its encoding. */
  lemma WantedByValue(db: Db, writes: Buffer, store: bytes, path: bytes, value: Json, p: bytes)
    requires store in db.schema && Comparable(View(db.engine, writes, store), db.schema[store], path, value)
    ensures Overlay(db.engine, writes, store, p).Some? ==>
              (FieldIs(Overlay(db.engine, writes, store, p).value, path, value)
               <==> FieldEncodes(Overlay(db.engine, writes, store, p).value, path, value))
  {
    var view := View(db.engine, writes, store);
    if view(p).Some? && Extract(view(p).value, path).Some? {
      FaithfulComparison(Extract(view(p).value, path).value, value);
    }
  }

  /** Walked past, and wanted. */
  ghost predicate WantedSoFar(db: Db, writes: Buffer, todo: set<Slot>, store: bytes, path: bytes, value: Json,
                              stored: seq<bytes>, p: bytes) {
    Wanted(db, writes, store, path, value, p)
    && (p in stored || (Slot(store, p) in writes && Slot(store, p) !in todo))
  }

  /** The second loop of `get_by_index`: buffered documents with the value that are not in
      the answer yet, told by the values of their primary keys. */
  method AddBufferedMatches(db: Db, writes: Buffer, store: bytes, path: bytes, value: Json,
                            found: seq<Json>, ghost foundPks: seq<bytes>, ghost stored: seq<bytes>)
    returns (docs: seq<Json>, ghost pks: seq<bytes>)
    requires Consistent(db) && store in db.schema && BufferFits(db.schema, writes)
    requires Comparable(View(db.engine, writes, store), db.schema[store], path, value)
    requires Reads(View(db.engine, writes, store), foundPks, found)
    requires forall p :: p in foundPks <==> p in stored && Wanted(db, writes, store, path, value, p)
    ensures Reads(View(db.engine, writes, store), pks, docs)
    ensures forall p :: p in pks <==> WantedSoFar(db, writes, {}, store, path, value, stored, p)
  {
    hide Consistent, BufferFits, Live, FieldEncodes, FieldIs, Comparable, SameField;
    ghost var view := View(db.engine, writes, store);
    docs, pks := found, foundPks;
    var todo := writes.Keys;
    while todo != {}
      invariant todo <= writes.Keys && Reads(view, pks, docs)
      invariant forall p :: p in pks <==> WantedSoFar(db, writes, todo, store, path, value, stored, p)
      decreases |todo|
    {
      var slot :| slot in todo;
      ghost var before := todo;
      todo := todo - {slot};
      if slot.store != store || writes[slot].None? {
        assert forall p :: WantedSoFar(db, writes, todo, store, path, value, stored, p)
                           <==> WantedSoFar(db, writes, before, store, path, value, stored, p);
        continue;
      }
      var doc := writes[slot].value;
      WantedByValue(db, writes, store, path, value, slot.pk);
      assert Slot(store, slot.pk) == slot;
      assert forall p :: WantedSoFar(db, writes, todo, store, path, value, stored, p)
                         <==> WantedSoFar(db, writes, before, store, path, value, stored, p)
                              || (p == slot.pk && Wanted(db, writes, store, path, value, p));
      if FieldIs(doc, path, value) {
        var already := exists i :: 0 <= i < |docs| && SameField(docs[i], doc, db.schema[store].keyPath);
        AlreadyThere(db, writes, store, path, value, pks, docs, slot.pk);
        if !already {
          ReadsSnoc(view, pks, docs, slot.pk);
          docs, pks := docs + [doc], pks + [slot.pk];
        }
      }
    }
  }

  /** A visible document carries its own primary key. */
  lemma VisibleKey(db: Db, writes: Buffer, store: bytes, p: bytes)
    requires Consistent(db) && store in db.schema && BufferFits(db.schema, writes)
    requires Overlay(db.engine, writes, store, p).Some?
    ensures KeyMatches(db.schema[store], p, Overlay(db.engine, writes, store, p).value)
  {
    if Slot(store, p) in writes {
    } else {
      assert DocKey(store, p) in db.engine;
      assert Fits(db.schema[store], p, Live(db.engine, store, p).value);
    }
  }

  /** Two visible documents have the same key value only under the same primary key. */
  lemma SameKeyValue(db: Db, writes: Buffer, store: bytes, path: bytes, value: Json, p: bytes, q: bytes)
    requires Consistent(db) && store in db.schema && BufferFits(db.schema, writes)
    requires Comparable(View(db.engine, writes, store), db.schema[store], path, value)
    requires Overlay(db.engine, writes, store, p).Some? && Overlay(db.engine, writes, store, q).Some?
    ensures SameField(Overlay(db.engine, writes, store, p).value, Overlay(db.engine, writes, store, q).value,
        db.schema[store].keyPath)
            <==> p == q
  {
    hide Consistent, BufferFits, Overlay, Extract;
    var view, kp := View(db.engine, writes, store), db.schema[store].keyPath;
    VisibleKey(db, writes, store, p);
    VisibleKey(db, writes, store, q);
    assert view(p).Some? && view(q).Some?;
    FaithfulComparison(Extract(view(p).value, kp).value, Extract(view(q).value, kp).value);
  }

  lemma AlreadyThere(db: Db, writes: Buffer, store: bytes, path: bytes, value: Json, pks: seq<bytes>, docs: seq<Json>,
                     p: bytes)
    requires Consistent(db) && store in db.schema && BufferFits(db.schema, writes)
    requires Comparable(View(db.engine, writes, store), db.schema[store], path, value)
    requires Reads(View(db.engine, writes, store), pks, docs) && Overlay(db.engine, writes, store, p).Some?
    ensures (exists i :: 0 <= i < |docs| &&
               SameField(docs[i], Overlay(db.engine, writes, store, p).value, db.schema[store].keyPath))
            <==> p in pks
  {
    hide Consistent, BufferFits, Comparable, SameField, Overlay;
    var view, doc, kp := View(db.engine, writes, store), Overlay(db.engine, writes, store, p).value,
        db.schema[store].keyPath;
    forall i | 0 <= i < |docs| ensures SameField(docs[i], doc, kp) <==> p == pks[i] {
      assert view(pks[i]) == Some(docs[i]);
      SameKeyValue(db, writes, store, path, value, pks[i], p);
    }
    if p in pks {
      var i :| 0 <= i < |pks| && pks[i] == p;
      assert SameField(docs[i], doc, kp);
    }
  }

  lemma AllWanted(db: Db, writes: Buffer, store: bytes, path: bytes, value: Json, stored: seq<bytes>, p: bytes)
    requires forall q :: q in stored <==>
             Live(db.engine, store, q).Some? && FieldEncodes(Live(db.engine, store, q).value, path, value)
    ensures WantedSoFar(db, writes, {}, store, path, value, stored, p) <==> Wanted(db, writes, store, path, value, p)
  {
    hide Live, FieldEncodes;
  }

  // ---------------------------------------------------------------- whole stores

  /** The listing holds the visible documents that the engine has. */
  ghost predicate ListsStored(db: Db, writes: Buffer, store: bytes, pks: seq<bytes>, docs: seq<Json>) {
    Reads(View(db.engine, writes, store), pks, docs)
    && forall p :: p in pks <==> View(db.engine, writes, store)(p).Some? && DocKey(store, p) in db.engine
  }

  /** The first loop of `scan`: stored documents, unless a buffered write says otherwise. */
  method StoredDocuments(db: Db, writes: Buffer, store: bytes) returns (docs: seq<Json>, ghost pks: seq<bytes>)
    requires Consistent(db) && store in db.schema
    ensures ListsStored(db, writes, store, pks, docs)
  {
    hide Consistent, PrefixScan, PkOf, Live;
    ghost var view := View(db.engine, writes, store);
    var ks := PrefixScan(db.engine, DocPrefix(store));
    docs, pks := [], [];
    for n := 0 to |ks|
      invariant Reads(view, pks, docs)
      invariant forall p :: p in pks <==> Met(store, ks, n, p) && view(p).Some?
    {
      ScanReadable(db, store, n);
      NotYetMet(store, ks, n);
      var p := PkOf(store, ks[n]);
      forall q ensures Met(store, ks, n + 1, q) <==> Met(store, ks, n, q) || q == p { MetNext(store, ks, n, q); }
      if view(p).Some? { ReadsSnoc(view, pks, docs, p); }
      if Slot(store, p) in writes {
        if writes[Slot(store, p)].Some? {
          docs := docs + [writes[Slot(store, p)].value];
          pks := pks + [p];
        }
      } else {
        docs := docs + [db.engine[ks[n]].doc];
        pks := pks + [p];
      }
    }
    forall p ensures p in pks <==> view(p).Some? && DocKey(store, p) in db.engine { MetAll(db, store, p); }
  }

  /** The second loop of `scan`: buffered documents that the engine does not have. */
  method AddBuffered(db: Db, writes: Buffer, store: bytes, stored: seq<Json>, ghost storedPks: seq<bytes>)
    returns (docs: seq<Json>, ghost pks: seq<bytes>)
    requires Consistent(db) && store in db.schema && ListsStored(db, writes, store, storedPks, stored)
    ensures ListsAll(View(db.engine, writes, store), pks, docs)
  {
    hide Consistent, Live;
    ghost var view := View(db.engine, writes, store);
    docs, pks := stored, storedPks;
    var todo := writes.Keys;
    while todo != {}
      invariant todo <= writes.Keys && Reads(view, pks, docs)
      invariant forall p :: p in pks <==>
                  (view(p).Some? && DocKey(store, p) in db.engine) || NewlyWalked(db.engine, writes, todo, store, p)
      decreases |todo|
    {
      var slot :| slot in todo;
      WalkPast(db.engine, writes, todo, slot, store);
      todo := todo - {slot};
      if slot.store != store { continue; }
      if writes[slot].Some? && DocKey(store, slot.pk) !in db.engine {
        ReadsSnoc(view, pks, docs, slot.pk);
        docs := docs + [writes[slot].value];
        pks := pks + [slot.pk];
      }
    }
    forall p ensures p in pks <==> view(p).Some? { ViewSplit(db, writes, store, p); }
  }

  /** The first loop of `count`: stored keys that are not deleted in the buffer. */
  method CountStored(db: Db, writes: Buffer, store: bytes) returns (count: nat, ghost docs: seq<Json>,
                     ghost pks: seq<bytes>)
    requires Consistent(db) && store in db.schema
    ensures ListsStored(db, writes, store, pks, docs) && count == |docs|
  {
    hide Consistent, PrefixScan, PkOf, Live;
    ghost var view := View(db.engine, writes, store);
    var ks := PrefixScan(db.engine, DocPrefix(store));
    count, docs, pks := 0, [], [];
    for n := 0 to |ks|
      invariant Reads(view, pks, docs) && count == |docs|
      invariant forall p :: p in pks <==> Met(store, ks, n, p) && view(p).Some?
    {
      ScanReadable(db, store, n);
      NotYetMet(store, ks, n);
      var p := PkOf(store, ks[n]);
      forall q ensures Met(store, ks, n + 1, q) <==> Met(store, ks, n, q) || q == p { MetNext(store, ks, n, q); }
      if Slot(store, p) in writes && writes[Slot(store, p)].None? { continue; }
      ReadsSnoc(view, pks, docs, p);
      count, docs, pks := count + 1, docs + [view(p).value], pks + [p];
    }
    forall p ensures p in pks <==> view(p).Some? && DocKey(store, p) in db.engine { MetAll(db, store, p); }
  }

  /** The second loop of `count`: buffered documents that the engine does not have. */
  method CountBuffered(db: Db, writes: Buffer, store: bytes, stored: nat, ghost storedDocs: seq<Json>,
                       ghost storedPks: seq<bytes>)
    returns (count: nat, ghost docs: seq<Json>, ghost pks: seq<bytes>)
    requires Consistent(db) && store in db.schema
    requires ListsStored(db, writes, store, storedPks, storedDocs) && stored == |storedDocs|
    ensures ListsAll(View(db.engine, writes, store), pks, docs) && count == |docs|
  {
    hide Consistent, Live;
    ghost var view := View(db.engine, writes, store);
    count, docs, pks := stored, storedDocs, storedPks;
    var todo := writes.Keys;
    while todo != {}
      invariant todo <= writes.Keys && Reads(view, pks, docs) && count == |docs|
      invariant forall p :: p in pks <==>
                  (view(p).Some? && DocKey(store, p) in db.engine) || NewlyWalked(db.engine, writes, todo, store, p)
      decreases |todo|
    {
      var slot :| slot in todo;
      WalkPast(db.engine, writes, todo, slot, store);
      todo := todo - {slot};
      if slot.store != store { continue; }
      if writes[slot].None? { continue; }
      if DocKey(store, slot.pk) !in db.engine {
        ReadsSnoc(view, pks, docs, slot.pk);
        count, docs, pks := count + 1, docs + [writes[slot].value], pks + [slot.pk];
      }
    }
    forall p ensures p in pks <==> view(p).Some? { ViewSplit(db, writes, store, p); }
  }

  lemma WalkPast(e: Engine, writes: Buffer, todo: set<Slot>, slot: Slot, store: bytes)
    requires slot in todo && slot in writes
    ensures forall p :: NewlyWalked(e, writes, todo - {slot}, store, p) <==>
              NewlyWalked(e, writes, todo, store, p)
              || (slot == Slot(store, p) && writes[slot].Some? && DocKey(store, p) !in e)
    ensures slot.store == store ==> !NewlyWalked(e, writes, todo, store, slot.pk)
  {
    hide DocKey;
  }

  lemma ViewSplit(db: Db, writes: Buffer, store: bytes, p: bytes)
    requires Consistent(db) && store in db.schema
    ensures Overlay(db.engine, writes, store, p).Some? <==>
            (Overlay(db.engine, writes, store, p).Some? && DocKey(store, p) in db.engine)
            || NewlyWalked(db.engine, writes, {}, store, p)
  {
    MetAll(db, store, p);
  }
}
