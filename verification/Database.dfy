/** The operations of the document layer as functions of the database: put, delete, put_auto,
    schema changes and commit (`src/jsondb/db.rs`, `src/jsondb/helpers.rs`,
    `src/jsondb/transaction.rs`).  Each is one atomic batch. */
module Database {
  import opened Bytes
  import opened BigEndian
  import opened Record
  import opened Json
  import opened Encoding
  import opened Keyspace
  import opened Store

  // ---------------------------------------------------------------- unique indexes

  /** The scan of the unique check meets an entry of another document. */
  predicate Taken(e: Engine, def: StoreDef, idx: IndexDef, row: seq<Json>, pk: bytes) {
    exists k :: k in e && IdxValuePrefix(def.name, idx.name, EncodeRow(row)) <= k && e[k] != Ref(pk)
  }

  predicate UniqueFree(e: Engine, def: StoreDef, pk: bytes, doc: Json) {
    forall i, r ::
      0 <= i < |def.indexes| && def.indexes[i].unique && 0 <= r < |Rows(doc, def.indexes[i])| ==>
      !Taken(e, def, def.indexes[i], Rows(doc, def.indexes[i])[r], pk)
  }

  predicate RowsMeet(idx: IndexDef, d: Json, f: Json) {
    exists r, l :: 0 <= r < |Rows(d, idx)| && 0 <= l < |Rows(f, idx)|
                && EncodeRow(Rows(d, idx)[r]) == EncodeRow(Rows(f, idx)[l])
  }

  /** No two live documents share an encoded value of index i. */
  ghost predicate UniqueHolds(db: Db, s: bytes, i: nat)
    requires s in db.schema && i < |db.schema[s].indexes|
  {
    forall p, q :: p != q && Live(db.engine, s, p).Some? && Live(db.engine, s, q).Some? ==>
      !RowsMeet(db.schema[s].indexes[i], Live(db.engine, s, p).value, Live(db.engine, s, q).value)
  }

  lemma RowsMeetSymmetric(idx: IndexDef, d: Json, f: Json)
    requires RowsMeet(idx, d, f)
    ensures RowsMeet(idx, f, d)
  {}

  /** A stored document sharing a row with a new one makes the unique check fail. */
  lemma StoredRowIsTaken(db: Db, s: bytes, i: nat, p: bytes, d: Json, q: bytes)
    requires Consistent(db) && s in db.schema && i < |db.schema[s].indexes|
    requires db.schema[s].indexes[i].unique && p != q
    requires Live(db.engine, s, q).Some?
    requires RowsMeet(db.schema[s].indexes[i], d, Live(db.engine, s, q).value)
    ensures !UniqueFree(db.engine, db.schema[s], p, d)
  {
    var def := db.schema[s];
    var idx, f := def.indexes[i], Live(db.engine, s, q).value;
    var r, l :| 0 <= r < |Rows(d, idx)| && 0 <= l < |Rows(f, idx)|
      && EncodeRow(Rows(d, idx)[r]) == EncodeRow(Rows(f, idx)[l]);
    var k := IdxKey(s, idx.name, EncodeRow(Rows(f, idx)[l]), q);
    assert IsRowKey(s, def.indexes, q, f, k, i, l);
    KeysOfMember(s, def.indexes, q, f, k);
    assert Owns(db, s, q, k);
    assert IdxValuePrefix(s, idx.name, EncodeRow(Rows(d, idx)[r])) <= k;
    assert Taken(db.engine, def, idx, Rows(d, idx)[r], p);
  }

  // ---------------------------------------------------------------- put and delete

  /** A document slot holding anything but a document is corruption. */
  predicate SlotReadable(e: Engine, store: bytes, pk: bytes) {
    DocKey(store, pk) in e ==> e[DocKey(store, pk)].Doc?
  }

  /** `build_put_batch`. */
  function PutBatch(e: Engine, def: StoreDef, pk: bytes, doc: Json): Result<seq<Write>> {
    if !SlotReadable(e, def.name, pk) then Err(Corrupted)
    else if !UniqueFree(e, def, pk, doc) then Err(UniqueViolation)
    else Ok(UpdateRecords(e, def, pk, Some(doc)))
  }

  /** `build_delete_batch`. */
  function DeleteBatch(e: Engine, def: StoreDef, pk: bytes): Result<seq<Write>> {
    if !SlotReadable(e, def.name, pk) then Err(Corrupted)
    else Ok(UpdateRecords(e, def, pk, None))
  }

  /** The key of a document to be stored. */
  function KeyOf(def: StoreDef, doc: Json): Result<bytes> {
    match Extract(doc, def.keyPath)
    case None => Err(MissingKeyPath)
    case Some(v) => PrimaryKey(v)
  }

  function Put(db: Db, store: bytes, doc: Json): Result<Db> {
    if store !in db.schema then Err(StoreNotFound) else
    var def := db.schema[store];
    match KeyOf(def, doc)
    case Err(e) => Err(e)
    case Ok(pk) =>
      match PutBatch(db.engine, def, pk, doc)
      case Err(e) => Err(e)
      case Ok(batch) => Ok(Db(Apply(db.engine, batch), db.schema))
  }

  function Delete(db: Db, store: bytes, key: Json): Result<Db> {
    if store !in db.schema then Err(StoreNotFound) else
    match PrimaryKey(key)
    case Err(e) => Err(e)
    case Ok(pk) =>
      match DeleteBatch(db.engine, db.schema[store], pk)
      case Err(e) => Err(e)
      case Ok(batch) => Ok(Db(Apply(db.engine, batch), db.schema))
  }

  // ---------------------------------------------------------------- put_auto

  /** `prepare_counter`; the increment wraps like the release build's `u64`. */
  function NextId(e: Engine, store: bytes): Result<u64> {
    var k := CounterKey(store);
    if k !in e then Ok(1)
    else if e[k].Counter? then Ok((e[k].n + 1) % (2 * TOP_BIT))
    else Err(Corrupted)
  }

  /** The generated key goes into an object under the store's key path, taken as one name. */
  function InjectKey(doc: Json, keyPath: bytes, id: u64, newText: text): Json {
    if doc.Obj? then Obj(doc.fields[keyPath := NumberOf(id)], newText) else doc
  }

  function PutAuto(db: Db, store: bytes, doc: Json, newText: text): Result<Db> {
    if store !in db.schema then Err(StoreNotFound) else
    var def := db.schema[store];
    if !def.autoIncrement then Err(NotAutoIncrement) else
    match NextId(db.engine, store)
    case Err(e) => Err(e)
    case Ok(id) =>
      match PutBatch(db.engine, def, Decimal(id), InjectKey(doc, def.keyPath, id, newText))
      case Err(e) => Err(e)
      case Ok(batch) =>
        Ok(Db(Apply(db.engine, batch + [PutCell(CounterKey(store), Counter(id))]), db.schema))
  }

  // ---------------------------------------------------------------- schema

  function CreateStore(db: Db, name: bytes, keyPath: bytes): Result<Db> {
    if !ValidName(name) || keyPath == [] then Err(InvalidDefinition)
    else if name in db.schema then
      if db.schema[name].keyPath == keyPath then Ok(db) else Err(InvalidDefinition)
    else
      var def := StoreDef(name, keyPath, false, []);
      Ok(Db(db.engine[SchemaKey(name) := Definition(def)], db.schema[name := def]))
  }

  /** The auto-increment step of `apply_store`. */
  function EnableAuto(db: Db, name: bytes): Result<Db> {
    if name !in db.schema then Err(StoreNotFound)
    else
      var def := db.schema[name].(autoIncrement := true);
      Ok(Db(db.engine[SchemaKey(name) := Definition(def)], db.schema[name := def]))
  }

  function BackfillKey(def: StoreDef, doc: Json): Result<bytes> {
    PrimaryKey(match Extract(doc, def.keyPath) case Some(v) => v case None => Null)
  }

  /** Index entries of the documents under the given keys, in scan order. */
  function Backfill(e: Engine, def: StoreDef, idx: IndexDef, ks: seq<bytes>): Result<seq<Write>>
    requires forall n :: 0 <= n < |ks| ==> ks[n] in e
  {
    if ks == [] then Ok([]) else
    var n := |ks| - 1;
    match Backfill(e, def, idx, ks[..n])
    case Err(x) => Err(x)
    case Ok(records) =>
      if !e[ks[n]].Doc? then Err(Corrupted) else
      var rows := Rows(e[ks[n]].doc, idx);
      if rows == [] then Ok(records) else
      match BackfillKey(def, e[ks[n]].doc)
      case Err(x) => Err(x)
      case Ok(pk) => Ok(records + Refs(RowKeys(def.name, idx, rows, pk), pk))
  }

  predicate ValidNewIndex(def: StoreDef, name: bytes, keyPaths: seq<bytes>) {
    ValidName(name) && keyPaths != [] && [] !in keyPaths
    && forall i :: 0 <= i < |def.indexes| ==> def.indexes[i].name != name
  }

  function CreateIndex(db: Db, store: bytes, name: bytes, keyPaths: seq<bytes>, unique: bool): Result<Db> {
    if store !in db.schema then Err(StoreNotFound) else
    var def := db.schema[store];
    if !ValidNewIndex(def, name, keyPaths) then Err(InvalidDefinition) else
    var idx := IndexDef(name, keyPaths, unique, false);
    var def' := def.(indexes := def.indexes + [idx]);
    match Backfill(db.engine, def', idx, PrefixScan(db.engine, DocPrefix(store)))
    case Err(e) => Err(e)
    case Ok(entries) =>
      Ok(Db(Apply(db.engine, [PutCell(SchemaKey(store), Definition(def'))] + entries),
            db.schema[store := def']))
  }

  // ---------------------------------------------------------------- commit

  datatype Slot = Slot(store: bytes, pk: bytes)
  type Buffer = map<Slot, Option<Json>>

  /** The commit scan of the write buffer meets another buffered document with this row. */
  predicate BufferTaken(writes: Buffer, idx: IndexDef, slot: Slot, row: seq<Json>) {
    exists o :: o in writes && o.store == slot.store && o != slot && writes[o].Some?
             && exists l :: 0 <= l < |Rows(writes[o].value, idx)|
                         && EncodeRow(Rows(writes[o].value, idx)[l]) == EncodeRow(row)
  }

  predicate BufferFree(writes: Buffer, def: StoreDef, slot: Slot, doc: Json) {
    forall i, r ::
      0 <= i < |def.indexes| && def.indexes[i].unique && 0 <= r < |Rows(doc, def.indexes[i])| ==>
      !BufferTaken(writes, def.indexes[i], slot, Rows(doc, def.indexes[i])[r])
  }

  /** No step of the commit loop returns an error for this slot. */
  predicate SlotAccepted(db: Db, writes: Buffer, slot: Slot)
    requires slot in writes
  {
    slot.store in db.schema
    && (writes[slot].Some? ==>
          UniqueFree(db.engine, db.schema[slot.store], slot.pk, writes[slot].value)
          && BufferFree(writes, db.schema[slot.store], slot, writes[slot].value))
  }

  /** The records of the buffered writes, walked in the given order; every old document is
      read from the state before the commit. */
  function CommitRecords(e: Engine, sch: Schema, writes: Buffer, order: seq<Slot>): seq<Write>
    requires forall n :: 0 <= n < |order| ==> order[n] in writes && order[n].store in sch
  {
    if order == [] then []
    else UpdateRecords(e, sch[order[0].store], order[0].pk, writes[order[0]])
         + CommitRecords(e, sch, writes, order[1..])
  }

  function CounterRecords(counters: seq<(bytes, u64)>): seq<Write> {
    seq(|counters|, i requires 0 <= i < |counters| => PutCell(CounterKey(counters[i].0), Counter(counters[i].1)))
  }

  /** `order` is one of the ways a hash map may be walked. */
  predicate Enumerates(order: seq<Slot>, writes: Buffer) {
    (forall n :: 0 <= n < |order| ==> order[n] in writes)
    && (forall s :: s in writes ==> s in order)
    && (forall i, j :: 0 <= i < j < |order| ==> order[i] != order[j])
  }

  function Commit(db: Db, writes: Buffer, counters: seq<(bytes, u64)>, order: seq<Slot>): Result<Db>
    requires Enumerates(order, writes)
  {
    if forall s :: s in writes ==> SlotAccepted(db, writes, s)
    then Ok(Db(Apply(db.engine, CounterRecords(counters) + CommitRecords(db.engine, db.schema, writes, order)),
               db.schema))
    else Err(UniqueViolation)
  }

  // ---------------------------------------------------------------- what each operation keeps

  lemma PutKeeps(db: Db, store: bytes, pk: bytes, doc: Json)
    requires Consistent(db) && store in db.schema && Fits(db.schema[store], pk, doc)
    requires PutBatch(db.engine, db.schema[store], pk, doc).Ok?
    ensures var db' := Db(Apply(db.engine, PutBatch(db.engine, db.schema[store], pk, doc).value), db.schema);
            Consistent(db')
            && forall s, i: nat | s in db.schema && i < |db.schema[s].indexes|
                 && db.schema[s].indexes[i].unique && UniqueHolds(db, s, i) :: UniqueHolds(db', s, i)
  {
    var e' := Apply(db.engine, PutBatch(db.engine, db.schema[store], pk, doc).value);
    UpdateKeepsConsistent(db, store, pk, Some(doc));
    UpdateEffect(db.engine, db.schema[store], pk, Some(doc));
    forall s, i: nat | s in db.schema && i < |db.schema[s].indexes|
      && db.schema[s].indexes[i].unique && UniqueHolds(db, s, i)
      ensures UniqueHolds(Db(e', db.schema), s, i)
    {
      UpdateKeepsUnique(db, e', store, pk, Some(doc), s, i);
    }
  }

  lemma UpdateKeepsUnique(db: Db, e': Engine, store: bytes, pk: bytes, doc: Option<Json>, s: bytes, i: nat)
    requires Consistent(db) && store in db.schema
    requires doc.Some? ==> UniqueFree(db.engine, db.schema[store], pk, doc.value)
    requires Replaced(db.engine, e', db.schema[store], pk, doc)
    requires s in db.schema && i < |db.schema[s].indexes| && db.schema[s].indexes[i].unique
    requires UniqueHolds(db, s, i)
    ensures UniqueHolds(Db(e', db.schema), s, i)
  {
    var idx := db.schema[s].indexes[i];
    forall p, q | p != q && Live(e', s, p).Some? && Live(e', s, q).Some?
      ensures !RowsMeet(idx, Live(e', s, p).value, Live(e', s, q).value)
    {
      UpdateLive(db.engine, e', db.schema[store], pk, doc, s, p);
      UpdateLive(db.engine, e', db.schema[store], pk, doc, s, q);
      if RowsMeet(idx, Live(e', s, p).value, Live(e', s, q).value) {
        RowsMeetSymmetric(idx, Live(e', s, p).value, Live(e', s, q).value);
        if s == store && p == pk {
          StoredRowIsTaken(db, s, i, p, doc.value, q);
        } else if s == store && q == pk {
          StoredRowIsTaken(db, s, i, q, doc.value, p);
        }
      }
    }
  }

  /** Writing a counter or a definition disturbs nothing. */
  lemma OtherKeyKeeps(db: Db, k: bytes, c: Cell)
    requires Consistent(db) && !HasTag(k, DOC_PREFIX) && !HasTag(k, IDX_PREFIX)
    ensures Consistent(Db(db.engine[k := c], db.schema))
    ensures forall s, p :: Live(db.engine[k := c], s, p) == Live(db.engine, s, p)
  {
    var db' := Db(db.engine[k := c], db.schema);
    forall s, p ensures Live(db'.engine, s, p) == Live(db.engine, s, p) {
      assert HasTag(DocKey(s, p), DOC_PREFIX);
    }
    assert forall s, p, x :: Owns(db', s, p, x) <==> Owns(db, s, p, x);
    forall s, p, x | Owns(db', s, p, x) ensures x in db'.engine && db'.engine[x] == Ref(p) {
      assert Owns(db, s, p, x);
      KeysOfTag(s, db.schema[s].indexes, p, Live(db.engine, s, p).value, x);
    }
    forall x | x in db'.engine && HasTag(x, IDX_PREFIX) ensures exists s, p :: Owns(db', s, p, x) {
      var s, p :| Owns(db, s, p, x);
      assert Owns(db', s, p, x);
    }
  }
}
