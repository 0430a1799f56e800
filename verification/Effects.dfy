/** What the operations of the document layer do to what a reader sees, and what their unique
    check means. */
module Effects {
  import opened Bytes
  import opened BigEndian
  import opened Record
  import opened Json
  import opened PrimaryKeys
  import opened Encoding
  import opened Keyspace
  import opened Store
  import opened Database
  import opened Committing
  import opened Indexing
  import opened Lookup
  import opened Runs

  // ---------------------------------------------------------------- reading back

  /** A put is read back under its key and changes no other document. */
  lemma PutReadsBack(db: Db, store: bytes, doc: Json, s: bytes, p: bytes)
    requires Consistent(db) && s in db.schema && Database.Put(db, store, doc).Ok?
    ensures var db' := Database.Put(db, store, doc).value;
            KeyOf(db.schema[store], doc).Ok? && db'.schema == db.schema
            && Live(db'.engine, s, p) ==
               if s == store && KeyOf(db.schema[store], doc) == Ok(p) then Some(doc) else Live(db.engine, s, p)
  {
    hide Consistent, Live, UpdateRecords, UniqueFree, Apply, Replaced;
    NamesValid(db);
    var def, pk := db.schema[store], KeyOf(db.schema[store], doc).value;
    UpdateEffect(db.engine, def, pk, Some(doc));
    UpdateLive(db.engine, Database.Put(db, store, doc).value.engine, def, pk, Some(doc), s, p);
  }

  /** A delete removes its document and changes no other. */
  lemma DeleteReadsBack(db: Db, store: bytes, key: Json, s: bytes, p: bytes)
    requires Consistent(db) && s in db.schema && Database.Delete(db, store, key).Ok?
    ensures var db' := Database.Delete(db, store, key).value;
            PrimaryKey(key).Ok? && db'.schema == db.schema
            && Live(db'.engine, s, p) == if s == store && PrimaryKey(key) == Ok(p) then None else Live(db.engine, s, p)
  {
    hide Consistent, Live, UpdateRecords, Apply, Replaced;
    NamesValid(db);
    var def, pk := db.schema[store], PrimaryKey(key).value;
    UpdateEffect(db.engine, def, pk, None);
    UpdateLive(db.engine, Database.Delete(db, store, key).value.engine, def, pk, None, s, p);
  }

  /** What `get` finds under a key. */
  function Found(db: Db, store: bytes, key: Json): Option<Json>
    requires PrimaryKey(key).Ok?
  {
    Live(db.engine, store, PrimaryKey(key).value)
  }

  /** By key values: a put is found under every key that meets its own, and under no other key
      does anything change. */
  lemma PutFound(db: Db, store: bytes, doc: Json, s: bytes, w: Json)
    requires Consistent(db) && s in db.schema && Database.Put(db, store, doc).Ok? && PrimaryKey(w).Ok?
    ensures Extract(doc, db.schema[store].keyPath).Some?
    ensures Found(Database.Put(db, store, doc).value, s, w) ==
            if s == store && Meet(Extract(doc, db.schema[store].keyPath).value, w) then Some(doc) else Found(db, s, w)
  {
    hide Consistent, Live, UpdateRecords, UniqueFree, Apply, Meet, PrimaryKey, Extract;
    PutReadsBack(db, store, doc, s, PrimaryKey(w).value);
    KeysMeetExactly(Extract(doc, db.schema[store].keyPath).value, w);
  }

  /** A delete is felt under the keys that meet its own, and under no other. */
  lemma DeleteFound(db: Db, store: bytes, key: Json, s: bytes, w: Json)
    requires Consistent(db) && s in db.schema && Database.Delete(db, store, key).Ok? && PrimaryKey(w).Ok?
    ensures Found(Database.Delete(db, store, key).value, s, w) ==
            if s == store && Meet(key, w) then None else Found(db, s, w)
  {
    hide Consistent, Live, UpdateRecords, Apply, Meet, PrimaryKey;
    DeleteReadsBack(db, store, key, s, PrimaryKey(w).value);
    KeysMeetExactly(key, w);
  }

  /** A generated key is the successor of the last one; the document is stored under it, and
      the counter moves on with the same batch. */
  lemma PutAutoReadsBack(db: Db, store: bytes, doc: Json, newText: text, s: bytes, p: bytes)
    requires Consistent(db) && Admissible(db, DoPutAuto(store, doc, newText)) && s in db.schema
    requires PutAuto(db, store, doc, newText).Ok?
    ensures var db' := PutAuto(db, store, doc, newText).value;
            var id := NextId(db.engine, store).value;
            NextId(db'.engine, store) == Ok((id as int + 1) % 0x1_0000_0000_0000_0000)
            && Live(db'.engine, s, p) ==
               if s == store && p == Decimal(id) then Some(InjectKey(doc, db.schema[store].keyPath, id, newText))
               else Live(db.engine, s, p)
  {
    hide Consistent, Live, UpdateRecords, UniqueFree, Apply, Replaced, Fits, RowsClean, InjectKey;
    NamesValid(db);
    var def, id := db.schema[store], NextId(db.engine, store).value;
    var doc' := InjectKey(doc, def.keyPath, id, newText);
    var batch := UpdateRecords(db.engine, def, Decimal(id), Some(doc'));
    GeneratedFits(db, store, doc, newText, id);
    UpdateKeepsConsistent(db, store, Decimal(id), Some(doc'));
    UpdateEffect(db.engine, def, Decimal(id), Some(doc'));
    UpdateLive(db.engine, Apply(db.engine, batch), def, Decimal(id), Some(doc'), s, p);
    CounterLast(Db(Apply(db.engine, batch), db.schema), db.engine, batch, store, id);
    CounterWritten(db.engine, batch, store, id);
  }

  lemma CounterWritten(e: Engine, batch: seq<Write>, store: bytes, id: u64)
    ensures NextId(Apply(e, batch + [PutCell(CounterKey(store), Counter(id))]), store)
            == Ok((id as int + 1) % 0x1_0000_0000_0000_0000)
  {
    var last := [PutCell(CounterKey(store), Counter(id))];
    ApplyAppend(e, batch, last);
    assert last[1..] == [];
  }

  // ---------------------------------------------------------------- the unique check

  lemma {:induction false} FullMatch(q: seq<Json>, row: seq<Json>)
    requires |q| == |row| && LeadingMatch(q, row)
    ensures EncodeRow(q) == EncodeRow(row)
  {
    hide EncodeValue;
    if |q| > 1 {
      assert forall i :: 1 <= i < |q| ==> q[i] == q[1..][i - 1] && row[i] == row[1..][i - 1];
      FullMatch(q[1..], row[1..]);
    }
  }

  /** Another live document shares a row of a unique index with this one. */
  ghost predicate Clash(db: Db, store: bytes, pk: bytes, doc: Json)
    requires store in db.schema
  {
    exists i, q :: 0 <= i < |db.schema[store].indexes| && db.schema[store].indexes[i].unique && q != pk
                   && Live(db.engine, store, q).Some?
                   && RowsMeet(db.schema[store].indexes[i], doc, Live(db.engine, store, q).value)
  }

  lemma CleanRow(db: Db, store: bytes, doc: Json, i: nat, r: nat)
    requires Consistent(db) && store in db.schema && RowsClean(db.schema[store], doc)
    requires i < |db.schema[store].indexes| && r < |Rows(doc, db.schema[store].indexes[i])|
    ensures var idx := db.schema[store].indexes[i];
            RowNulFree(Rows(doc, idx)[r]) && |Rows(doc, idx)[r]| == |idx.keyPaths| > 0
  {
    assert ValidDef(db.schema[store]) && ValidIndex(db.schema[store].indexes[i]);
  }

  lemma EntryBounds(db: Db, store: bytes, idx: IndexDef, p: bytes, r: nat, k: bytes)
    requires Entry(db, store, idx, p, r, k)
    ensures Live(db.engine, store, p).Some? && r < |Rows(Live(db.engine, store, p).value, idx)|
  {}

  lemma TakenIsClash(db: Db, store: bytes, pk: bytes, doc: Json, i: nat, r: nat)
    requires Consistent(db) && store in db.schema && RowsClean(db.schema[store], doc)
    requires i < |db.schema[store].indexes| && db.schema[store].indexes[i].unique
    requires r < |Rows(doc, db.schema[store].indexes[i])|
    requires Taken(db.engine, db.schema[store], db.schema[store].indexes[i], Rows(doc,
        db.schema[store].indexes[i])[r], pk)
    ensures Clash(db, store, pk, doc)
  {
    hide Consistent, Entry, Live, IdxPrefix, RowNulFree, ValidSchema, ValidDef, ValidName, RowsClean, Rows, EncodeRow;
    NamesValid(db);
    var idx := db.schema[store].indexes[i];
    var row := Rows(doc, idx)[r];
    CleanRow(db, store, doc, i, r);
    var k :| k in db.engine && IdxValuePrefix(store, idx.name, EncodeRow(row)) <= k && db.engine[k] != Ref(pk);
    assert IdxPrefix(store, idx.name) <= IdxValuePrefix(store, idx.name, EncodeRow(row)) <= k;
    var l := KeyIsEntry(db, store, idx, k);
    var q := db.engine[k].pk;
    EntryBounds(db, store, idx, q, l, k);
    EntryRow(db, store, idx, q, l);
    EntryUnderProbe(db, store, idx, row, q, l, k);
    FullMatch(row, Rows(Live(db.engine, store, q).value, idx)[l]);
    assert RowsMeet(idx, doc, Live(db.engine, store, q).value);
  }

  /** The unique check refuses a document exactly when another live document shares an
      encoded value with it. */
  lemma UniqueCheckExact(db: Db, store: bytes, pk: bytes, doc: Json)
    requires Consistent(db) && store in db.schema && RowsClean(db.schema[store], doc)
    ensures UniqueFree(db.engine, db.schema[store], pk, doc) <==> !Clash(db, store, pk, doc)
  {
    hide Consistent, Live, RowsMeet, RowsClean, Taken, Rows;
    var def := db.schema[store];
    if Clash(db, store, pk, doc) {
      var i, q :| 0 <= i < |def.indexes| && def.indexes[i].unique && q != pk && Live(db.engine, store, q).Some?
        && RowsMeet(def.indexes[i], doc, Live(db.engine, store, q).value);
      StoredRowIsTaken(db, store, i, pk, doc, q);
    }
    if !UniqueFree(db.engine, def, pk, doc) {
      var i, r :| 0 <= i < |def.indexes| && def.indexes[i].unique && 0 <= r < |Rows(doc, def.indexes[i])|
        && Taken(db.engine, def, def.indexes[i], Rows(doc, def.indexes[i])[r], pk);
      TakenIsClash(db, store, pk, doc, i, r);
    }
  }

  // ---------------------------------------------------------------- a new unique index

  /** Creating an index succeeds whatever the documents hold; a new unique index is unique if
      and only if no two live documents meet in it. */
  lemma NewIndexUniqueExactly(db: Db, store: bytes, name: bytes, keyPaths: seq<bytes>)
    requires Consistent(db) && store in db.schema && ValidNewIndex(db.schema[store], name, keyPaths)
    requires Admissible(db, DoCreateIndex(store, name, keyPaths, true))
    ensures var r := CreateIndex(db, store, name, keyPaths, true);
            var idx, n := IndexDef(name, keyPaths, true, false), |db.schema[store].indexes|;
            && r.Ok? && store in r.value.schema && n < |r.value.schema[store].indexes|
                && r.value.schema[store].indexes[n] == idx
            && (UniqueHolds(r.value, store, n) <==>
                  forall p, q :: p != q && Live(db.engine, store, p).Some? && Live(db.engine, store, q).Some? ==>
                    !RowsMeet(idx, Live(db.engine, store, p).value, Live(db.engine, store, q).value))
  {
    hide Consistent, Live, RowsMeet, Backfill, Apply, NewKey, CleanFor;
    CreateIndexEffect(db, store, name, keyPaths, true);
    var db' := CreateIndex(db, store, name, keyPaths, true).value;
    CreateIndexKeeps(db, db', store, IndexDef(name, keyPaths, true, false));
  }
}
