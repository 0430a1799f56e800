/** Documents and their secondary indexes over one atomic keyspace
    (`src/jsondb/helpers.rs`, `src/jsondb/db.rs`, the commit of `src/jsondb/transaction.rs`).

    The engine is the map of live keys.  Its values are kept decoded: `Cell` stands for the
    JSON text, key bytes or counter bytes that serialisation would store. */
module Store {
  import opened Bytes
  import opened BigEndian
  import opened Record
  import opened Json
  import opened Encoding
  import opened Keyspace

  datatype IndexDef = IndexDef(name: bytes, keyPaths: seq<bytes>, unique: bool, multiEntry: bool)

  datatype StoreDef = StoreDef(
    name: bytes, keyPath: bytes, autoIncrement: bool, indexes: seq<IndexDef>)

  type Schema = map<bytes, StoreDef>

  datatype Cell = Doc(doc: Json) | Ref(pk: bytes) | Counter(n: u64) | Definition(def: StoreDef)

  type Engine = map<bytes, Cell>

  datatype Write = PutCell(key: bytes, cell: Cell) | DeleteKey(key: bytes)

  datatype Db = Db(engine: Engine, schema: Schema)

  // ---------------------------------------------------------------- batches

  function ApplyOne(e: Engine, w: Write): Engine {
    match w
    case PutCell(k, c) => e[k := c]
    case DeleteKey(k) => e - {k}
  }

  /** `write_internal`: the records of a batch take effect in order. */
  function Apply(e: Engine, batch: seq<Write>): Engine
    decreases |batch|
  {
    if batch == [] then e else Apply(ApplyOne(e, batch[0]), batch[1..])
  }

  lemma {:induction false} ApplyAppend(e: Engine, a: seq<Write>, b: seq<Write>)
    ensures Apply(e, a + b) == Apply(Apply(e, a), b)
    decreases |a|
  {
    if a == [] {
      assert a + b == b;
    } else {
      assert (a + b)[1..] == a[1..] + b;
      ApplyAppend(ApplyOne(e, a[0]), a[1..], b);
    }
  }

  function Deletes(ks: seq<bytes>): seq<Write> {
    seq(|ks|, i requires 0 <= i < |ks| => DeleteKey(ks[i]))
  }

  function Refs(ks: seq<bytes>, pk: bytes): seq<Write> {
    seq(|ks|, i requires 0 <= i < |ks| => PutCell(ks[i], Ref(pk)))
  }

  lemma {:induction false} ApplyDeletes(e: Engine, ks: seq<bytes>)
    ensures Apply(e, Deletes(ks)) == e - (set k | k in ks)
    decreases |ks|
  {
    if ks != [] {
      assert Deletes(ks)[1..] == Deletes(ks[1..]);
      ApplyDeletes(e - {ks[0]}, ks[1..]);
      assert (set k | k in ks) == {ks[0]} + (set k | k in ks[1..]) by {
        assert ks == [ks[0]] + ks[1..];
      }
    }
  }

  lemma {:induction false} ApplyRefs(e: Engine, ks: seq<bytes>, pk: bytes)
    ensures Apply(e, Refs(ks, pk)) == e + (map k | k in ks :: Ref(pk))
    decreases |ks|
  {
    if ks != [] {
      assert Refs(ks, pk)[1..] == Refs(ks[1..], pk);
      ApplyRefs(e[ks[0] := Ref(pk)], ks[1..], pk);
      assert ks == [ks[0]] + ks[1..];
    }
  }

  // ---------------------------------------------------------------- index rows

  function RawRow(doc: Json, paths: seq<bytes>): (r: Option<seq<Json>>)
    ensures r.Some? ==> |r.value| == |paths|
    ensures r.Some? ==> forall i :: 0 <= i < |paths| ==> Extract(doc, paths[i]) == Some(r.value[i])
    ensures r.None? ==> exists i :: 0 <= i < |paths| && Extract(doc, paths[i]) == None
  {
    if paths == [] then Some([])
    else match (Extract(doc, paths[0]), RawRow(doc, paths[1..]))
      case (Some(v), Some(rest)) => Some([v] + rest)
      case (None, _) => None
      case (_, None) =>
        assert exists i :: 0 <= i < |paths| && Extract(doc, paths[i]) == None by {
          var i :| 0 <= i < |paths[1..]| && Extract(doc, paths[1..][i]) == None;
          assert paths[i + 1] == paths[1..][i];
        }
        None
  }

  /** `extract_index_values`: one row, or one row per element of a multi-entry array. */
  function Rows(doc: Json, idx: IndexDef): (rows: seq<seq<Json>>)
    ensures forall r :: 0 <= r < |rows| ==> |rows[r]| == |idx.keyPaths|
  {
    match RawRow(doc, idx.keyPaths)
    case None => []
    case Some(raw) =>
      if idx.multiEntry && |idx.keyPaths| == 1 && raw[0].Arr?
      then seq(|raw[0].items|, i requires 0 <= i < |raw[0].items| => [raw[0].items[i]])
      else [raw]
  }

  method ExtractIndexValues(doc: Json, idx: IndexDef) returns (rows: seq<seq<Json>>)
    ensures rows == Rows(doc, idx)
  {
    var raw := [];
    for n := 0 to |idx.keyPaths|
      invariant |raw| == n
      invariant forall i :: 0 <= i < n ==> Extract(doc, idx.keyPaths[i]) == Some(raw[i])
    {
      var field := ExtractField(doc, idx.keyPaths[n]);
      match field {
        case None => return [];
        case Some(v) => raw := raw + [v];
      }
    }
    assert RawRow(doc, idx.keyPaths).Some?;
    assert RawRow(doc, idx.keyPaths).value == raw;
    if idx.multiEntry && |idx.keyPaths| == 1 && raw[0].Arr? {
      return seq(|raw[0].items|, i requires 0 <= i < |raw[0].items| => [raw[0].items[i]]);
    }
    rows := [raw];
  }

  function RowKeys(store: bytes, idx: IndexDef, rows: seq<seq<Json>>, pk: bytes): seq<bytes> {
    seq(|rows|, r requires 0 <= r < |rows| => IdxKey(store, idx.name, EncodeRow(rows[r]), pk))
  }

  /** Every index key of one document, index by index. */
  function KeysOf(store: bytes, idxs: seq<IndexDef>, pk: bytes, doc: Json): seq<bytes> {
    if idxs == [] then []
    else RowKeys(store, idxs[0], Rows(doc, idxs[0]), pk) + KeysOf(store, idxs[1..], pk, doc)
  }

  /** k is the key of row r of index i. */
  predicate IsRowKey(store: bytes, idxs: seq<IndexDef>, pk: bytes, doc: Json, k: bytes, i: int, r: int) {
    0 <= i < |idxs| && 0 <= r < |Rows(doc, idxs[i])|
    && k == IdxKey(store, idxs[i].name, EncodeRow(Rows(doc, idxs[i])[r]), pk)
  }

  lemma {:induction false} KeysOfMember(store: bytes, idxs: seq<IndexDef>, pk: bytes, doc: Json, k: bytes)
    ensures k in KeysOf(store, idxs, pk, doc) <==>
            exists i, r :: IsRowKey(store, idxs, pk, doc, k, i, r)
  {
    hide IdxKey, EncodeRow, Rows;
    if idxs != [] {
      var rows := Rows(doc, idxs[0]);
      KeysOfMember(store, idxs[1..], pk, doc, k);
      if k in RowKeys(store, idxs[0], rows, pk) {
        var r :| 0 <= r < |rows| && RowKeys(store, idxs[0], rows, pk)[r] == k;
        assert IsRowKey(store, idxs, pk, doc, k, 0, r);
      }
      if i, r :| IsRowKey(store, idxs[1..], pk, doc, k, i, r) {
        assert IsRowKey(store, idxs, pk, doc, k, i + 1, r);
      }
      forall i, r | IsRowKey(store, idxs, pk, doc, k, i, r)
        ensures k in KeysOf(store, idxs, pk, doc)
      {
        if i == 0 {
          assert RowKeys(store, idxs[0], rows, pk)[r] == k;
        } else {
          assert IsRowKey(store, idxs[1..], pk, doc, k, i - 1, r);
        }
      }
    }
  }

  lemma {:induction false} KeysOfTag(store: bytes, idxs: seq<IndexDef>, pk: bytes, doc: Json, k: bytes)
    requires k in KeysOf(store, idxs, pk, doc)
    ensures HasTag(k, IDX_PREFIX)
  {
    KeysOfMember(store, idxs, pk, doc, k);
  }

  lemma {:induction false} KeysOfAppend(store: bytes, a: seq<IndexDef>, b: seq<IndexDef>, pk: bytes, doc: Json)
    ensures KeysOf(store, a + b, pk, doc) == KeysOf(store, a, pk, doc) + KeysOf(store, b, pk, doc)
  {
    if a == [] {
      assert a + b == b;
    } else {
      assert (a + b)[1..] == a[1..] + b;
      KeysOfAppend(store, a[1..], b, pk, doc);
    }
  }

  // ---------------------------------------------------------------- well-formed schemas

  predicate ValidIndex(idx: IndexDef) {
    ValidName(idx.name) && idx.keyPaths != []
  }

  predicate ValidDef(def: StoreDef) {
    ValidName(def.name) && def.keyPath != []
    && (forall i :: 0 <= i < |def.indexes| ==> ValidIndex(def.indexes[i]))
    && (forall i, j :: 0 <= i < j < |def.indexes| ==> def.indexes[i].name != def.indexes[j].name)
  }

  predicate ValidSchema(sch: Schema) {
    forall s :: s in sch ==> ValidDef(sch[s]) && sch[s].name == s
  }

  // ---------------------------------------------------------------- consistency

  /** The document stored under a primary key. */
  function Live(e: Engine, store: bytes, pk: bytes): Option<Json> {
    var k := DocKey(store, pk);
    if k in e && e[k].Doc? then Some(e[k].doc) else None
  }

  /** Index values of this document contain no separator inside strings. */
  predicate RowsClean(def: StoreDef, doc: Json) {
    forall i, r :: 0 <= i < |def.indexes| && 0 <= r < |Rows(doc, def.indexes[i])| ==>
      RowNulFree(Rows(doc, def.indexes[i])[r])
  }

  /** The document carries its own primary key. */
  predicate KeyMatches(def: StoreDef, pk: bytes, doc: Json) {
    Extract(doc, def.keyPath).Some? && PrimaryKey(Extract(doc, def.keyPath).value) == Ok(pk)
  }

  predicate Fits(def: StoreDef, pk: bytes, doc: Json) {
    RowsClean(def, doc) && KeyMatches(def, pk, doc)
  }

  /** k is an index key of the live document (store, pk). */
  predicate Owns(db: Db, store: bytes, pk: bytes, k: bytes) {
    store in db.schema
    && Live(db.engine, store, pk).Some?
    && k in KeysOf(store, db.schema[store].indexes, pk, Live(db.engine, store, pk).value)
  }

  ghost predicate DocumentsOk(db: Db) {
    && (forall k :: k in db.engine && HasTag(k, DOC_PREFIX) ==>
          exists s, p :: s in db.schema && k == DocKey(s, p))
    && (forall s, p :: s in db.schema && DocKey(s, p) in db.engine ==>
          Live(db.engine, s, p).Some? && Fits(db.schema[s], p, Live(db.engine, s, p).value))
  }

  /** The live index keys are exactly the index keys of the live documents, each mapping to
      its document's primary key. */
  ghost predicate IndexExact(db: Db) {
    && (forall k :: k in db.engine && HasTag(k, IDX_PREFIX) ==>
          exists s, p :: Owns(db, s, p, k))
    && (forall s, p, k :: Owns(db, s, p, k) ==> k in db.engine && db.engine[k] == Ref(p))
  }

  ghost predicate Consistent(db: Db) {
    ValidSchema(db.schema) && DocumentsOk(db) && IndexExact(db)
  }

  /** An index key belongs to one document only: what makes updates of different documents
      independent. */
  lemma OwnerUnique(db: Db, s: bytes, p: bytes, t: bytes, q: bytes, k: bytes)
    requires ValidSchema(db.schema) && s in db.schema && t in db.schema
    requires Live(db.engine, s, p).Some? && RowsClean(db.schema[s], Live(db.engine, s, p).value)
    requires Live(db.engine, t, q).Some? && RowsClean(db.schema[t], Live(db.engine, t, q).value)
    requires Owns(db, s, p, k) && Owns(db, t, q, k)
    ensures s == t && p == q
  {
    KeysApart(db.schema[s], p, Live(db.engine, s, p).value,
              db.schema[t], q, Live(db.engine, t, q).value, k);
  }

  lemma KeysApart(a: StoreDef, p: bytes, d: Json, b: StoreDef, q: bytes, f: Json, k: bytes)
    requires ValidDef(a) && ValidDef(b) && RowsClean(a, d) && RowsClean(b, f)
    requires a.name == b.name ==> a == b
    requires k in KeysOf(a.name, a.indexes, p, d) && k in KeysOf(b.name, b.indexes, q, f)
    ensures a.name == b.name && p == q
  {
    KeysOfMember(a.name, a.indexes, p, d, k);
    KeysOfMember(b.name, b.indexes, q, f, k);
    var i, r :| IsRowKey(a.name, a.indexes, p, d, k, i, r);
    var j, l :| IsRowKey(b.name, b.indexes, q, f, k, j, l);
    var x, y := Rows(d, a.indexes[i])[r], Rows(f, b.indexes[j])[l];
    assert ValidIndex(a.indexes[i]) && ValidIndex(b.indexes[j]);
    IdxKeyShape(a.name, a.indexes[i].name, x, p);
    IdxKeyShape(b.name, b.indexes[j].name, y, q);
    IdxPrefixInjective(a.name, a.indexes[i].name, Terminated(x) + p,
                       b.name, b.indexes[j].name, Terminated(y) + q);
    assert i == j;
    RowCut(x, p, y, q);
  }

  // ---------------------------------------------------------------- one document

  /** The records one put or delete contributes: retract the old rows, write or remove the
      document, assert the new rows. */
  function UpdateRecords(e: Engine, def: StoreDef, pk: bytes, doc: Option<Json>): seq<Write> {
    var prior := Live(e, def.name, pk);
    (if prior.Some? then Deletes(KeysOf(def.name, def.indexes, pk, prior.value)) else [])
    + (match doc
       case Some(d) =>
         [PutCell(DocKey(def.name, pk), Doc(d))] + Refs(KeysOf(def.name, def.indexes, pk, d), pk)
       case None => [DeleteKey(DocKey(def.name, pk))])
  }

  /** What those records amount to. */
  ghost predicate Replaced(e: Engine, e': Engine, def: StoreDef, pk: bytes, doc: Option<Json>) {
    var prior := Live(e, def.name, pk);
    var gone := if prior.Some? then KeysOf(def.name, def.indexes, pk, prior.value) else [];
    var added := if doc.Some? then KeysOf(def.name, def.indexes, pk, doc.value) else [];
    var dk := DocKey(def.name, pk);
    && (dk in e' <==> doc.Some?)
    && (doc.Some? ==> e'[dk] == Doc(doc.value))
    && (forall k :: k in added ==> k in e' && e'[k] == Ref(pk))
    && (forall k :: k in gone && k !in added ==> k !in e')
    && (forall k :: k != dk && k !in added && k !in gone ==>
          (k in e' <==> k in e) && (k in e ==> e'[k] == e[k]))
  }

  /** The batch as one map expression. */
  lemma UpdateAsMap(e: Engine, gone: seq<bytes>, dk: bytes, doc: Option<Json>, added: seq<bytes>, pk: bytes)
    ensures Apply(e, Deletes(gone) + [DeleteKey(dk)]) == e - (set k | k in gone) - {dk}
    ensures doc.Some? ==>
              Apply(e, Deletes(gone) + ([PutCell(dk, Doc(doc.value))] + Refs(added, pk)))
              == (e - (set k | k in gone))[dk := Doc(doc.value)] + (map k | k in added :: Ref(pk))
  {
    ApplyDeletes(e, gone);
    ApplyAppend(e, Deletes(gone), [DeleteKey(dk)]);
    assert [DeleteKey(dk)][1..] == [];
    if doc.Some? {
      var rest := [PutCell(dk, Doc(doc.value))] + Refs(added, pk);
      ApplyAppend(e, Deletes(gone), rest);
      assert rest[1..] == Refs(added, pk);
      ApplyRefs((e - (set k | k in gone))[dk := Doc(doc.value)], added, pk);
    }
  }

  lemma UpdateEffect(e: Engine, def: StoreDef, pk: bytes, doc: Option<Json>)
    ensures Replaced(e, Apply(e, UpdateRecords(e, def, pk, doc)), def, pk, doc)
  {
    var prior := Live(e, def.name, pk);
    var gone := if prior.Some? then KeysOf(def.name, def.indexes, pk, prior.value) else [];
    var added := if doc.Some? then KeysOf(def.name, def.indexes, pk, doc.value) else [];
    var dk := DocKey(def.name, pk);
    assert Deletes([]) == [];
    UpdateAsMap(e, gone, dk, doc, added, pk);
    OnlyIndexKeys(e, def, pk, doc, dk);
  }

  /** Reading back after an update: only the updated document changed. */
  lemma UpdateLive(e: Engine, e': Engine, def: StoreDef, pk: bytes, doc: Option<Json>, s: bytes, p: bytes)
    requires Replaced(e, e', def, pk, doc) && ValidName(def.name) && ValidName(s)
    ensures Live(e', s, p) == if s == def.name && p == pk then doc else Live(e, s, p)
  {
    var k := DocKey(s, p);
    if k == DocKey(def.name, pk) {
      DocKeyInjective(s, p, def.name, pk);
    } else {
      OnlyIndexKeys(e, def, pk, doc, k);
    }
  }

  lemma OnlyIndexKeys(e: Engine, def: StoreDef, pk: bytes, doc: Option<Json>, k: bytes)
    requires !HasTag(k, IDX_PREFIX)
    ensures Live(e, def.name, pk).Some? ==>
              k !in KeysOf(def.name, def.indexes, pk, Live(e, def.name, pk).value)
    ensures doc.Some? ==> k !in KeysOf(def.name, def.indexes, pk, doc.value)
  {
    var prior := Live(e, def.name, pk);
    if prior.Some? && k in KeysOf(def.name, def.indexes, pk, prior.value) {
      KeysOfTag(def.name, def.indexes, pk, prior.value, k);
    }
    if doc.Some? && k in KeysOf(def.name, def.indexes, pk, doc.value) {
      KeysOfTag(def.name, def.indexes, pk, doc.value, k);
    }
  }

  /** Counters and definitions are untouched. */
  lemma UpdateElsewhere(e: Engine, e': Engine, def: StoreDef, pk: bytes, doc: Option<Json>, k: bytes)
    requires Replaced(e, e', def, pk, doc)
    requires !HasTag(k, DOC_PREFIX) && !HasTag(k, IDX_PREFIX)
    ensures (k in e' <==> k in e) && (k in e ==> e'[k] == e[k])
  {
    OnlyIndexKeys(e, def, pk, doc, k);
  }

  lemma UpdateDocuments(db: Db, e': Engine, store: bytes, pk: bytes, doc: Option<Json>)
    requires ValidSchema(db.schema) && DocumentsOk(db) && store in db.schema
    requires doc.Some? ==> Fits(db.schema[store], pk, doc.value)
    requires Replaced(db.engine, e', db.schema[store], pk, doc)
    ensures DocumentsOk(Db(e', db.schema))
  {
    var def, db' := db.schema[store], Db(e', db.schema);
    forall k | k in e' && HasTag(k, DOC_PREFIX)
      ensures exists s, p :: s in db'.schema && k == DocKey(s, p)
    {
      if k == DocKey(store, pk) {
      } else {
        OnlyIndexKeys(db.engine, def, pk, doc, k);
        assert k in db.engine;
      }
    }
    forall s, p | s in db'.schema && DocKey(s, p) in e'
      ensures Live(e', s, p).Some? && Fits(db'.schema[s], p, Live(e', s, p).value)
    {
      UpdateLive(db.engine, e', def, pk, doc, s, p);
      if s != store || p != pk {
        if DocKey(s, p) == DocKey(store, pk) { DocKeyInjective(s, p, store, pk); }
        OnlyIndexKeys(db.engine, def, pk, doc, DocKey(s, p));
        assert DocKey(s, p) in db.engine;
      }
    }
  }

  lemma UpdateIndex(db: Db, e': Engine, store: bytes, pk: bytes, doc: Option<Json>)
    requires Consistent(db) && store in db.schema
    requires doc.Some? ==> Fits(db.schema[store], pk, doc.value)
    requires Replaced(db.engine, e', db.schema[store], pk, doc)
    ensures IndexExact(Db(e', db.schema))
  {
    var def, db' := db.schema[store], Db(e', db.schema);
    forall k | k in e' && HasTag(k, IDX_PREFIX)
      ensures exists s, p :: Owns(db', s, p, k)
    {
      UpdateLive(db.engine, e', def, pk, doc, store, pk);
      if doc.Some? && k in KeysOf(store, def.indexes, pk, doc.value) {
        assert Owns(db', store, pk, k);
      } else {
        assert k in db.engine;
        var s, p :| Owns(db, s, p, k);
        UpdateLive(db.engine, e', def, pk, doc, s, p);
        assert Owns(db', s, p, k);
      }
    }
    forall s, p, k | Owns(db', s, p, k)
      ensures k in e' && e'[k] == Ref(p)
    {
      UpdateLive(db.engine, e', def, pk, doc, s, p);
      KeysOfTag(s, db.schema[s].indexes, p, Live(e', s, p).value, k);
      if s != store || p != pk {
        assert Owns(db, s, p, k) && DocKey(s, p) in db.engine;
        assert !(Live(db.engine, store, pk).Some?
                 && k in KeysOf(store, def.indexes, pk, Live(db.engine, store, pk).value)) by {
          if Owns(db, store, pk, k) {
            assert DocKey(store, pk) in db.engine;
            OwnerUnique(db, s, p, store, pk, k);
          }
        }
        assert !(doc.Some? && k in KeysOf(store, def.indexes, pk, doc.value)) by {
          if doc.Some? && k in KeysOf(store, def.indexes, pk, doc.value) {
            KeysApart(db.schema[s], p, Live(db.engine, s, p).value, def, pk, doc.value, k);
          }
        }
      }
    }
  }

  /** One put or delete keeps the index exact. */
  lemma UpdateKeepsConsistent(db: Db, store: bytes, pk: bytes, doc: Option<Json>)
    requires Consistent(db) && store in db.schema
    requires doc.Some? ==> Fits(db.schema[store], pk, doc.value)
    ensures Consistent(Db(Apply(db.engine, UpdateRecords(db.engine, db.schema[store], pk, doc)), db.schema))
  {
    var e' := Apply(db.engine, UpdateRecords(db.engine, db.schema[store], pk, doc));
    UpdateEffect(db.engine, db.schema[store], pk, doc);
    UpdateDocuments(db, e', store, pk, doc);
    UpdateIndex(db, e', store, pk, doc);
  }
}
