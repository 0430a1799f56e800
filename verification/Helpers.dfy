/** The batch builders of the document layer (`src/jsondb/helpers.rs`), with their loops. */
module Helpers {
  import opened Bytes
  import opened Record
  import opened Json
  import opened Encoding
  import opened Keyspace
  import opened Store
  import opened Database

  // ---------------------------------------------------------------- growing the lists

  lemma RowKeysSnoc(store: bytes, idx: IndexDef, rows: seq<seq<Json>>, pk: bytes, r: nat)
    requires r < |rows|
    ensures RowKeys(store, idx, rows[..r + 1], pk) ==
            RowKeys(store, idx, rows[..r], pk) + [IdxKey(store, idx.name, EncodeRow(rows[r]), pk)]
  {
    hide IdxKey, EncodeRow;
  }

  lemma KeysOfSnoc(store: bytes, idxs: seq<IndexDef>, pk: bytes, doc: Json, i: nat)
    requires i < |idxs|
    ensures KeysOf(store, idxs[..i + 1], pk, doc) ==
            KeysOf(store, idxs[..i], pk, doc) + RowKeys(store, idxs[i], Rows(doc, idxs[i]), pk)
  {
    hide RowKeys;
    assert idxs[..i + 1] == idxs[..i] + [idxs[i]];
    KeysOfAppend(store, idxs[..i], [idxs[i]], pk, doc);
    assert KeysOf(store, [idxs[i]], pk, doc) == RowKeys(store, idxs[i], Rows(doc, idxs[i]), pk) + [];
  }

  lemma RefsAppend(a: seq<bytes>, b: seq<bytes>, pk: bytes)
    ensures Refs(a + b, pk) == Refs(a, pk) + Refs(b, pk)
  {}

  lemma DeletesAppend(a: seq<bytes>, b: seq<bytes>)
    ensures Deletes(a + b) == Deletes(a) + Deletes(b)
  {}

  /** The keys one index gives to a document. */
  method IndexKeys(store: bytes, idx: IndexDef, rows: seq<seq<Json>>, pk: bytes) returns (ks: seq<bytes>)
    ensures ks == RowKeys(store, idx, rows, pk)
  {
    hide RowKeys, IdxKey;
    ks := [];
    assert RowKeys(store, idx, rows[..0], pk) == [] by { NoRows(store, idx, rows[..0], pk); }
    for r := 0 to |rows|
      invariant ks == RowKeys(store, idx, rows[..r], pk)
    {
      RowKeysSnoc(store, idx, rows, pk, r);
      var encoded := EncodeCompositeValue(rows[r]);
      ks := ks + [IdxKey(store, idx.name, encoded, pk)];
    }
    assert rows[..|rows|] == rows;
  }

  lemma NoRows(store: bytes, idx: IndexDef, rows: seq<seq<Json>>, pk: bytes)
    requires rows == []
    ensures RowKeys(store, idx, rows, pk) == []
  {}

  /** Retract every index entry of a document. */
  method RetractEntries(def: StoreDef, pk: bytes, doc: Json) returns (records: seq<Write>)
    ensures records == Deletes(KeysOf(def.name, def.indexes, pk, doc))
  {
    hide RowKeys, KeysOf, Deletes;
    records := [];
    NoDeletes(def.name, pk, doc);
    assert def.indexes[..0] == [];
    for i := 0 to |def.indexes|
      invariant records == Deletes(KeysOf(def.name, def.indexes[..i], pk, doc))
    {
      var idx := def.indexes[i];
      var rows := ExtractIndexValues(doc, idx);
      var ks := IndexKeys(def.name, idx, rows, pk);
      KeysOfSnoc(def.name, def.indexes, pk, doc, i);
      DeletesAppend(KeysOf(def.name, def.indexes[..i], pk, doc), ks);
      records := records + Deletes(ks);
    }
    assert def.indexes[..|def.indexes|] == def.indexes;
  }

  lemma NoDeletes(store: bytes, pk: bytes, doc: Json)
    ensures Deletes(KeysOf(store, [], pk, doc)) == [] && Refs(KeysOf(store, [], pk, doc), pk) == []
  {}

  // ---------------------------------------------------------------- the unique check

  method ValueTaken(e: Engine, def: StoreDef, idx: IndexDef, row: seq<Json>, pk: bytes) returns (taken: bool)
    ensures taken <==> Taken(e, def, idx, row, pk)
  {
    var encoded := EncodeCompositeValue(row);
    var prefix := IdxValuePrefix(def.name, idx.name, encoded);
    var found := PrefixScan(e, prefix);
    for n := 0 to |found|
      invariant forall m :: 0 <= m < n ==> e[found[m]] == Ref(pk)
    {
      assert found[n] in found;
      if e[found[n]] != Ref(pk) {
        return true;
      }
    }
    assert forall k :: k in found ==> e[k] == Ref(pk);
    return false;
  }

  /** No row of this index is taken. */
  predicate IndexFree(e: Engine, def: StoreDef, idx: IndexDef, pk: bytes, doc: Json) {
    idx.unique ==> forall r :: 0 <= r < |Rows(doc, idx)| ==> !Taken(e, def, idx, Rows(doc, idx)[r], pk)
  }

  lemma UniqueByIndex(e: Engine, def: StoreDef, pk: bytes, doc: Json)
    ensures UniqueFree(e, def, pk, doc) <==>
            forall i :: 0 <= i < |def.indexes| ==> IndexFree(e, def, def.indexes[i], pk, doc)
  {
    hide Taken, Rows;
  }

  method CheckUnique(e: Engine, def: StoreDef, idx: IndexDef, pk: bytes, doc: Json,
                     rows: seq<seq<Json>>) returns (free: bool)
    requires rows == Rows(doc, idx)
    ensures free <==> IndexFree(e, def, idx, pk, doc)
  {
    hide Taken, Rows;
    if !idx.unique {
      return true;
    }
    for r := 0 to |rows|
      invariant forall l :: 0 <= l < r ==> !Taken(e, def, idx, rows[l], pk)
    {
      var taken := ValueTaken(e, def, idx, rows[r], pk);
      if taken {
        return false;
      }
    }
    return true;
  }

  // ---------------------------------------------------------------- batches

  /** The three parts of a put, in order. */
  lemma PutRecords(e: Engine, def: StoreDef, pk: bytes, doc: Json, retracted: seq<Write>)
    requires retracted == var prior := Live(e, def.name, pk);
                          if prior.Some? then Deletes(KeysOf(def.name, def.indexes, pk, prior.value)) else []
    ensures retracted + [PutCell(DocKey(def.name, pk), Doc(doc))] + Refs(KeysOf(def.name, def.indexes, pk, doc), pk)
            == UpdateRecords(e, def, pk, Some(doc))
  {
    hide KeysOf, Deletes, Refs, Live, DocKey;
  }

  /** One index of a put: its keys, unless the unique check refuses one of its rows. */
  method CheckedKeys(e: Engine, def: StoreDef, idx: IndexDef, pk: bytes, doc: Json) returns (ks: Option<seq<bytes>>)
    ensures ks == if IndexFree(e, def, idx, pk, doc) then Some(RowKeys(def.name, idx, Rows(doc, idx), pk)) else None
  {
    hide IndexFree, RowKeys, Rows;
    var rows := ExtractIndexValues(doc, idx);
    var free := CheckUnique(e, def, idx, pk, doc, rows);
    if !free {
      return None;
    }
    var keys := IndexKeys(def.name, idx, rows, pk);
    return Some(keys);
  }

  /** The entries a put asserts, index by index, unless a unique check refuses. */
  method AssertEntries(e: Engine, def: StoreDef, pk: bytes, doc: Json) returns (entries: Option<seq<Write>>)
    ensures entries ==
            if UniqueFree(e, def, pk, doc) then Some(Refs(KeysOf(def.name, def.indexes, pk, doc), pk)) else None
  {
    hide RowKeys, KeysOf, Refs, UniqueFree, IndexFree, Rows;
    var records: seq<Write> := [];
    UniqueByIndex(e, def, pk, doc);
    NoDeletes(def.name, pk, doc);
    assert def.indexes[..0] == [];
    for i := 0 to |def.indexes|
      invariant forall j :: 0 <= j < i ==> IndexFree(e, def, def.indexes[j], pk, doc)
      invariant records == Refs(KeysOf(def.name, def.indexes[..i], pk, doc), pk)
    {
      var ks := CheckedKeys(e, def, def.indexes[i], pk, doc);
      if ks.None? {
        return None;
      }
      KeysOfSnoc(def.name, def.indexes, pk, doc, i);
      RefsAppend(KeysOf(def.name, def.indexes[..i], pk, doc), ks.value, pk);
      records := records + Refs(ks.value, pk);
    }
    assert def.indexes[..|def.indexes|] == def.indexes;
    return Some(records);
  }

  /** `build_put_batch`. */
  method BuildPutBatch(e: Engine, def: StoreDef, pk: bytes, doc: Json) returns (batch: Result<seq<Write>>)
    ensures batch == PutBatch(e, def, pk, doc)
  {
    hide KeysOf, Deletes, Refs, UniqueFree, UpdateRecords, DocKey;
    var dk := DocKey(def.name, pk);
    var records: seq<Write> := [];
    if dk in e {
      if !e[dk].Doc? {
        return Err(Corrupted);
      }
      records := RetractEntries(def, pk, e[dk].doc);
    }
    var entries := AssertEntries(e, def, pk, doc);
    if entries.None? {
      return Err(UniqueViolation);
    }
    PutRecords(e, def, pk, doc, records);
    return Ok(records + [PutCell(dk, Doc(doc))] + entries.value);
  }

  /** `build_delete_batch`. */
  method BuildDeleteBatch(e: Engine, def: StoreDef, pk: bytes) returns (batch: Result<seq<Write>>)
    ensures batch == DeleteBatch(e, def, pk)
  {
    var dk := DocKey(def.name, pk);
    var records: seq<Write> := [];
    if dk in e {
      if !e[dk].Doc? {
        return Err(Corrupted);
      }
      records := RetractEntries(def, pk, e[dk].doc);
    }
    records := records + [DeleteKey(dk)];
    return Ok(records);
  }
}
