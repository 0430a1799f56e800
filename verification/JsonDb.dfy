/** The document database (`JsonDB` in `src/jsondb/db.rs`) as the object it is: every
    operation writes one batch to the engine and updates the schema cache. */
module JsonDb {
  import opened Bytes
  import opened Record
  import opened Seqs
  import opened Json
  import opened Encoding
  import opened Keyspace
  import opened Store
  import opened Database
  import opened PrimaryKeys
  import opened Runs
  import opened Effects
  import opened Lookup
  import opened Reading
  import opened Helpers

  /** `iter().find(|i| i.name == index)`. */
  function FindIndex(idxs: seq<IndexDef>, name: bytes): (r: Option<IndexDef>)
    ensures r.Some? ==> r.value in idxs && r.value.name == name
    ensures r.None? ==> forall i :: 0 <= i < |idxs| ==> idxs[i].name != name
  {
    if idxs == [] then None else if idxs[0].name == name then Some(idxs[0]) else FindIndex(idxs[1..], name)
  }

  class JsonDB {
    var engine: Engine
    var schema: Schema

    function Snapshot(): Db
      reads this
    {
      Db(engine, schema)
    }

    /** Every index is exact. */
    ghost predicate Valid()
      reads this
    {
      Consistent(Snapshot())
    }

    constructor ()
      ensures Valid() && Snapshot() == EMPTY
    {
      engine, schema := map[], map[];
      new;
      EmptyConsistent();
    }

    // -------------------------------------------------------------- schema

    method CreateObjectStore(name: bytes, keyPath: bytes) returns (r: Result<()>)
      modifies this
      ensures Snapshot() == Step(old(Snapshot()), DoCreateStore(name, keyPath))
      ensures old(Valid() && Admissible(Snapshot(), DoCreateStore(name, keyPath))) ==> Valid()
      ensures r.Ok? <==> CreateStore(old(Snapshot()), name, keyPath).Ok?
    {
      hide Consistent;
      if Valid() && Admissible(Snapshot(), DoCreateStore(name, keyPath)) {
        StepKeepsConsistent(Snapshot(), DoCreateStore(name, keyPath));
      }
      if !ValidName(name) || keyPath == [] {
        return Err(InvalidDefinition);
      }
      if name in schema {
        return if schema[name].keyPath == keyPath then Ok(()) else Err(InvalidDefinition);
      }
      var def := StoreDef(name, keyPath, false, []);
      engine := engine[SchemaKey(name) := Definition(def)];
      schema := schema[name := def];
      return Ok(());
    }

    /** The auto-increment step of `apply_store`. */
    method EnableAutoIncrement(name: bytes) returns (r: Result<()>)
      modifies this
      ensures Snapshot() == Step(old(Snapshot()), DoEnableAuto(name))
      ensures old(Valid() && Admissible(Snapshot(), DoEnableAuto(name))) ==> Valid()
      ensures r.Ok? <==> name in old(schema)
    {
      hide Consistent;
      if Valid() && Admissible(Snapshot(), DoEnableAuto(name)) { StepKeepsConsistent(Snapshot(), DoEnableAuto(name)); }
      if name !in schema {
        return Err(StoreNotFound);
      }
      var current := schema[name].(autoIncrement := true);
      engine := engine[SchemaKey(name) := Definition(current)];
      schema := schema[name := current];
      return Ok(());
    }

    /** One batch: the new definition and an entry for every row of every document. */
    method CreateIndex(store: bytes, name: bytes, keyPaths: seq<bytes>, unique: bool) returns (r: Result<()>)
      modifies this
      ensures Snapshot() == Step(old(Snapshot()), DoCreateIndex(store, name, keyPaths, unique))
      ensures old(Valid() && Admissible(Snapshot(), DoCreateIndex(store, name, keyPaths, unique))) ==> Valid()
      ensures r.Ok? <==> Database.CreateIndex(old(Snapshot()), store, name, keyPaths, unique).Ok?
    {
      hide Consistent, Backfill, Apply, RowKeys, Refs;
      if Valid() && Admissible(Snapshot(), DoCreateIndex(store, name, keyPaths, unique)) {
        StepKeepsConsistent(Snapshot(), DoCreateIndex(store, name, keyPaths, unique));
      }
      if store !in schema {
        return Err(StoreNotFound);
      }
      var def := schema[store];
      if !ValidNewIndex(def, name, keyPaths) {
        return Err(InvalidDefinition);
      }
      var idx := IndexDef(name, keyPaths, unique, false);
      def := def.(indexes := def.indexes + [idx]);
      var ks := PrefixScan(engine, DocPrefix(store));
      assert forall n :: 0 <= n < |ks| ==> ks[n] in ks;
      var entries := BackfillEntries(engine, def, idx, ks);
      if entries.Err? {
        return Err(entries.error);
      }
      engine := Apply(engine, [PutCell(SchemaKey(store), Definition(def))] + entries.value);
      schema := schema[store := def];
      return Ok(());
    }

    // -------------------------------------------------------------- documents

    method Put(store: bytes, doc: Json) returns (r: Result<Json>)
      modifies this
      ensures Snapshot() == Step(old(Snapshot()), DoPut(store, doc))
      ensures old(Valid() && Admissible(Snapshot(), DoPut(store, doc))) ==> Valid()
      ensures r.Ok? <==> Database.Put(old(Snapshot()), store, doc).Ok?
      ensures r.Err? ==> r.error == Database.Put(old(Snapshot()), store, doc).error
      ensures r.Ok? ==> store in schema && Extract(doc, schema[store].keyPath) == Some(r.value)
    {
      hide Consistent, PutBatch, Apply;
      if Valid() && Admissible(Snapshot(), DoPut(store, doc)) { StepKeepsConsistent(Snapshot(), DoPut(store, doc)); }
      if store !in schema {
        return Err(StoreNotFound);
      }
      var def := schema[store];
      var keyVal := ExtractField(doc, def.keyPath);
      if keyVal.None? {
        return Err(MissingKeyPath);
      }
      var pk := PrimaryKey(keyVal.value);
      if pk.Err? {
        return Err(pk.error);
      }
      var batch := BuildPutBatch(engine, def, pk.value, doc);
      if batch.Err? {
        return Err(batch.error);
      }
      engine := Apply(engine, batch.value);
      return Ok(keyVal.value);
    }

    method Get(store: bytes, key: Json) returns (r: Result<Option<Json>>)
      ensures store !in schema ==> r == Err(StoreNotFound)
      ensures store in schema && PrimaryKey(key).Err? ==> r == Err(PrimaryKey(key).error)
      ensures store in schema && PrimaryKey(key).Ok? ==>
                r == if SlotReadable(engine, store, PrimaryKey(key).value)
                     then Ok(Live(engine, store, PrimaryKey(key).value)) else Err(Corrupted)
      ensures Valid() && store in schema && PrimaryKey(key).Ok? ==> r.Ok?
    {
      if store !in schema {
        return Err(StoreNotFound);
      }
      var pk := PrimaryKey(key);
      if pk.Err? {
        return Err(pk.error);
      }
      var dk := DocKey(store, pk.value);
      if dk !in engine {
        return Ok(None);
      }
      if !engine[dk].Doc? {
        return Err(Corrupted);
      }
      return Ok(Some(engine[dk].doc));
    }

    method Delete(store: bytes, key: Json) returns (r: Result<()>)
      modifies this
      ensures Snapshot() == Step(old(Snapshot()), DoDelete(store, key))
      ensures old(Valid() && Admissible(Snapshot(), DoDelete(store, key))) ==> Valid()
      ensures r.Ok? <==> Database.Delete(old(Snapshot()), store, key).Ok?
      ensures r.Err? ==> r.error == Database.Delete(old(Snapshot()), store, key).error
    {
      hide Consistent, DeleteBatch, Apply;
      if Valid() && Admissible(Snapshot(), DoDelete(store, key)) {
        StepKeepsConsistent(Snapshot(), DoDelete(store, key));
      }
      if store !in schema {
        return Err(StoreNotFound);
      }
      var pk := PrimaryKey(key);
      if pk.Err? {
        return Err(pk.error);
      }
      var batch := BuildDeleteBatch(engine, schema[store], pk.value);
      if batch.Err? {
        return Err(batch.error);
      }
      engine := Apply(engine, batch.value);
      return Ok(());
    }

    /** The generated key, the document and its index entries go into one batch; the document is
        then found under the number that is returned. */
    method PutAuto(store: bytes, doc: Json, newText: text) returns (r: Result<Json>)
      modifies this
      ensures Snapshot() == Step(old(Snapshot()), DoPutAuto(store, doc, newText))
      ensures old(Valid() && Admissible(Snapshot(), DoPutAuto(store, doc, newText))) ==> Valid()
      ensures r.Ok? <==> Database.PutAuto(old(Snapshot()), store, doc, newText).Ok?
      ensures r.Err? ==> r.error == Database.PutAuto(old(Snapshot()), store, doc, newText).error
      ensures r.Ok? && old(Valid() && Admissible(Snapshot(), DoPutAuto(store, doc, newText))) ==>
                store in schema && IsInt(r.value) && 0 <= IntOf(r.value) && PrimaryKey(r.value).Ok?
                && Live(engine, store, PrimaryKey(r.value).value)
                   == Some(InjectKey(doc, schema[store].keyPath, IntOf(r.value), newText))
    {
      hide Consistent, PutBatch, Apply, NextId, InjectKey, Live, Admissible, Decimal;
      if Valid() && Admissible(Snapshot(), DoPutAuto(store, doc, newText)) {
        StepKeepsConsistent(Snapshot(), DoPutAuto(store, doc, newText));
        if Database.PutAuto(Snapshot(), store, doc, newText).Ok? {
          PutAutoReadsBack(Snapshot(), store, doc, newText, store, Decimal(NextId(engine, store).value));
        }
      }
      if store !in schema {
        return Err(StoreNotFound);
      }
      var def := schema[store];
      if !def.autoIncrement {
        return Err(NotAutoIncrement);
      }
      var id := NextId(engine, store);
      if id.Err? {
        return Err(id.error);
      }
      var batch := BuildPutBatch(engine, def, Decimal(id.value), InjectKey(doc, def.keyPath, id.value, newText));
      if batch.Err? {
        return Err(batch.error);
      }
      engine := Apply(engine, batch.value + [PutCell(CounterKey(store), Counter(id.value))]);
      return Ok(NumberOf(id.value));
    }

    // -------------------------------------------------------------- whole stores

    /** All documents, each once. */
    method Scan(store: bytes) returns (r: Result<seq<Json>>, ghost pks: seq<bytes>)
      requires Valid()
      ensures r.Ok? <==> store in schema
      ensures r.Ok? ==> ListsAll(Reader(engine, store), pks, r.value)
    {
      hide Consistent, PrefixScan, PkOf, Live;
      pks := [];
      if store !in schema {
        return Err(StoreNotFound), pks;
      }
      var ks := PrefixScan(engine, DocPrefix(store));
      var docs: seq<Json> := [];
      for n := 0 to |ks|
        invariant Reads(Reader(engine, store), pks, docs)
        invariant forall p :: p in pks <==> Met(store, ks, n, p)
      {
        ScanReadable(Snapshot(), store, n);
        NotYetMet(store, ks, n);
        ghost var p := PkOf(store, ks[n]);
        forall q ensures Met(store, ks, n + 1, q) <==> Met(store, ks, n, q) || q == p { MetNext(store, ks, n, q); }
        ReadsSnoc(Reader(engine, store), pks, docs, p);
        docs := docs + [engine[ks[n]].doc];
        pks := pks + [p];
      }
      forall p ensures p in pks <==> Live(engine, store, p).Some? { MetAll(Snapshot(), store, p); }
      r := Ok(docs);
    }

    method Count(store: bytes) returns (r: Result<nat>, ghost pks: seq<bytes>, ghost docs: seq<Json>)
      requires Valid()
      ensures r.Ok? <==> store in schema
      ensures r.Ok? ==> ListsAll(Reader(engine, store), pks, docs) && r.value == |docs|
    {
      hide Consistent, PrefixScan, PkOf, Live;
      pks, docs := [], [];
      if store !in schema {
        return Err(StoreNotFound), pks, docs;
      }
      var ks := PrefixScan(engine, DocPrefix(store));
      var count := 0;
      for n := 0 to |ks|
        invariant Reads(Reader(engine, store), pks, docs) && count == |docs|
        invariant forall p :: p in pks <==> Met(store, ks, n, p)
      {
        ScanReadable(Snapshot(), store, n);
        NotYetMet(store, ks, n);
        ghost var p := PkOf(store, ks[n]);
        forall q ensures Met(store, ks, n + 1, q) <==> Met(store, ks, n, q) || q == p { MetNext(store, ks, n, q); }
        ReadsSnoc(Reader(engine, store), pks, docs, p);
        docs := docs + [engine[ks[n]].doc];
        pks := pks + [p];
        count := count + 1;
      }
      forall p ensures p in pks <==> Live(engine, store, p).Some? { MetAll(Snapshot(), store, p); }
      r := Ok(count);
    }

    // -------------------------------------------------------------- index lookups

    /** Follows the index; with every index exact and a probe that fits, the documents whose
        indexed fields encode like the probe's, each once. */
    method GetByIndex(store: bytes, index: bytes, value: Json) returns (r: Result<seq<Json>>, ghost pks: seq<bytes>)
      ensures store !in schema ==> r == Err(StoreNotFound)
      ensures store in schema ==>
                match FindIndex(schema[store].indexes, index)
                case None => r == Err(IndexNotFound)
                case Some(idx) =>
                  && r == Lookup.GetByIndex(Snapshot(), store, idx, value)
                  && (Valid() && 0 < |Probe(idx, value)| <= |idx.keyPaths| && RowNulFree(Probe(idx, value)) ==>
                        r.Ok? && DocsOf(engine, store, pks, r.value)
                        && forall p :: p in pks <==> Matching(Snapshot(), store, idx, Probe(idx, value), p))
    {
      pks := [];
      if store !in schema {
        return Err(StoreNotFound), pks;
      }
      var found := FindIndex(schema[store].indexes, index);
      if found.None? {
        return Err(IndexNotFound), pks;
      }
      hide Consistent, Fetch, Matching, PrefixScan, RowNulFree;
      var idx := found.value;
      if Valid() && 0 < |Probe(idx, value)| <= |idx.keyPaths| && RowNulFree(Probe(idx, value)) {
        pks := GetByIndexExact(Snapshot(), store, idx, value);
      }
      var encoded := EncodeCompositeValue(Probe(idx, value));
      var ks := PrefixScan(engine, IdxValuePrefix(store, index, encoded));
      r := FollowRefs(engine, store, ks);
    }

    /** Follows the index between two bounds; with every index exact and single-valued bounds,
        the documents whose indexed field encodes into [start, end), each once. */
    method RangeByIndex(store: bytes, index: bytes, start: Json, end: Json)
      returns (r: Result<seq<Json>>, ghost pks: seq<bytes>)
      ensures store !in schema ==> r == Err(StoreNotFound)
      ensures store in schema ==>
                match FindIndex(schema[store].indexes, index)
                case None => r == Err(IndexNotFound)
                case Some(idx) =>
                  && r == Lookup.RangeByIndex(Snapshot(), store, idx, start, end)
                  && (Valid() && RangeFits(idx, start, end) ==>
                        r.Ok? && DocsOf(engine, store, pks, r.value)
                        && forall p :: p in pks <==> InRange(Snapshot(), store, idx, start, end, p))
    {
      pks := [];
      if store !in schema {
        return Err(StoreNotFound), pks;
      }
      var found := FindIndex(schema[store].indexes, index);
      if found.None? {
        return Err(IndexNotFound), pks;
      }
      hide Consistent, Fetch, InRange, RangeKeys;
      var idx := found.value;
      if Valid() && RangeFits(idx, start, end) {
        pks := RangeByIndexExact(Snapshot(), store, idx, start, end);
      }
      var from := EncodeCompositeValue(Probe(idx, start));
      var to := EncodeCompositeValue(Probe(idx, end));
      var ks := RangeKeys(engine, store, idx, from, to);
      r := FollowRefs(engine, store, ks);
    }
  }

  /** Two NUL-free values bounding the first field of an index without array expansion. */
  predicate RangeFits(idx: IndexDef, start: Json, end: Json) {
    !idx.multiEntry && Probe(idx, start) == [start] && Probe(idx, end) == [end] && NulFree(start) && NulFree(end)
  }

  /** The loop over scanned index entries. */
  method FollowRefs(e: Engine, store: bytes, ks: seq<bytes>) returns (r: Result<seq<Json>>)
    ensures r == Fetch(e, store, ks)
  {
    hide Live, Fetchable;
    r := Ok([]);
    for n := 0 to |ks|
      invariant r == Fetch(e, store, ks[..n])
    {
      assert ks[..n + 1][..n] == ks[..n];
      if r.Ok? {
        if !Fetchable(e, store, ks[n]) {
          r := Err(Corrupted);
        } else {
          assert e[ks[n]].Ref? by { FetchableRef(e, store, ks[n]); }
          match Live(e, store, e[ks[n]].pk) {
            case Some(d) => r := Ok(r.value + [d]);
            case None =>
          }
        }
      }
    }
    assert ks[..|ks|] == ks;
  }

  lemma FetchableRef(e: Engine, store: bytes, k: bytes)
    requires Fetchable(e, store, k)
    ensures k in e && e[k].Ref?
  {}

  /** The loop of `create_index` over the documents of the store. */
  method BackfillEntries(e: Engine, def: StoreDef, idx: IndexDef, ks: seq<bytes>) returns (r: Result<seq<Write>>)
    requires forall n :: 0 <= n < |ks| ==> ks[n] in e
    ensures r == Backfill(e, def, idx, ks)
  {
    hide RowKeys, Refs, BackfillKey, Rows;
    r := Ok([]);
    for n := 0 to |ks|
      invariant r == Backfill(e, def, idx, ks[..n])
    {
      assert ks[..n + 1][..n] == ks[..n];
      if r.Ok? {
        if !e[ks[n]].Doc? {
          r := Err(Corrupted);
        } else {
          var doc := e[ks[n]].doc;
          var rows := ExtractIndexValues(doc, idx);
          if rows != [] {
            var pk := BackfillKey(def, doc);
            if pk.Err? {
              r := Err(pk.error);
            } else {
              var keys := IndexKeys(def.name, idx, rows, pk.value);
              r := Ok(r.value + Refs(keys, pk.value));
            }
          }
        }
      }
    }
    assert ks[..|ks|] == ks;
  }
}
