/** What queries answer (`src/jsondb/query.rs`), over the documents and the order of values. */
module QueryMeaning {
  import opened Bytes
  import opened BigEndian
  import opened Record
  import opened Seqs
  import opened Json
  import opened Encoding
  import opened Keyspace
  import opened Store
  import opened Lookup
  import opened Query
  import opened PlanCounts
  import opened InPlans

  // ---------------------------------------------------------------- one filter

  /** Neither value comes before the other. */
  predicate SamePlace(v: Json, w: Json) {
    !ValueBefore(v, w) && !ValueBefore(w, v)
  }

  /** Equal as documents are: floats by number, everything else as it stands. */
  predicate EqualValue(v: Json, w: Json) {
    v == w || (v.F64? && w.F64? && (v.bits == w.bits || (v.bits % TOP_BIT == 0 && w.bits % TOP_BIT == 0)))
  }

  /** What a filter asks of a value: equality, a half-open range, or a place among those listed. */
  predicate Asks(v: Json, f: Filter) {
    match f
    case WhereEq(_, w) => EqualValue(v, w)
    case WhereRange(_, lo, hi) => !ValueBefore(v, lo) && ValueBefore(v, hi)
    case WhereIn(_, ws) => exists i :: 0 <= i < |ws| && SamePlace(v, ws[i])
  }

  /** A document has every filtered field, with a value that is asked for. */
  predicate Asked(doc: Json, filters: seq<Filter>) {
    forall i :: 0 <= i < |filters| ==>
      Extract(doc, filters[i].field).Some? && Asks(Extract(doc, filters[i].field).value, filters[i])
  }

  lemma SamePlaceSameBytes(v: Json, w: Json)
    ensures SamePlace(v, w) <==> EncodeValue(v) == EncodeValue(w)
  {
    hide ValueBefore, EncodeValue;
    ValueOrder(v, w);
    ValueOrder(w, v);
    Trichotomy(EncodeValue(v), EncodeValue(w));
    LessIrreflexive(EncodeValue(v));
  }

  lemma FilterAsks(doc: Json, f: Filter)
    ensures FilterMatches(doc, f) <==> Extract(doc, f.field).Some? && Asks(Extract(doc, f.field).value, f)
  {
    hide ValueBefore, EncodeValue, SamePlace, Less, Extract;
    if Extract(doc, f.field).Some? {
      var v := Extract(doc, f.field).value;
      match f {
        case WhereEq(_, w) =>
        case WhereRange(_, lo, hi) =>
          ValueOrder(v, lo);
          ValueOrder(v, hi);
          Trichotomy(EncodeValue(v), EncodeValue(lo));
          LessIrreflexive(EncodeValue(v));
        case WhereIn(_, ws) =>
          forall i | 0 <= i < |ws| ensures SamePlace(v, ws[i]) <==> EncodeValue(v) == EncodeValue(ws[i]) {
            SamePlaceSameBytes(v, ws[i]);
          }
      }
    }
  }

  lemma AllAsked(doc: Json, filters: seq<Filter>)
    ensures AllMatch(doc, filters) <==> Asked(doc, filters)
  {
    hide FilterMatches, Asks, Extract;
    forall i | 0 <= i < |filters|
      ensures FilterMatches(doc, filters[i]) <==>
              Extract(doc, filters[i].field).Some? && Asks(Extract(doc, filters[i].field).value, filters[i])
    {
      FilterAsks(doc, filters[i]);
    }
  }

  // ---------------------------------------------------------------- the order

  function FieldOf(doc: Json, field: bytes): Json {
    match Extract(doc, field) case Some(v) => v case None => Null
  }

  /** No later field comes before an earlier one; descending, no earlier one before a later. */
  ghost predicate Ordered(docs: seq<Json>, field: bytes, dir: SortDir) {
    forall i, j :: 0 <= i < j < |docs| ==>
      if dir.Asc? then !ValueBefore(FieldOf(docs[j], field), FieldOf(docs[i], field))
      else !ValueBefore(FieldOf(docs[i], field), FieldOf(docs[j], field))
  }

  lemma OrderIsValueOrder(docs: seq<Json>, field: bytes, dir: SortDir)
    ensures SortedBy(docs, field, dir) <==> Ordered(docs, field, dir)
  {
    hide ValueBefore, EncodeValue, Less, Extract;
    var le := Order(field, dir);
    forall i, j | 0 <= i < j < |docs|
      ensures le(docs[i], docs[j]) <==>
              if dir.Asc? then !ValueBefore(FieldOf(docs[j], field), FieldOf(docs[i], field))
              else !ValueBefore(FieldOf(docs[i], field), FieldOf(docs[j], field))
    {
      NotBefore(FieldOf(docs[i], field), FieldOf(docs[j], field));
      NotBefore(FieldOf(docs[j], field), FieldOf(docs[i], field));
    }
  }

  lemma NotBefore(v: Json, w: Json)
    ensures AtMost(EncodeValue(v), EncodeValue(w)) <==> !ValueBefore(w, v)
  {
    hide ValueBefore, EncodeValue;
    ValueOrder(w, v);
    Trichotomy(EncodeValue(v), EncodeValue(w));
    LessIrreflexive(EncodeValue(v));
  }

  // ---------------------------------------------------------------- whole queries

  /** How often a query should return a document. */
  ghost function Times(e: Engine, store: bytes, filters: seq<Filter>, doc: Json): nat {
    if Asked(doc, filters) && exists p :: Live(e, store, p) == Some(doc) then 1 else 0
  }

  /** A full scan returns each live document that is asked for, once, and nothing else. */
  lemma ScanAnswers(db: Db, store: bytes, spec: QuerySpec, doc: Json)
    requires Consistent(db) && store in db.schema
    ensures Reference(db, store, spec).Ok?
    ensures multiset(Reference(db, store, spec).value)[doc] == Times(db.engine, store, spec.filters, doc)
  {
    hide Consistent, Live, Reference, AllMatch, Asked;
    AllAsked(doc, spec.filters);
    if p :| Live(db.engine, store, p) == Some(doc) {
      ReferenceCounts(db, store, spec, p);
    } else {
      ReferenceCountsNone(db, store, spec, doc);
    }
  }

  lemma ReferenceCountsNone(db: Db, store: bytes, spec: QuerySpec, doc: Json)
    requires Consistent(db) && store in db.schema && forall p :: Live(db.engine, store, p) != Some(doc)
    ensures Reference(db, store, spec).Ok? && multiset(Reference(db, store, spec).value)[doc] == 0
  {
    hide Consistent, Live, FullScan, Finish;
    var all := FullScanFetches(db, store);
    FinishCounts(FullScan(db.engine, store).value, spec, None);
    if doc in multiset(Reference(db, store, spec).value) { ReferenceLive(db, store, spec, doc); }
  }

  /** A query that no index serves, or one whose chosen index starts with an equality or a range
      and has an entry for every document asked for, returns each live document that is asked
      for, once, and nothing else, in the requested order. */
  lemma QueryAnswers(db: Db, store: bytes, spec: QuerySpec)
    requires Consistent(db) && store in db.schema && Planned(spec.filters, db.schema[store].indexes)
    requires RangesClean(spec.filters) && StoreZeroSafe(db.engine, store, spec.filters)
    requires var best := Best(spec.filters, db.schema[store].indexes);
             best.Some? ==> Covers(db.engine, store, spec.filters, best.value)
    ensures Collect(db, store, spec).Ok?
    ensures forall doc ::
              multiset(Collect(db, store, spec).value)[doc] == Times(db.engine, store, spec.filters, doc)
    ensures spec.orderField.Some? ==>
              Ordered(Collect(db, store, spec).value, spec.orderField.value, spec.orderDir)
  {
    hide Consistent, Collect, Reference, Planned, RangesClean, StoreZeroSafe, Covers, Best, SortedBy, Ordered, Times;
    PlanExact(db, store, spec);
    forall doc
      ensures multiset(Collect(db, store, spec).value)[doc] == Times(db.engine, store, spec.filters, doc)
    {
      ScanAnswers(db, store, spec, doc);
    }
    if spec.orderField.Some? {
      OrderIsValueOrder(Collect(db, store, spec).value, spec.orderField.value, spec.orderDir);
    }
  }

  /** A query led by an `In` filter returns a live document that is asked for once per entry it
      has in the indexes read, and nothing that is not asked for. */
  lemma InQueryAnswers(db: Db, store: bytes, spec: QuerySpec, idx: IndexDef, p: bytes)
    requires Consistent(db) && store in db.schema && Best(spec.filters, db.schema[store].indexes) == Some(idx)
    requires StartsIn(spec.filters, idx.keyPaths) && Live(db.engine, store, p).Some?
    ensures Collect(db, store, spec).Ok?
    ensures var doc := Live(db.engine, store, p).value;
            multiset(Collect(db, store, spec).value)[doc] ==
            if Asked(doc, spec.filters) then |EntriesIn(db.schema[store].indexes, idx.name, doc)| else 0
  {
    hide Consistent, Collect, Live, KeysTo, AllMatch, Asked, Best, EntriesIn, PrefixScan, Base, StartsIn, Scans;
    AllAsked(Live(db.engine, store, p).value, spec.filters);
    InScans(db, store, spec, idx);
    ScanCounts(db, store, spec, idx, PrefixScan(db.engine, Base(store, idx.name)), p);
    EntriesCount(db, store, idx.name, p);
  }
}
