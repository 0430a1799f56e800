/** The query planner (`src/jsondb/query.rs`): an index-driven plan answers like a full scan
    followed by all filters.  Queries with a limit or an offset are not modelled. */
module Query {
  import opened Bytes
  import opened Record
  import opened Json
  import opened Encoding
  import opened Keyspace
  import opened Store
  import opened Lookup
  import opened Seqs

  datatype Filter =
    | WhereEq(field: bytes, val: Json)
    | WhereRange(field: bytes, lo: Json, hi: Json)
    | WhereIn(field: bytes, vals: seq<Json>)

  datatype SortDir = Asc | Desc

  datatype QuerySpec = QuerySpec(filters: seq<Filter>, orderField: Option<bytes>, orderDir: SortDir)

  /** `filter_matches`. */
  predicate FilterMatches(doc: Json, f: Filter) {
    match Extract(doc, f.field)
    case None => false
    case Some(v) =>
      match f
      case WhereEq(_, val) => SameValue(v, val)
      case WhereRange(_, lo, hi) =>
        AtMost(EncodeValue(lo), EncodeValue(v)) && Less(EncodeValue(v), EncodeValue(hi))
      case WhereIn(_, vals) =>
        exists i :: 0 <= i < |vals| && EncodeValue(v) == EncodeValue(vals[i])
  }

  predicate AllMatch(doc: Json, filters: seq<Filter>) {
    forall i :: 0 <= i < |filters| ==> FilterMatches(doc, filters[i])
  }

  // ---------------------------------------------------------------- planning

  /** `filters.iter().find(..)` on the filters of one field. */
  function FirstOn(filters: seq<Filter>, path: bytes): (r: Option<Filter>)
    ensures r.Some? ==> r.value in filters && r.value.field == path
  {
    if filters == [] then None
    else if filters[0].field == path then Some(filters[0])
    else FirstOn(filters[1..], path)
  }

  function FirstEqOn(filters: seq<Filter>, path: bytes): Option<Json> {
    if filters == [] then None
    else if filters[0].WhereEq? && filters[0].field == path then Some(filters[0].val)
    else FirstEqOn(filters[1..], path)
  }

  /** How many leading fields of an index have a filter. */
  function Score(filters: seq<Filter>, paths: seq<bytes>): (n: nat)
    ensures n <= |paths|
    ensures forall i :: 0 <= i < n ==> FirstOn(filters, paths[i]).Some?
    ensures n < |paths| ==> FirstOn(filters, paths[n]).None?
  {
    if paths == [] || FirstOn(filters, paths[0]).None? then 0
    else 1 + Score(filters, paths[1..])
  }

  /** The first index of the highest positive score. */
  function Best(filters: seq<Filter>, idxs: seq<IndexDef>): Option<IndexDef> {
    if idxs == [] then None
    else
      var n := |idxs| - 1;
      var before := Best(filters, idxs[..n]);
      var bar := if before.Some? then Score(filters, before.value.keyPaths) else 0;
      if Score(filters, idxs[n].keyPaths) > bar then Some(idxs[n]) else before
  }

  /** The chosen index is one of the store's, matches some filter, and no index scores
      higher; the ones before it score less.  Without a choice no index matches any filter. */
  lemma {:induction false} BestIsBest(filters: seq<Filter>, idxs: seq<IndexDef>)
    ensures var b := Best(filters, idxs);
            (b.Some? ==> b.value in idxs && Score(filters, b.value.keyPaths) > 0)
            && (forall i :: 0 <= i < |idxs| ==>
                  Score(filters, idxs[i].keyPaths) <= if b.Some? then Score(filters, b.value.keyPaths) else 0)
            && (b.Some? ==> exists n :: 0 <= n < |idxs| && idxs[n] == b.value && BeatsEarlier(filters, idxs, n))
  {
    hide Score;
    if idxs != [] {
      var n := |idxs| - 1;
      BestIsBest(filters, idxs[..n]);
      forall i | 0 <= i < |idxs|
        ensures Score(filters, idxs[i].keyPaths) <=
                var b := Best(filters, idxs); if b.Some? then Score(filters, b.value.keyPaths) else 0
      {
        if i < n { assert idxs[..n][i] == idxs[i]; }
      }
      var before := Best(filters, idxs[..n]);
      if Best(filters, idxs) == before {
        if before.Some? {
          var m :| 0 <= m < n && idxs[..n][m] == before.value && BeatsEarlier(filters, idxs[..n], m);
          assert idxs[m] == before.value && BeatsEarlier(filters, idxs, m);
        }
      } else {
        assert BeatsEarlier(filters, idxs, n);
      }
    }
  }

  /** No earlier index scores as high. */
  predicate BeatsEarlier(filters: seq<Filter>, idxs: seq<IndexDef>, n: nat)
    requires n < |idxs|
  {
    forall i :: 0 <= i < n ==> Score(filters, idxs[i].keyPaths) < Score(filters, idxs[n].keyPaths)
  }

  /** The inner loop that rebuilds the upper bound. */
  function EndKey(filters: seq<Filter>, paths: seq<bytes>, path: bytes, m: nat, acc: bytes, enc: bytes): bytes
    requires m <= |paths|
    decreases |paths| - m
  {
    if m == |paths| then acc
    else if paths[m] == path then acc + enc
    else match FirstEqOn(filters, paths[m])
      case Some(v) => EndKey(filters, paths, path, m + 1, acc + EncodeValue(v) + [SEP], enc)
      case None => EndKey(filters, paths, path, m + 1, acc, enc)
  }

  /** The outer loop of `build_index_scan` from field n on, with the prefix built so far. */
  function Bounds(filters: seq<Filter>, paths: seq<bytes>, pfx: bytes, n: nat, acc: bytes): (bytes, Option<bytes>)
    requires n <= |paths|
    decreases |paths| - n
  {
    if n == |paths| then (acc, None)
    else match FirstOn(filters, paths[n])
      case Some(WhereEq(_, v)) => Bounds(filters, paths, pfx, n + 1, acc + EncodeValue(v) + [SEP])
      case Some(WhereRange(_, lo, hi)) =>
        (acc + EncodeValue(lo), Some(EndKey(filters, paths, paths[n], 0, pfx, EncodeValue(hi))))
      case _ => (acc, None)
  }

  /** A trailing separator is dropped (so is a trailing zero byte of an encoded bound). */
  function Trim(partial: bytes): bytes {
    if partial != [] && partial[|partial| - 1] == SEP then partial[..|partial| - 1] else partial
  }

  /** The keys an index plan scans. */
  function PlanKeys(e: Engine, filters: seq<Filter>, store: bytes, idx: IndexDef): (ks: seq<bytes>)
    ensures Ascending(ks)
  {
    var pfx := IdxPrefix(store, idx.name);
    var (partial, end) := Bounds(filters, idx.keyPaths, pfx, 0, pfx);
    match end
    case Some(h) => ScanKeys(e, Included(Trim(partial)), Excluded(h))
    case None => PrefixScan(e, Trim(partial))
  }

  // ---------------------------------------------------------------- collecting

  function DocsAt(e: Engine, ks: seq<bytes>): Result<seq<Json>> {
    if ks == [] then Ok([]) else
    var n := |ks| - 1;
    match DocsAt(e, ks[..n])
    case Err(x) => Err(x)
    case Ok(docs) => if ks[n] in e && e[ks[n]].Doc? then Ok(docs + [e[ks[n]].doc]) else Err(Corrupted)
  }

  /** All documents of a store, in primary-key order. */
  function FullScan(e: Engine, store: bytes): Result<seq<Json>> {
    DocsAt(e, PrefixScan(e, DocPrefix(store)))
  }

  /** The `retain` passes, one per filter, taken together. */
  function Passing(filters: seq<Filter>): Json -> bool {
    d => AllMatch(d, filters)
  }

  function SortKey(doc: Json, field: bytes): bytes {
    EncodeValue(match Extract(doc, field) case Some(v) => v case None => Null)
  }

  predicate InOrder(a: Json, b: Json, field: bytes, dir: SortDir) {
    if dir.Asc? then AtMost(SortKey(a, field), SortKey(b, field))
    else AtMost(SortKey(b, field), SortKey(a, field))
  }

  function Order(field: bytes, dir: SortDir): (Json, Json) -> bool {
    (a, b) => InOrder(a, b, field, dir)
  }

  ghost predicate SortedBy(docs: seq<Json>, field: bytes, dir: SortDir) {
    Sorted(docs, Order(field, dir))
  }

  predicate NeedsSort(spec: QuerySpec, used: Option<IndexDef>) {
    match spec.orderField
    case None => false
    case Some(field) =>
      !(used.Some? && spec.orderDir.Asc? && used.value.keyPaths != [] && used.value.keyPaths[0] == field)
  }

  function Finish(docs: Result<seq<Json>>, spec: QuerySpec, used: Option<IndexDef>): Result<seq<Json>> {
    match docs
    case Err(x) => Err(x)
    case Ok(ds) =>
      var kept := Keep(ds, Passing(spec.filters));
      Ok(if NeedsSort(spec, used) then Sort(kept, Order(spec.orderField.value, spec.orderDir)) else kept)
  }

  /** `QueryBuilder::collect`. */
  function Collect(db: Db, store: bytes, spec: QuerySpec): Result<seq<Json>> {
    if store !in db.schema then Err(StoreNotFound) else
    match Best(spec.filters, db.schema[store].indexes)
    case Some(idx) =>
      Finish(Fetch(db.engine, store, PlanKeys(db.engine, spec.filters, store, idx)), spec, Some(idx))
    case None => Finish(FullScan(db.engine, store), spec, None)
  }

  /** What a query means: scan everything, filter, sort. */
  function Reference(db: Db, store: bytes, spec: QuerySpec): Result<seq<Json>> {
    Finish(FullScan(db.engine, store), spec, None)
  }

  // ---------------------------------------------------------------- the plan's bounds

  lemma {:induction false} FirstEqAgrees(filters: seq<Filter>, path: bytes)
    requires FirstOn(filters, path).Some? && FirstOn(filters, path).value.WhereEq?
    ensures FirstEqOn(filters, path) == Some(FirstOn(filters, path).value.val)
  {
    if filters[0].field != path { FirstEqAgrees(filters[1..], path); }
  }

  predicate EqBefore(filters: seq<Filter>, paths: seq<bytes>, n: nat)
    requires n <= |paths|
  {
    forall i :: 0 <= i < n ==> FirstOn(filters, paths[i]).Some? && FirstOn(filters, paths[i]).value.WhereEq?
  }

  /** The prefix after n equality fields. */
  function EqPrefix(filters: seq<Filter>, paths: seq<bytes>, pfx: bytes, n: nat): bytes
    requires n <= |paths| && EqBefore(filters, paths, n)
  {
    if n == 0 then pfx
    else EqPrefix(filters, paths, pfx, n - 1) + EncodeValue(FirstOn(filters, paths[n - 1]).value.val) + [SEP]
  }

  /** The rebuilt upper bound extends the same equality prefix as the lower bound. */
  lemma {:induction false} EndKeyShape(filters: seq<Filter>, paths: seq<bytes>, pfx: bytes, m: nat, n: nat, enc: bytes)
    requires m <= n < |paths| && EqBefore(filters, paths, n)
    requires FirstOn(filters, paths[n]).Some? && FirstOn(filters, paths[n]).value.WhereRange?
    ensures EndKey(filters, paths, paths[n], m, EqPrefix(filters, paths, pfx, m), enc)
            == EqPrefix(filters, paths, pfx, n) + enc
    decreases n - m
  {
    hide EncodeValue, FirstOn;
    if m < n {
      FirstEqAgrees(filters, paths[m]);
      EndKeyShape(filters, paths, pfx, m + 1, n, enc);
    }
  }

  /** What is left of an index key after n fields. */
  function KeyRest(row: seq<Json>, n: nat, pk: bytes): bytes
    requires n <= |row|
  {
    if n == |row| then pk else Terminated(row[n..]) + pk
  }

  lemma KeyRestStep(row: seq<Json>, n: nat, pk: bytes)
    requires n < |row|
    ensures KeyRest(row, n, pk) == EncodeValue(row[n]) + [SEP] + KeyRest(row, n + 1, pk)
  {
    TerminatedSplit(row[n..], pk);
    assert row[n..][1..] == row[n + 1..];
  }

  /** A row value is accepted by the first filter of its field. */
  predicate FieldAccepted(filters: seq<Filter>, path: bytes, v: Json) {
    match FirstOn(filters, path)
    case Some(WhereEq(_, val)) => EncodeValue(v) == EncodeValue(val)
    case Some(WhereRange(_, lo, hi)) =>
      NulFree(hi) && AtMost(EncodeValue(lo), EncodeValue(v)) && Less(EncodeValue(v), EncodeValue(hi))
    case _ => true
  }

  ghost predicate WithinPlan(partial: bytes, end: Option<bytes>, k: bytes) {
    match end
    case None => Trim(partial) <= k
    case Some(h) => AtMost(Trim(partial), k) && Less(k, h)
  }

  lemma TrimAtMost(partial: bytes, k: bytes)
    requires AtMost(partial, k)
    ensures AtMost(Trim(partial), k)
  {
    if Trim(partial) != partial {
      PrefixLess(Trim(partial), partial);
      if partial != k { LessTransitive(Trim(partial), partial, k); }
    }
  }

  /** The range step: lower and upper bound around a key that continues a common prefix. */
  lemma RangeStep(acc: bytes, lo: Json, hi: Json, v: Json, rest: bytes)
    requires NulFree(hi) && NulFree(v)
    requires AtMost(EncodeValue(lo), EncodeValue(v)) && Less(EncodeValue(v), EncodeValue(hi))
    ensures AtMost(acc + EncodeValue(lo), acc + (EncodeValue(v) + [SEP] + rest))
    ensures Less(acc + (EncodeValue(v) + [SEP] + rest), acc + EncodeValue(hi))
  {
    var t := EncodeValue(v) + [SEP] + rest;
    BoundMeansField(hi, v, rest);
    LessCancel(acc, t, EncodeValue(hi));
    PrefixLess(EncodeValue(v), t);
    if EncodeValue(lo) != EncodeValue(v) { LessTransitive(EncodeValue(lo), EncodeValue(v), t); }
    AtMostCancel(acc, EncodeValue(lo), t);
  }

  /** No accepted key falls outside the planned bounds. */
  lemma {:induction false} BoundsCover(filters: seq<Filter>, paths: seq<bytes>, pfx: bytes, n: nat, row: seq<Json>,
                                       pk: bytes)
    requires n <= |paths| == |row| && RowNulFree(row) && EqBefore(filters, paths, n)
    requires forall i :: 0 <= i < |row| ==> FieldAccepted(filters, paths[i], row[i])
    ensures var acc := EqPrefix(filters, paths, pfx, n);
            var b := Bounds(filters, paths, pfx, n, acc);
            WithinPlan(b.0, b.1, acc + KeyRest(row, n, pk))
    decreases |paths| - n
  {
    hide EncodeValue, Less, KeyRest, FirstOn;
    if n < |paths| {
      assert FieldAccepted(filters, paths[n], row[n]);
      match FirstOn(filters, paths[n]) {
        case Some(WhereEq(_, v)) =>
          BoundsCover(filters, paths, pfx, n + 1, row, pk);
          EqStep(EqPrefix(filters, paths, pfx, n), v, row, n, pk);
        case Some(WhereRange(_, lo, hi)) =>
          KeyRestStep(row, n, pk);
          BoundsCoverRange(filters, paths, pfx, n, row[n], KeyRest(row, n + 1, pk));
        case _ =>
      }
    }
  }

  /** The equality step: the key continues past the matched field. */
  lemma EqStep(acc: bytes, v: Json, row: seq<Json>, n: nat, pk: bytes)
    requires n < |row| && EncodeValue(row[n]) == EncodeValue(v)
    ensures acc + KeyRest(row, n, pk) == acc + EncodeValue(v) + [SEP] + KeyRest(row, n + 1, pk)
  {
    KeyRestStep(row, n, pk);
    Reassociate(acc, EncodeValue(v), KeyRest(row, n + 1, pk));
  }

  lemma Reassociate(a: bytes, b: bytes, c: bytes)
    ensures a + (b + [SEP] + c) == a + b + [SEP] + c
  {}

  lemma BoundsCoverRange(filters: seq<Filter>, paths: seq<bytes>, pfx: bytes, n: nat, v: Json, rest: bytes)
    requires n < |paths| && NulFree(v) && EqBefore(filters, paths, n)
    requires FirstOn(filters, paths[n]).Some? && FirstOn(filters, paths[n]).value.WhereRange?
    requires FieldAccepted(filters, paths[n], v)
    ensures var acc := EqPrefix(filters, paths, pfx, n);
            var b := Bounds(filters, paths, pfx, n, acc);
            WithinPlan(b.0, b.1, acc + (EncodeValue(v) + [SEP] + rest))
  {
    var acc, f := EqPrefix(filters, paths, pfx, n), FirstOn(filters, paths[n]).value;
    EndKeyShape(filters, paths, pfx, 0, n, EncodeValue(f.hi));
    RangeStep(acc, f.lo, f.hi, v, rest);
    TrimAtMost(acc + EncodeValue(f.lo), acc + (EncodeValue(v) + [SEP] + rest));
  }

  /** Bounds only grow. */
  lemma {:induction false} BoundsExtend(filters: seq<Filter>, paths: seq<bytes>, pfx: bytes, n: nat, acc: bytes)
    requires n <= |paths|
    ensures acc <= Bounds(filters, paths, pfx, n, acc).0
    ensures Bounds(filters, paths, pfx, n, acc).1.Some? ==> pfx <= Bounds(filters, paths, pfx, n, acc).1.value
    decreases |paths| - n
  {
    if n < |paths| {
      match FirstOn(filters, paths[n]) {
        case Some(WhereEq(_, v)) =>
          BoundsExtend(filters, paths, pfx, n + 1, acc + EncodeValue(v) + [SEP]);
        case Some(WhereRange(_, lo, hi)) =>
          EndKeyExtends(filters, paths, paths[n], 0, pfx, EncodeValue(hi));
        case _ =>
      }
    }
  }

  lemma {:induction false} EndKeyExtends(filters: seq<Filter>, paths: seq<bytes>, path: bytes, m: nat, acc: bytes,
                                         enc: bytes)
    requires m <= |paths|
    ensures acc <= EndKey(filters, paths, path, m, acc, enc)
    decreases |paths| - m
  {
    if m < |paths| && paths[m] != path {
      match FirstEqOn(filters, paths[m]) {
        case Some(v) => EndKeyExtends(filters, paths, path, m + 1, acc + EncodeValue(v) + [SEP], enc);
        case None => EndKeyExtends(filters, paths, path, m + 1, acc, enc);
      }
    }
  }

  predicate StartsNarrow(filters: seq<Filter>, paths: seq<bytes>) {
    paths != [] && FirstOn(filters, paths[0]).Some? && !FirstOn(filters, paths[0]).value.WhereIn?
  }

  /** With an equality or range on the first field, nothing outside the index is scanned. */
  lemma PlanKeysUnder(e: Engine, filters: seq<Filter>, store: bytes, idx: IndexDef)
    requires StartsNarrow(filters, idx.keyPaths)
    ensures var ks := PlanKeys(e, filters, store, idx);
            forall n :: 0 <= n < |ks| ==> ks[n] in e && IdxPrefix(store, idx.name) <= ks[n]
  {
    var pfx, ks := IdxPrefix(store, idx.name), PlanKeys(e, filters, store, idx);
    var (partial, end) := Bounds(filters, idx.keyPaths, pfx, 0, pfx);
    var f := FirstOn(filters, idx.keyPaths[0]).value;
    BoundsExtend(filters, idx.keyPaths, pfx, 0, pfx);
    assert |partial| > |pfx| by {
      if f.WhereEq? {
        BoundsExtend(filters, idx.keyPaths, pfx, 1, pfx + EncodeValue(f.val) + [SEP]);
      }
    }
    assert pfx <= Trim(partial);
    forall n | 0 <= n < |ks| ensures ks[n] in e && pfx <= ks[n] {
      assert ks[n] in ks;
      PlanKeyUnder(pfx, Trim(partial), end, ks[n]);
    }
  }

  lemma PlanKeyUnder(pfx: bytes, from: bytes, end: Option<bytes>, k: bytes)
    requires pfx != [] && pfx[0] < 255 && pfx <= from && (end.Some? ==> pfx <= end.value)
    requires if end.None? then from <= k else Matches(ToKeyFilter(Included(from), Excluded(end.value)), k)
    ensures pfx <= k
  {
    if end.Some? {
      var s, e := from[|pfx|..], end.value[|pfx|..];
      assert from == pfx + s && end.value == pfx + e;
      RangeFilter(pfx, s, e, k);
      BetweenExtensions(pfx, s, k, e);
    }
  }

  /** Keys within the planned bounds are scanned. */
  lemma PlanKeysReach(e: Engine, filters: seq<Filter>, store: bytes, idx: IndexDef, k: bytes)
    requires StartsNarrow(filters, idx.keyPaths) && k in e
    requires var pfx := IdxPrefix(store, idx.name);
             var b := Bounds(filters, idx.keyPaths, pfx, 0, pfx); WithinPlan(b.0, b.1, k)
    ensures k in PlanKeys(e, filters, store, idx)
  {
    var pfx := IdxPrefix(store, idx.name);
    var (partial, end) := Bounds(filters, idx.keyPaths, pfx, 0, pfx);
    BoundsExtend(filters, idx.keyPaths, pfx, 0, pfx);
    if end.Some? {
      assert pfx <= partial && |pfx| >= 2;
      assert Trim(partial)[0] == pfx[0] < 255;
      FilterKeepsRange(Trim(partial), Excluded(end.value), k);
    }
  }

  // ---------------------------------------------------------------- the plan finds every answer

  predicate OppositeZeros(v: Json, w: Json) {
    IsFloatZero(v) && IsFloatZero(w) && v.bits != w.bits
  }

  /** No equality filter of this query meets the zero of the other sign in the document. */
  predicate ZeroSafe(doc: Json, filters: seq<Filter>) {
    forall i :: 0 <= i < |filters| && filters[i].WhereEq? && Extract(doc, filters[i].field).Some? ==>
      !OppositeZeros(Extract(doc, filters[i].field).value, filters[i].val)
  }

  predicate RangesClean(filters: seq<Filter>) {
    forall i :: 0 <= i < |filters| && filters[i].WhereRange? ==> NulFree(filters[i].hi)
  }

  /** An index scan that starts with an equality or a range on the first field. */
  predicate Plans(filters: seq<Filter>, idx: IndexDef) {
    !idx.multiEntry && StartsNarrow(filters, idx.keyPaths)
  }

  /** The queries an index answers in full: moreover every field of it carries a filter. */
  predicate Answers(filters: seq<Filter>, idx: IndexDef) {
    Plans(filters, idx) && forall i :: 0 <= i < |idx.keyPaths| ==> FirstOn(filters, idx.keyPaths[i]).Some?
  }

  /** The document has every field of the index, hence an entry. */
  predicate HasEntry(doc: Json, idx: IndexDef) {
    forall i :: 0 <= i < |idx.keyPaths| ==> Extract(doc, idx.keyPaths[i]).Some?
  }

  lemma EntryIsRow(doc: Json, idx: IndexDef)
    requires !idx.multiEntry
    ensures HasEntry(doc, idx) <==> Rows(doc, idx) != []
    ensures HasEntry(doc, idx) ==>
              |Rows(doc, idx)| == 1
              && forall i :: 0 <= i < |idx.keyPaths| ==> Rows(doc, idx)[0][i] == Extract(doc, idx.keyPaths[i]).value
  {
    hide Extract;
  }

  lemma MatchedFieldAccepted(doc: Json, filters: seq<Filter>, path: bytes)
    requires AllMatch(doc, filters) && ZeroSafe(doc, filters) && RangesClean(filters)
    requires Extract(doc, path).Some?
    ensures FieldAccepted(filters, path, Extract(doc, path).value)
  {
    if FirstOn(filters, path).Some? {
      var f := FirstOn(filters, path).value;
      var i :| 0 <= i < |filters| && filters[i] == f;
      assert FilterMatches(doc, filters[i]);
      if f.WhereEq? { EqualEncodings(Extract(doc, path).value, f.val); }
    }
  }

  /** A document that passes all filters and has an entry has it inside the planned bounds. */
  lemma AnswerHasKey(store: bytes, idx: IndexDef, filters: seq<Filter>, doc: Json, p: bytes)
    requires Plans(filters, idx) && HasEntry(doc, idx)
    requires AllMatch(doc, filters) && ZeroSafe(doc, filters) && RangesClean(filters)
    requires forall r :: 0 <= r < |Rows(doc, idx)| ==> RowNulFree(Rows(doc, idx)[r])
    ensures |Rows(doc, idx)| == 1
    ensures var pfx := IdxPrefix(store, idx.name);
            var b := Bounds(filters, idx.keyPaths, pfx, 0, pfx);
            WithinPlan(b.0, b.1, IdxKey(store, idx.name, EncodeRow(Rows(doc, idx)[0]), p))
  {
    hide Rows, AllMatch, ZeroSafe, RangesClean, FieldAccepted, WithinPlan, Bounds;
    EntryIsRow(doc, idx);
    var row := Rows(doc, idx)[0];
    forall i | 0 <= i < |row| ensures FieldAccepted(filters, idx.keyPaths[i], row[i]) {
      MatchedFieldAccepted(doc, filters, idx.keyPaths[i]);
    }
    var pfx := IdxPrefix(store, idx.name);
    IdxKeyShape(store, idx.name, row, p);
    assert row[0..] == row;
    BoundsCover(filters, idx.keyPaths, pfx, 0, row, p);
  }

  lemma AnswerIsScanned(db: Db, store: bytes, idx: IndexDef, filters: seq<Filter>, p: bytes) returns (k: bytes)
    requires Consistent(db) && HasIndex(db, store, idx) && Plans(filters, idx) && RangesClean(filters)
    requires Live(db.engine, store, p).Some? && HasEntry(Live(db.engine, store, p).value, idx)
    requires AllMatch(Live(db.engine, store, p).value, filters) && ZeroSafe(Live(db.engine, store, p).value, filters)
    ensures k in PlanKeys(db.engine, filters, store, idx) && k in db.engine && db.engine[k] == Ref(p)
  {
    var doc := Live(db.engine, store, p).value;
    forall r | 0 <= r < |Rows(doc, idx)| ensures RowNulFree(Rows(doc, idx)[r]) { EntryRow(db, store, idx, p, r); }
    AnswerHasKey(store, idx, filters, doc, p);
    k := IdxKey(store, idx.name, EncodeRow(Rows(doc, idx)[0]), p);
    EntryIsKey(db, store, idx, p, 0, k);
    PlanKeysReach(db.engine, filters, store, idx, k);
  }

  /** Every document of the store is safe for the query's equality filters. */
  ghost predicate StoreZeroSafe(e: Engine, store: bytes, filters: seq<Filter>) {
    forall p :: Live(e, store, p).Some? ==> ZeroSafe(Live(e, store, p).value, filters)
  }

  /** The plan reads documents once each, none without an entry, and every one with an entry
      that passes the filters. */
  lemma PlanFetches(db: Db, store: bytes, idx: IndexDef, filters: seq<Filter>) returns (pks: seq<bytes>)
    requires Consistent(db) && HasIndex(db, store, idx) && Plans(filters, idx) && RangesClean(filters)
    requires StoreZeroSafe(db.engine, store, filters)
    ensures var r := Fetch(db.engine, store, PlanKeys(db.engine, filters, store, idx));
            r.Ok? && DocsOf(db.engine, store, pks, r.value)
    ensures forall p :: p in pks ==> Live(db.engine, store, p).Some? && HasEntry(Live(db.engine, store, p).value, idx)
    ensures forall p :: (Live(db.engine, store, p).Some? && HasEntry(Live(db.engine, store, p).value, idx)
                         && AllMatch(Live(db.engine, store, p).value, filters)) ==> p in pks
  {
    hide PlanKeys, AllMatch, ZeroSafe, RangesClean, HasEntry, Entry, Fetch, Consistent;
    var ks := PlanKeys(db.engine, filters, store, idx);
    PlanKeysUnder(db.engine, filters, store, idx);
    SingleRow(db, store, idx, ks);
    FetchDistinct(db, store, idx, ks);
    pks := PksOf(db.engine, ks);
    forall p | p in pks ensures Live(db.engine, store, p).Some? && HasEntry(Live(db.engine, store, p).value, idx) {
      var n :| 0 <= n < |ks| && pks[n] == p;
      FetchedHasEntry(db, store, idx, ks[n]);
    }
    forall p | Live(db.engine, store, p).Some? && HasEntry(Live(db.engine, store, p).value, idx)
      && AllMatch(Live(db.engine, store, p).value, filters)
      ensures p in pks
    {
      var k := AnswerIsScanned(db, store, idx, filters, p);
      var n :| 0 <= n < |ks| && ks[n] == k;
      assert pks[n] == p;
    }
  }

  lemma FetchedHasEntry(db: Db, store: bytes, idx: IndexDef, k: bytes)
    requires Consistent(db) && HasIndex(db, store, idx) && !idx.multiEntry
    requires k in db.engine && IdxPrefix(store, idx.name) <= k && db.engine[k].Ref?
    ensures Live(db.engine, store, db.engine[k].pk).Some?
    ensures HasEntry(Live(db.engine, store, db.engine[k].pk).value, idx)
  {
    var r := KeyIsEntry(db, store, idx, k);
    EntryIsRow(Live(db.engine, store, db.engine[k].pk).value, idx);
  }

  // ---------------------------------------------------------------- full scan

  lemma {:induction false} DocsAtAll(e: Engine, ks: seq<bytes>)
    requires forall n :: 0 <= n < |ks| ==> ks[n] in e && e[ks[n]].Doc?
    ensures DocsAt(e, ks).Ok? && |DocsAt(e, ks).value| == |ks|
    ensures forall n :: 0 <= n < |ks| ==> DocsAt(e, ks).value[n] == e[ks[n]].doc
  {
    if ks != [] {
      var n := |ks| - 1;
      DocsAtAll(e, ks[..n]);
      assert forall m :: 0 <= m < n ==> ks[..n][m] == ks[m];
    }
  }

  function DocPks(store: bytes, ks: seq<bytes>): seq<bytes>
    requires forall n :: 0 <= n < |ks| ==> DocPrefix(store) <= ks[n]
  {
    seq(|ks|, n requires 0 <= n < |ks| => PkOf(store, ks[n]))
  }

  lemma DocPksKeys(store: bytes, ks: seq<bytes>)
    requires Ascending(ks) && forall n :: 0 <= n < |ks| ==> DocPrefix(store) <= ks[n]
    ensures Distinct(DocPks(store, ks))
    ensures forall n :: 0 <= n < |ks| ==> ks[n] == DocKey(store, DocPks(store, ks)[n])
    ensures forall p :: p in DocPks(store, ks) <==> DocKey(store, p) in ks
  {
    var pks := DocPks(store, ks);
    forall n | 0 <= n < |ks| ensures ks[n] == DocKey(store, pks[n]) { DocKeyOfPk(store, ks[n]); }
    forall i, j | 0 <= i < j < |pks| ensures pks[i] != pks[j] {
      if pks[i] == pks[j] { AscendingDistinct(ks, i, j); }
    }
    forall p | DocKey(store, p) in ks ensures p in pks {
      var n :| 0 <= n < |ks| && ks[n] == DocKey(store, p);
      PkOfDocKey(store, p);
      assert pks[n] == p;
    }
    forall p | p in pks ensures DocKey(store, p) in ks {
      var n :| 0 <= n < |ks| && pks[n] == p;
      assert ks[n] in ks;
    }
  }

  /** A full scan reads every live document of the store once. */
  lemma FullScanFetches(db: Db, store: bytes) returns (pks: seq<bytes>)
    requires Consistent(db) && store in db.schema
    ensures FullScan(db.engine, store).Ok? && DocsOf(db.engine, store, pks, FullScan(db.engine, store).value)
    ensures forall p :: p in pks <==> Live(db.engine, store, p).Some?
  {
    hide Consistent, DocKey, DocPrefix, Live;
    var ks := PrefixScan(db.engine, DocPrefix(store));
    forall n | 0 <= n < |ks| ensures ks[n] in db.engine && DocPrefix(store) <= ks[n] { assert ks[n] in ks; }
    DocPksKeys(store, ks);
    pks := DocPks(store, ks);
    forall p ensures p in pks <==> Live(db.engine, store, p).Some? { StoredIsLive(db, store, p); }
    forall n | 0 <= n < |ks| ensures db.engine[ks[n]] == Doc(Live(db.engine, store, pks[n]).value) {
      StoredIsLive(db, store, pks[n]);
    }
    DocsAtAll(db.engine, ks);
  }

  lemma StoredIsLive(db: Db, store: bytes, p: bytes)
    requires Consistent(db) && store in db.schema
    ensures DocPrefix(store) <= DocKey(store, p)
    ensures DocKey(store, p) in db.engine <==> Live(db.engine, store, p).Some?
    ensures DocKey(store, p) in db.engine ==> db.engine[DocKey(store, p)] == Doc(Live(db.engine, store, p).value)
  {}

  lemma OrderIsPreorder(field: bytes, dir: SortDir)
    ensures TotalPreorder(Order(field, dir))
  {
    var le := Order(field, dir);
    forall a, b ensures le(a, b) || le(b, a) { LessTotal(SortKey(a, field), SortKey(b, field)); }
    forall a, b, c | le(a, b) && le(b, c) ensures le(a, c) {
      AtMostTransitive(SortKey(a, field), SortKey(b, field), SortKey(c, field));
      AtMostTransitive(SortKey(c, field), SortKey(b, field), SortKey(a, field));
    }
  }

  // ---------------------------------------------------------------- index order

  lemma EntrySortKey(db: Db, store: bytes, idx: IndexDef, p: bytes, r: nat)
    requires Consistent(db) && HasIndex(db, store, idx) && !idx.multiEntry
    requires Live(db.engine, store, p).Some? && r < |Rows(Live(db.engine, store, p).value, idx)|
    ensures idx.keyPaths != [] && Rows(Live(db.engine, store, p).value, idx)[r] != []
    ensures SortKey(Live(db.engine, store, p).value, idx.keyPaths[0])
            == EncodeValue(Rows(Live(db.engine, store, p).value, idx)[r][0])
  {
    EntryRow(db, store, idx, p, r);
  }

  lemma KeyOrderIsFieldOrder(store: bytes, name: bytes, a: seq<Json>, p: bytes, b: seq<Json>, q: bytes)
    requires |a| == |b| > 0 && RowNulFree(a) && RowNulFree(b)
    requires Less(IdxKey(store, name, EncodeRow(a), p), IdxKey(store, name, EncodeRow(b), q))
    ensures AtMost(EncodeValue(a[0]), EncodeValue(b[0]))
  {
    IdxKeyShape(store, name, a, p);
    IdxKeyShape(store, name, b, q);
    LessCancel(IdxPrefix(store, name), Terminated(a) + p, Terminated(b) + q);
    TerminatedSplit(a, p);
    TerminatedSplit(b, q);
    TerminatedValueOrder(a[0], RowRest(a, p), b[0], RowRest(b, q));
    ValueOrder(a[0], b[0]);
  }

  /** Scanning index keys in order yields documents sorted by the first indexed field. */
  lemma IndexOrder(db: Db, store: bytes, idx: IndexDef, ks: seq<bytes>)
    requires Consistent(db) && HasIndex(db, store, idx) && !idx.multiEntry && Ascending(ks)
    requires forall n :: 0 <= n < |ks| ==> ks[n] in db.engine && IdxPrefix(store, idx.name) <= ks[n]
    ensures idx.keyPaths != [] && Fetch(db.engine, store, ks).Ok?
    ensures SortedBy(Fetch(db.engine, store, ks).value, idx.keyPaths[0], Asc)
  {
    KeysLead(db, store, idx, ks);
    FetchAll(db.engine, store, ks);
    var at := IndexPosition(db.schema, store, idx);
    var docs := Fetch(db.engine, store, ks).value;
    forall i, j | 0 <= i < j < |docs| ensures InOrder(docs[i], docs[j], idx.keyPaths[0], Asc) {
      IndexOrderPair(db, store, idx, ks[i], ks[j]);
    }
  }

  lemma IndexOrderPair(db: Db, store: bytes, idx: IndexDef, k: bytes, l: bytes)
    requires Consistent(db) && HasIndex(db, store, idx) && !idx.multiEntry && idx.keyPaths != []
    requires k in db.engine && IdxPrefix(store, idx.name) <= k
    requires l in db.engine && IdxPrefix(store, idx.name) <= l
    requires Less(k, l)
    ensures db.engine[k].Ref? && Live(db.engine, store, db.engine[k].pk).Some?
    ensures db.engine[l].Ref? && Live(db.engine, store, db.engine[l].pk).Some?
    ensures InOrder(Live(db.engine, store, db.engine[k].pk).value, Live(db.engine, store, db.engine[l].pk).value,
                    idx.keyPaths[0], Asc)
  {
    var r := KeyIsEntry(db, store, idx, k);
    var t := KeyIsEntry(db, store, idx, l);
    var p, q := db.engine[k].pk, db.engine[l].pk;
    EntrySortKey(db, store, idx, p, r);
    EntrySortKey(db, store, idx, q, t);
    EntryRow(db, store, idx, p, r);
    EntryRow(db, store, idx, q, t);
    KeyOrderIsFieldOrder(store, idx.name, Rows(Live(db.engine, store, p).value, idx)[r], p,
                         Rows(Live(db.engine, store, q).value, idx)[t], q);
  }

  // ---------------------------------------------------------------- the theorem

  /** Every document the query asks for has an entry in the index. */
  ghost predicate Covers(e: Engine, store: bytes, filters: seq<Filter>, idx: IndexDef) {
    forall p :: Live(e, store, p).Some? && AllMatch(Live(e, store, p).value, filters) ==>
      HasEntry(Live(e, store, p).value, idx)
  }

  /** Some index is used, and it starts with an equality or a range; or none is. */
  predicate Planned(filters: seq<Filter>, idxs: seq<IndexDef>) {
    Best(filters, idxs).Some? ==> Plans(filters, Best(filters, idxs).value)
  }

  /** The plan returns exactly the documents of the reference, each as often, if and only if
      every document asked for has an entry in the chosen index; and it always returns them
      in the requested order, whether or not the in-memory sort is skipped. */
  lemma PlanExact(db: Db, store: bytes, spec: QuerySpec)
    requires Consistent(db) && store in db.schema && Planned(spec.filters, db.schema[store].indexes)
    requires RangesClean(spec.filters) && StoreZeroSafe(db.engine, store, spec.filters)
    ensures Collect(db, store, spec).Ok? && Reference(db, store, spec).Ok?
    ensures multiset(Collect(db, store, spec).value) == multiset(Reference(db, store, spec).value) <==>
            var best := Best(spec.filters, db.schema[store].indexes);
            best.Some? ==> Covers(db.engine, store, spec.filters, best.value)
    ensures spec.orderField.Some? ==>
              SortedBy(Collect(db, store, spec).value, spec.orderField.value, spec.orderDir)
  {
    hide Fetch, FullScan, Consistent, RangesClean, StoreZeroSafe, PlanKeys, Best, Finish, SortedBy, HasEntry, AllMatch;
    var all := FullScanFetches(db, store);
    var docs := FullScan(db.engine, store).value;
    var read, pass := Reader(db.engine, store), Passing(spec.filters);
    var want := KeepReads(read, all, docs, pass);
    FinishKeeps(docs, spec, None);
    var best := Best(spec.filters, db.schema[store].indexes);
    if best.Some? {
      BestIsBest(spec.filters, db.schema[store].indexes);
      var idx := best.value;
      var ks := PlanKeys(db.engine, spec.filters, store, idx);
      var found := PlanFetches(db, store, idx, spec.filters);
      var docs' := Fetch(db.engine, store, ks).value;
      var got := KeepReads(read, found, docs', pass);
      PlanKeysUnder(db.engine, spec.filters, store, idx);
      IndexOrder(db, store, idx, ks);
      FinishKeeps(docs', spec, best);
      SameOrFewer(read, got, Keep(docs', pass), want, Keep(docs, pass));
      assert (forall p :: p in want ==> p in got) <==> Covers(db.engine, store, spec.filters, idx) by {
        assert forall p :: p in want <==>
          Live(db.engine, store, p).Some? && AllMatch(Live(db.engine, store, p).value, spec.filters);
        assert forall p :: p in got <==> p in found && AllMatch(Live(db.engine, store, p).value, spec.filters);
      }
    }
  }

  /** A listing of some of the same keys has the same values exactly when it has all the keys. */
  lemma SameOrFewer(f: bytes -> Option<Json>, a: seq<bytes>, va: seq<Json>, b: seq<bytes>, vb: seq<Json>)
    requires Reads(f, a, va) && Reads(f, b, vb) && forall p :: p in a ==> p in b
    ensures multiset(va) == multiset(vb) <==> forall p :: p in b ==> p in a
  {
    if forall p :: p in b ==> p in a {
      SameReading(f, a, va, b, vb);
    } else {
      var p :| p in b && p !in a;
      FewerKeys(a, b, p);
      assert |multiset(va)| == |a| && |multiset(vb)| == |b|;
    }
  }

  lemma {:induction false} FewerKeys(a: seq<bytes>, b: seq<bytes>, p: bytes)
    requires Distinct(a) && Distinct(b) && (forall q :: q in a ==> q in b) && p in b && p !in a
    ensures |a| < |b|
    decreases |a|
  {
    if a != [] {
      var n := |a| - 1;
      assert a[n] in b;
      var j :| 0 <= j < |b| && b[j] == a[n];
      forall q ensures q in Drop(b, j) <==> q in b && q != b[j] { DropMembers(b, j, q); }
      DropMembers(b, j, p);
      forall q | q in a[..n] ensures q in Drop(b, j) {
        assert q in a && q != a[n];
      }
      FewerKeys(a[..n], Drop(b, j), p);
    }
  }

  /** With a filter on every field of the index, every document asked for has an entry. */
  lemma FilteredFieldsCover(db: Db, store: bytes, filters: seq<Filter>, idx: IndexDef)
    requires Answers(filters, idx)
    ensures Covers(db.engine, store, filters, idx)
  {
    forall p | Live(db.engine, store, p).Some? && AllMatch(Live(db.engine, store, p).value, filters)
      ensures HasEntry(Live(db.engine, store, p).value, idx)
    {
      var doc := Live(db.engine, store, p).value;
      forall i | 0 <= i < |idx.keyPaths| ensures Extract(doc, idx.keyPaths[i]).Some? {
        var f := FirstOn(filters, idx.keyPaths[i]).value;
        var j :| 0 <= j < |filters| && filters[j] == f;
        assert FilterMatches(doc, filters[j]);
      }
    }
  }

  /** The query plan preserves meaning when every field of the chosen index has a filter. */
  lemma PlanPreservesMeaning(db: Db, store: bytes, spec: QuerySpec)
    requires Consistent(db) && store in db.schema
    requires var b := Best(spec.filters, db.schema[store].indexes); b.Some? ==> Answers(spec.filters, b.value)
    requires RangesClean(spec.filters) && StoreZeroSafe(db.engine, store, spec.filters)
    ensures Collect(db, store, spec).Ok? && Reference(db, store, spec).Ok?
    ensures multiset(Collect(db, store, spec).value) == multiset(Reference(db, store, spec).value)
    ensures spec.orderField.Some? ==>
              SortedBy(Collect(db, store, spec).value, spec.orderField.value, spec.orderDir)
  {
    hide Consistent, Collect, Reference, RangesClean, StoreZeroSafe, SortedBy, Best, Covers;
    var best := Best(spec.filters, db.schema[store].indexes);
    if best.Some? { FilteredFieldsCover(db, store, spec.filters, best.value); }
    PlanExact(db, store, spec);
  }

  /** Sorting, or relying on the index, changes order only. */
  lemma FinishKeeps(docs: seq<Json>, spec: QuerySpec, used: Option<IndexDef>)
    requires used.Some? ==> used.value.keyPaths != [] && SortedBy(docs, used.value.keyPaths[0], Asc)
    ensures Finish(Ok(docs), spec, used).Ok?
    ensures multiset(Finish(Ok(docs), spec, used).value) == multiset(Keep(docs, Passing(spec.filters)))
    ensures spec.orderField.Some? ==> SortedBy(Finish(Ok(docs), spec, used).value, spec.orderField.value, spec.orderDir)
  {
    if spec.orderField.Some? {
      var le, pass := Order(spec.orderField.value, spec.orderDir), Passing(spec.filters);
      OrderIsPreorder(spec.orderField.value, spec.orderDir);
      SortSorts(Keep(docs, pass), le);
      if !NeedsSort(spec, used) { KeepSorted(docs, pass, le); }
    }
  }
}
