/** Index lookups (`JsonDB::get_by_index`, `JsonDB::range_by_index`) return exactly the
    documents whose indexed values match, each once. */
module Lookup {
  import opened Bytes
  import opened Record
  import opened Json
  import opened Encoding
  import opened Keyspace
  import opened Store
  import opened Seqs

  // ---------------------------------------------------------------- operations

  predicate Fetchable(e: Engine, store: bytes, k: bytes) {
    k in e && e[k].Ref? && (DocKey(store, e[k].pk) in e ==> e[DocKey(store, e[k].pk)].Doc?)
  }

  /** The loop over scanned entries: follow each reference to its document. */
  function Fetch(e: Engine, store: bytes, ks: seq<bytes>): Result<seq<Json>> {
    if ks == [] then Ok([]) else
    var n := |ks| - 1;
    match Fetch(e, store, ks[..n])
    case Err(x) => Err(x)
    case Ok(docs) =>
      if !Fetchable(e, store, ks[n]) then Err(Corrupted)
      else match Live(e, store, e[ks[n]].pk)
        case Some(d) => Ok(docs + [d])
        case None => Ok(docs)
  }

  /** The values a lookup compares: a composite index accepts an array for several leading
      fields, anything else stands for the first field. */
  function Probe(idx: IndexDef, value: Json): seq<Json> {
    if |idx.keyPaths| > 1 && value.Arr? then value.items else [value]
  }

  function GetByIndex(db: Db, store: bytes, idx: IndexDef, value: Json): Result<seq<Json>> {
    Fetch(db.engine, store,
          PrefixScan(db.engine, IdxValuePrefix(store, idx.name, EncodeRow(Probe(idx, value)))))
  }

  function RangeKeys(e: Engine, store: bytes, idx: IndexDef, start: bytes, end: bytes): (ks: seq<bytes>)
    ensures Ascending(ks)
    ensures forall k :: k in ks <==>
              k in e && Matches(ToKeyFilter(Included(IdxPrefix(store, idx.name) + start),
                                            Excluded(IdxPrefix(store, idx.name) + end)), k)
  {
    ScanKeys(e, Included(IdxPrefix(store, idx.name) + start), Excluded(IdxPrefix(store, idx.name) + end))
  }

  function RangeByIndex(db: Db, store: bytes, idx: IndexDef, start: Json, end: Json): Result<seq<Json>> {
    Fetch(db.engine, store, RangeKeys(db.engine, store, idx,
                                      EncodeRow(Probe(idx, start)), EncodeRow(Probe(idx, end))))
  }

  // ---------------------------------------------------------------- probes against index keys

  predicate LeadingMatch(q: seq<Json>, row: seq<Json>) {
    |q| <= |row| && forall i :: 0 <= i < |q| ==> EncodeValue(q[i]) == EncodeValue(row[i])
  }

  lemma PrefixCancel(p: bytes, x: bytes, y: bytes)
    ensures p + x <= p + y <==> x <= y
  {
    if p + x <= p + y {
      assert x == (p + x)[|p|..] == (p + y)[..|p + x|][|p|..] == y[..|x|];
    }
  }

  /** One step of comparing a coded string with a prefix of another. */
  lemma CodePrefix(v: Json, tail: bytes, w: Json, rest: bytes)
    requires NulFree(v) && NulFree(w)
    ensures EncodeValue(v) + [SEP] + tail <= EncodeValue(w) + [SEP] + rest <==>
            EncodeValue(v) == EncodeValue(w) && tail <= rest
  {
    var a, b := EncodeValue(v) + [SEP], EncodeValue(w) + [SEP];
    if a + tail <= b + rest {
      var x := (b + rest)[|a + tail|..];
      assert a + (tail + x) == (a + tail) + x == b + rest;
      PrefixFreeCut(v, tail + x, w, rest);
    }
    if EncodeValue(v) == EncodeValue(w) { PrefixCancel(a, tail, rest); }
  }

  lemma LeadingMatchCons(q: seq<Json>, row: seq<Json>)
    requires q != [] && row != []
    ensures LeadingMatch(q, row) <==>
            EncodeValue(q[0]) == EncodeValue(row[0]) && LeadingMatch(q[1..], row[1..])
  {
    assert forall i :: 1 <= i < |q| ==> q[i] == q[1..][i - 1];
    assert forall i :: 1 <= i < |row| ==> row[i] == row[1..][i - 1];
  }

  /** A terminated probe is a prefix of an index row exactly when its fields match. */
  lemma {:induction false} ProbeIsPrefix(q: seq<Json>, row: seq<Json>, pk: bytes)
    requires 0 < |q| <= |row| && RowNulFree(q) && RowNulFree(row)
    ensures Terminated(q) <= Terminated(row) + pk <==> LeadingMatch(q, row)
  {
    TerminatedSplit(row, pk);
    TerminatedSplit(q, []);
    assert Terminated(q) + [] == Terminated(q);
    CodePrefix(q[0], RowRest(q, []), row[0], RowRest(row, pk));
    if |q| > 1 {
      assert RowRest(q, []) == Terminated(q[1..]);
      ProbeIsPrefix(q[1..], row[1..], pk);
    }
    LeadingMatchCons(q, row);
  }

  /** Nothing lies strictly between a string and the string followed by a zero byte. */
  lemma {:induction false} NothingBetween(x: bytes, s: bytes)
    ensures Less(x, s + [SEP]) <==> AtMost(x, s)
  {
    if x == [] {
    } else if s == [] {
      assert s + [SEP] == [SEP];
    } else {
      assert (s + [SEP])[1..] == s[1..] + [SEP];
      NothingBetween(x[1..], s[1..]);
      HeadTail(x, s);
    }
  }

  /** A bound compares with a whole index key as it compares with the key's first field; in
      particular no index key equals a bound, so an end that turns inclusive inside the
      engine gains nothing. */
  lemma BoundMeansField(v: Json, a: Json, x: bytes)
    requires NulFree(v) && NulFree(a)
    ensures EncodeValue(a) + [SEP] + x != EncodeValue(v)
    ensures Less(EncodeValue(a) + [SEP] + x, EncodeValue(v)) <==> Less(EncodeValue(a), EncodeValue(v))
    ensures AtMost(EncodeValue(v), EncodeValue(a) + [SEP] + x) <==> AtMost(EncodeValue(v), EncodeValue(a))
  {
    var k, b := EncodeValue(a) + [SEP] + x, EncodeValue(v);
    assert k != b by {
      if k == b {
        assert EncodeValue(a) + [SEP] <= k <= b + [SEP];
        PrefixFree(a, v);
      }
    }
    NothingBetween(k, b);
    TerminatedValueOrder(a, x, v, []);
    assert b + [SEP] + [] == b + [SEP];
    ValueOrder(a, v);
    if EncodeValue(a) == b {
      LessIrreflexive(b);
      assert !Less(x, []);
    }
    Trichotomy(k, b);
    Trichotomy(EncodeValue(a), b);
  }

  // ---------------------------------------------------------------- keys of one index

  predicate HasIndex(db: Db, store: bytes, idx: IndexDef) {
    store in db.schema && idx in db.schema[store].indexes
  }

  /** Row r of document p sits at key k of this index. */
  ghost predicate Entry(db: Db, store: bytes, idx: IndexDef, p: bytes, r: int, k: bytes) {
    Live(db.engine, store, p).Some?
    && 0 <= r < |Rows(Live(db.engine, store, p).value, idx)|
    && k == IdxKey(store, idx.name, EncodeRow(Rows(Live(db.engine, store, p).value, idx)[r]), p)
  }

  lemma OwnerOf(db: Db, k: bytes) returns (s: bytes, p: bytes)
    requires Consistent(db) && k in db.engine && HasTag(k, IDX_PREFIX)
    ensures Owns(db, s, p, k) && db.engine[k] == Ref(p)
    ensures ValidDef(db.schema[s]) && db.schema[s].name == s
  {
    s, p :| Owns(db, s, p, k);
  }

  /** The index prefix of a row key tells store and index name. */
  lemma RowKeyUnder(s: bytes, i: IndexDef, row: seq<Json>, p: bytes, store: bytes, name: bytes)
    requires ValidName(s) && ValidName(i.name) && ValidName(store) && ValidName(name) && row != []
    requires IdxPrefix(store, name) <= IdxKey(s, i.name, EncodeRow(row), p)
    ensures s == store && i.name == name
  {
    var k, pfx := IdxKey(s, i.name, EncodeRow(row), p), IdxPrefix(store, name);
    IdxKeyShape(s, i.name, row, p);
    IdxPrefixInjective(s, i.name, Terminated(row) + p, store, name, k[|pfx|..]);
  }

  /** Every key under an index prefix is an entry of that index. */
  lemma KeyIsEntry(db: Db, store: bytes, idx: IndexDef, k: bytes) returns (r: nat)
    requires Consistent(db) && HasIndex(db, store, idx)
    requires k in db.engine && IdxPrefix(store, idx.name) <= k
    ensures db.engine[k].Ref? && Entry(db, store, idx, db.engine[k].pk, r, k)
  {
    var s, p := OwnerOf(db, k);
    var j := IndexPosition(db.schema, store, idx);
    r := OwnedUnder(db.schema[s], p, Live(db.engine, s, p).value, k, db.schema[store], j);
  }

  lemma IndexPosition(sch: Schema, store: bytes, idx: IndexDef) returns (j: nat)
    requires ValidSchema(sch) && store in sch && idx in sch[store].indexes
    ensures j < |sch[store].indexes| && sch[store].indexes[j] == idx
    ensures ValidDef(sch[store]) && sch[store].name == store && ValidIndex(idx)
  {
    j :| 0 <= j < |sch[store].indexes| && sch[store].indexes[j] == idx;
  }

  lemma OwnedUnder(def: StoreDef, p: bytes, doc: Json, k: bytes, home: StoreDef, j: nat) returns (r: nat)
    requires ValidDef(def) && ValidDef(home) && j < |home.indexes|
    requires def.name == home.name ==> def == home
    requires k in KeysOf(def.name, def.indexes, p, doc)
    requires IdxPrefix(home.name, home.indexes[j].name) <= k
    ensures def == home && IsRowKey(home.name, home.indexes, p, doc, k, j, r)
  {
    KeysOfMember(def.name, def.indexes, p, doc, k);
    var i, l :| IsRowKey(def.name, def.indexes, p, doc, k, i, l);
    assert ValidIndex(def.indexes[i]) && ValidIndex(home.indexes[j]);
    RowKeyUnder(def.name, def.indexes[i], Rows(doc, def.indexes[i])[l], p, home.name, home.indexes[j].name);
    assert i == j;
    r := l;
  }

  /** Every row of every live document has its entry. */
  lemma EntryIsKey(db: Db, store: bytes, idx: IndexDef, p: bytes, r: nat, k: bytes)
    requires Consistent(db) && HasIndex(db, store, idx) && Entry(db, store, idx, p, r, k)
    ensures k in db.engine && db.engine[k] == Ref(p)
  {
    var def, doc := db.schema[store], Live(db.engine, store, p).value;
    var i := IndexPosition(db.schema, store, idx);
    assert IsRowKey(store, def.indexes, p, doc, k, i, r);
    KeysOfMember(store, def.indexes, p, doc, k);
    assert Owns(db, store, p, k);
  }

  lemma EntryRow(db: Db, store: bytes, idx: IndexDef, p: bytes, r: nat)
    requires Consistent(db) && HasIndex(db, store, idx)
    requires Live(db.engine, store, p).Some? && r < |Rows(Live(db.engine, store, p).value, idx)|
    ensures RowNulFree(Rows(Live(db.engine, store, p).value, idx)[r])
    ensures |Rows(Live(db.engine, store, p).value, idx)[r]| == |idx.keyPaths| > 0
  {
    assert DocKey(store, p) in db.engine;
    var def := db.schema[store];
    assert Fits(def, p, Live(db.engine, store, p).value);
    var i := IndexPosition(db.schema, store, idx);
  }

  // ---------------------------------------------------------------- results

  /** Reading documents by primary key. */
  function Reader(e: Engine, store: bytes): bytes -> Option<Json> {
    p => Live(e, store, p)
  }

  /** The documents are those of a duplicate-free list of primary keys. */
  ghost predicate DocsOf(e: Engine, store: bytes, pks: seq<bytes>, docs: seq<Json>) {
    Reads(Reader(e, store), pks, docs)
  }

  function PksOf(e: Engine, ks: seq<bytes>): seq<bytes>
    requires forall n :: 0 <= n < |ks| ==> ks[n] in e && e[ks[n]].Ref?
  {
    seq(|ks|, n requires 0 <= n < |ks| => e[ks[n]].pk)
  }

  /** The scanned key leads to a document. */
  predicate Leads(e: Engine, store: bytes, k: bytes) {
    Fetchable(e, store, k) && Live(e, store, e[k].pk).Some?
  }

  lemma {:induction false} FetchAll(e: Engine, store: bytes, ks: seq<bytes>)
    requires forall n :: 0 <= n < |ks| ==> Leads(e, store, ks[n])
    ensures Fetch(e, store, ks).Ok? && |Fetch(e, store, ks).value| == |ks|
    ensures forall n :: 0 <= n < |ks| ==> ks[n] in e && e[ks[n]].Ref?
    ensures forall n :: 0 <= n < |ks| ==> Live(e, store, e[ks[n]].pk) == Some(Fetch(e, store, ks).value[n])
  {
    if ks != [] {
      var n := |ks| - 1;
      FetchAll(e, store, ks[..n]);
      assert Leads(e, store, ks[n]);
      assert forall m :: 0 <= m < n ==> ks[..n][m] == ks[m];
    }
  }

  lemma KeysLead(db: Db, store: bytes, idx: IndexDef, ks: seq<bytes>)
    requires Consistent(db) && HasIndex(db, store, idx)
    requires forall n :: 0 <= n < |ks| ==> ks[n] in db.engine && IdxPrefix(store, idx.name) <= ks[n]
    ensures forall n :: 0 <= n < |ks| ==> Leads(db.engine, store, ks[n])
  {
    forall n | 0 <= n < |ks| ensures Leads(db.engine, store, ks[n]) {
      var r := KeyIsEntry(db, store, idx, ks[n]);
    }
  }

  /** No document has two entries among these keys. */
  ghost predicate OneEntryEach(db: Db, store: bytes, idx: IndexDef, ks: seq<bytes>) {
    forall a, b, p, r, l ::
      a in ks && b in ks && Entry(db, store, idx, p, r, a) && Entry(db, store, idx, p, l, b) ==> a == b
  }

  /** Scanned entries of distinct documents give a duplicate-free result. */
  lemma FetchDistinct(db: Db, store: bytes, idx: IndexDef, ks: seq<bytes>)
    requires Consistent(db) && HasIndex(db, store, idx) && Ascending(ks)
    requires forall n :: 0 <= n < |ks| ==> ks[n] in db.engine && IdxPrefix(store, idx.name) <= ks[n]
    requires OneEntryEach(db, store, idx, ks)
    ensures forall n :: 0 <= n < |ks| ==> ks[n] in db.engine && db.engine[ks[n]].Ref?
    ensures Fetch(db.engine, store, ks).Ok?
    ensures DocsOf(db.engine, store, PksOf(db.engine, ks), Fetch(db.engine, store, ks).value)
  {
    KeysLead(db, store, idx, ks);
    FetchAll(db.engine, store, ks);
    var pks := PksOf(db.engine, ks);
    forall i, j | 0 <= i < j < |pks| ensures pks[i] != pks[j] {
      if pks[i] == pks[j] {
        var r := KeyIsEntry(db, store, idx, ks[i]);
        var l := KeyIsEntry(db, store, idx, ks[j]);
        assert ks[i] in ks && ks[j] in ks;
        AscendingDistinct(ks, i, j);
      }
    }
  }

  /** Without multi-entry expansion a document has at most one row. */
  lemma SingleRow(db: Db, store: bytes, idx: IndexDef, ks: seq<bytes>)
    requires !idx.multiEntry
    ensures OneEntryEach(db, store, idx, ks)
  {}

  /** A live document one of whose rows starts with the probe. */
  ghost predicate Matching(db: Db, store: bytes, idx: IndexDef, q: seq<Json>, p: bytes) {
    exists r :: MatchingRow(db, store, idx, q, p, r)
  }

  ghost predicate MatchingRow(db: Db, store: bytes, idx: IndexDef, q: seq<Json>, p: bytes, r: int) {
    Live(db.engine, store, p).Some?
    && 0 <= r < |Rows(Live(db.engine, store, p).value, idx)|
    && LeadingMatch(q, Rows(Live(db.engine, store, p).value, idx)[r])
  }

  lemma ProbeUnderKey(store: bytes, name: bytes, q: seq<Json>, row: seq<Json>, p: bytes)
    requires 0 < |q| <= |row| && RowNulFree(q) && RowNulFree(row)
    ensures IdxValuePrefix(store, name, EncodeRow(q)) <= IdxKey(store, name, EncodeRow(row), p)
            <==> LeadingMatch(q, row)
  {
    var pfx := IdxPrefix(store, name);
    IdxKeyShape(store, name, row, p);
    assert IdxValuePrefix(store, name, EncodeRow(q)) == pfx + Terminated(q);
    PrefixCancel(pfx, Terminated(q), Terminated(row) + p);
    ProbeIsPrefix(q, row, p);
  }

  lemma EntryUnderProbe(db: Db, store: bytes, idx: IndexDef, q: seq<Json>, p: bytes, r: nat, k: bytes)
    requires Consistent(db) && HasIndex(db, store, idx) && Entry(db, store, idx, p, r, k)
    requires 0 < |q| <= |idx.keyPaths| && RowNulFree(q)
    ensures IdxValuePrefix(store, idx.name, EncodeRow(q)) <= k <==> MatchingRow(db, store, idx, q, p, r)
  {
    EntryRow(db, store, idx, p, r);
    ProbeUnderKey(store, idx.name, q, Rows(Live(db.engine, store, p).value, idx)[r], p);
  }

  /** One document has at most one entry under a probe. */
  lemma OneEntryPerProbe(db: Db, store: bytes, idx: IndexDef, q: seq<Json>, p: bytes, r: nat, a: bytes, l: nat,
                         b: bytes)
    requires Consistent(db) && HasIndex(db, store, idx)
    requires 0 < |q| <= |idx.keyPaths| && RowNulFree(q)
    requires Entry(db, store, idx, p, r, a) && Entry(db, store, idx, p, l, b)
    requires IdxValuePrefix(store, idx.name, EncodeRow(q)) <= a
    requires IdxValuePrefix(store, idx.name, EncodeRow(q)) <= b
    ensures a == b
  {
    EntryUnderProbe(db, store, idx, q, p, r, a);
    EntryUnderProbe(db, store, idx, q, p, l, b);
    SameProbeSameRow(Live(db.engine, store, p).value, idx, q, r, l);
  }

  lemma SameProbeSameRow(doc: Json, idx: IndexDef, q: seq<Json>, r: nat, l: nat)
    requires r < |Rows(doc, idx)| && l < |Rows(doc, idx)| && q != []
    requires LeadingMatch(q, Rows(doc, idx)[r]) && LeadingMatch(q, Rows(doc, idx)[l])
    ensures EncodeRow(Rows(doc, idx)[r]) == EncodeRow(Rows(doc, idx)[l])
  {
    var rows := Rows(doc, idx);
    if |rows| > 1 {
      assert |rows[r]| == 1 && |rows[l]| == 1;
      assert EncodeValue(rows[r][0]) == EncodeValue(q[0]) == EncodeValue(rows[l][0]);
    }
  }

  /** Exact lookup is exact: in a consistent state `get_by_index` returns the documents whose
      indexed fields encode like the probe's, all of them, each once. */
  lemma GetByIndexExact(db: Db, store: bytes, idx: IndexDef, value: Json) returns (pks: seq<bytes>)
    requires Consistent(db) && HasIndex(db, store, idx)
    requires 0 < |Probe(idx, value)| <= |idx.keyPaths| && RowNulFree(Probe(idx, value))
    ensures GetByIndex(db, store, idx, value).Ok?
    ensures DocsOf(db.engine, store, pks, GetByIndex(db, store, idx, value).value)
    ensures forall p :: p in pks <==> Matching(db, store, idx, Probe(idx, value), p)
    ensures var ks := PrefixScan(db.engine, IdxValuePrefix(store, idx.name, EncodeRow(Probe(idx, value))));
            |pks| == |ks| && forall n :: 0 <= n < |ks| ==> ks[n] in db.engine && db.engine[ks[n]] == Ref(pks[n])
  {
    hide Consistent, Entry, Fetch, Matching, PrefixScan, IdxPrefix, IdxValuePrefix;
    var q := Probe(idx, value);
    var ks := PrefixScan(db.engine, IdxValuePrefix(store, idx.name, EncodeRow(q)));
    ProbeKeys(db, store, idx, q, ks);
    FetchDistinct(db, store, idx, ks);
    pks := PksOf(db.engine, ks);
    forall p | p in pks ensures Matching(db, store, idx, q, p) {
      var n :| 0 <= n < |ks| && pks[n] == p;
      assert ks[n] in ks;
      ProbeHit(db, store, idx, q, ks[n]);
    }
    forall p | Matching(db, store, idx, q, p) ensures p in pks {
      var k := ProbeMissesNone(db, store, idx, q, p);
      var n :| 0 <= n < |ks| && ks[n] == k;
      assert pks[n] == p;
    }
  }

  lemma ProbeKeys(db: Db, store: bytes, idx: IndexDef, q: seq<Json>, ks: seq<bytes>)
    requires Consistent(db) && HasIndex(db, store, idx) && 0 < |q| <= |idx.keyPaths| && RowNulFree(q)
    requires ks == PrefixScan(db.engine, IdxValuePrefix(store, idx.name, EncodeRow(q)))
    ensures forall n :: 0 <= n < |ks| ==> ks[n] in db.engine && IdxPrefix(store, idx.name) <= ks[n]
    ensures OneEntryEach(db, store, idx, ks)
  {
    hide Consistent, Entry;
    var vp := IdxValuePrefix(store, idx.name, EncodeRow(q));
    forall n | 0 <= n < |ks| ensures ks[n] in db.engine && IdxPrefix(store, idx.name) <= ks[n] {
      assert ks[n] in ks && IdxPrefix(store, idx.name) <= vp;
    }
    forall a, b, p, r, l | a in ks && b in ks && Entry(db, store, idx, p, r, a) && Entry(db, store, idx, p, l, b)
      ensures a == b
    {
      EntryRowBound(db, store, idx, p, r, a);
      EntryRowBound(db, store, idx, p, l, b);
      OneEntryPerProbe(db, store, idx, q, p, r, a, l, b);
    }
  }

  lemma EntryRowBound(db: Db, store: bytes, idx: IndexDef, p: bytes, r: int, k: bytes)
    requires Entry(db, store, idx, p, r, k)
    ensures 0 <= r
  {}

  lemma ProbeHit(db: Db, store: bytes, idx: IndexDef, q: seq<Json>, k: bytes)
    requires Consistent(db) && HasIndex(db, store, idx) && 0 < |q| <= |idx.keyPaths| && RowNulFree(q)
    requires k in db.engine && IdxValuePrefix(store, idx.name, EncodeRow(q)) <= k
    ensures db.engine[k].Ref? && Matching(db, store, idx, q, db.engine[k].pk)
  {
    assert IdxPrefix(store, idx.name) <= IdxValuePrefix(store, idx.name, EncodeRow(q));
    hide Consistent, Entry, MatchingRow, IdxPrefix, IdxValuePrefix;
    var r := KeyIsEntry(db, store, idx, k);
    EntryUnderProbe(db, store, idx, q, db.engine[k].pk, r, k);
  }

  lemma ProbeMissesNone(db: Db, store: bytes, idx: IndexDef, q: seq<Json>, p: bytes) returns (k: bytes)
    requires Consistent(db) && HasIndex(db, store, idx) && 0 < |q| <= |idx.keyPaths| && RowNulFree(q)
    requires Matching(db, store, idx, q, p)
    ensures k in db.engine && db.engine[k] == Ref(p) && IdxValuePrefix(store, idx.name, EncodeRow(q)) <= k
  {
    hide Consistent, IdxPrefix, IdxValuePrefix;
    var r :| MatchingRow(db, store, idx, q, p, r);
    k := IdxKey(store, idx.name, EncodeRow(Rows(Live(db.engine, store, p).value, idx)[r]), p);
    EntryIsKey(db, store, idx, p, r, k);
    EntryUnderProbe(db, store, idx, q, p, r, k);
  }

  // ---------------------------------------------------------------- ranges

  /** Keys between two extensions of a prefix extend it too. */
  lemma {:induction false} BetweenExtensions(p: bytes, a: bytes, k: bytes, b: bytes)
    requires AtMost(p + a, k) && AtMost(k, p + b)
    ensures p <= k
  {
    if p != [] {
      assert (p + a)[1..] == p[1..] + a && (p + b)[1..] == p[1..] + b;
      if k == [] { LessIrreflexive(k); assert false; }
      HeadTail(p + a, k);
      HeadTail(k, p + b);
      BetweenExtensions(p[1..], a, k[1..], b);
      HeadTail(p, k);
    }
  }

  ghost predicate InRange(db: Db, store: bytes, idx: IndexDef, start: Json, end: Json, p: bytes) {
    Live(db.engine, store, p).Some?
    && |Rows(Live(db.engine, store, p).value, idx)| == 1
    && var v := Rows(Live(db.engine, store, p).value, idx)[0];
       v != [] && AtMost(EncodeValue(start), EncodeValue(v[0])) && Less(EncodeValue(v[0]), EncodeValue(end))
  }

  /** What the engine's filter does with bounds under one index prefix. */
  lemma RangeFilter(pfx: bytes, s: bytes, e: bytes, k: bytes)
    requires pfx != [] && pfx[0] < 255
    ensures Matches(ToKeyFilter(Included(pfx + s), Excluded(pfx + e)), k) ==>
              AtMost(pfx + s, k) && AtMost(k, pfx + e)
    ensures AtMost(pfx + s, k) && Less(k, pfx + e) ==>
              Matches(ToKeyFilter(Included(pfx + s), Excluded(pfx + e)), k)
  {
    assert (pfx + s)[0] < 255;
    FilterKeepsRange(pfx + s, Excluded(pfx + e), k);
  }

  /** The engine's filter between two bounds, on a key of the index. */
  lemma KeyInRange(pfx: bytes, start: Json, end: Json, a: Json, x: bytes)
    requires pfx != [] && pfx[0] < 255 && NulFree(start) && NulFree(end) && NulFree(a)
    ensures Matches(ToKeyFilter(Included(pfx + EncodeValue(start)), Excluded(pfx + EncodeValue(end))),
                    pfx + (EncodeValue(a) + [SEP] + x))
            <==> AtMost(EncodeValue(start), EncodeValue(a)) && Less(EncodeValue(a), EncodeValue(end))
  {
    var t := EncodeValue(a) + [SEP] + x;
    BoundMeansField(start, a, x);
    BoundMeansField(end, a, x);
    RangeFilter(pfx, EncodeValue(start), EncodeValue(end), pfx + t);
    AtMostCancel(pfx, EncodeValue(start), t);
    AtMostCancel(pfx, t, EncodeValue(end));
    LessCancel(pfx, t, EncodeValue(end));
  }

  lemma AtMostCancel(p: bytes, a: bytes, b: bytes)
    ensures AtMost(p + a, p + b) <==> AtMost(a, b)
  {
    LessCancel(p, a, b);
    assert (p + a)[|p|..] == a && (p + b)[|p|..] == b;
  }

  lemma RowInRange(store: bytes, name: bytes, start: Json, end: Json, row: seq<Json>, p: bytes)
    requires row != [] && RowNulFree(row) && NulFree(start) && NulFree(end)
    ensures Matches(ToKeyFilter(Included(IdxPrefix(store, name) + EncodeValue(start)),
                                Excluded(IdxPrefix(store, name) + EncodeValue(end))),
                    IdxKey(store, name, EncodeRow(row), p))
            <==> AtMost(EncodeValue(start), EncodeValue(row[0])) && Less(EncodeValue(row[0]), EncodeValue(end))
  {
    IdxKeyShape(store, name, row, p);
    TerminatedSplit(row, p);
    KeyInRange(IdxPrefix(store, name), start, end, row[0], RowRest(row, p));
  }

  lemma EntryInRange(db: Db, store: bytes, idx: IndexDef, start: Json, end: Json, p: bytes, k: bytes)
    requires Consistent(db) && HasIndex(db, store, idx) && !idx.multiEntry
    requires Entry(db, store, idx, p, 0, k) && NulFree(start) && NulFree(end)
    ensures k in RangeKeys(db.engine, store, idx, EncodeValue(start), EncodeValue(end))
            <==> InRange(db, store, idx, start, end, p)
  {
    EntryRow(db, store, idx, p, 0);
    EntryIsKey(db, store, idx, p, 0, k);
    RowInRange(store, idx.name, start, end, Rows(Live(db.engine, store, p).value, idx)[0], p);
  }

  /** Everything the range scan returns lies under the index prefix. */
  lemma RangeKeysUnder(e: Engine, store: bytes, idx: IndexDef, start: bytes, end: bytes)
    ensures var ks := RangeKeys(e, store, idx, start, end);
            forall n :: 0 <= n < |ks| ==> ks[n] in e && IdxPrefix(store, idx.name) <= ks[n]
  {
    var ks, pfx := RangeKeys(e, store, idx, start, end), IdxPrefix(store, idx.name);
    forall n | 0 <= n < |ks| ensures ks[n] in e && pfx <= ks[n] {
      assert ks[n] in ks;
      RangeFilter(pfx, start, end, ks[n]);
      BetweenExtensions(pfx, start, ks[n], end);
    }
  }

  lemma RangeHit(db: Db, store: bytes, idx: IndexDef, start: Json, end: Json, k: bytes)
    requires Consistent(db) && HasIndex(db, store, idx) && !idx.multiEntry && NulFree(start) && NulFree(end)
    requires k in RangeKeys(db.engine, store, idx, EncodeValue(start), EncodeValue(end))
    requires IdxPrefix(store, idx.name) <= k
    ensures db.engine[k].Ref? && InRange(db, store, idx, start, end, db.engine[k].pk)
  {
    hide Consistent, Matches, InRange;
    var r := KeyIsEntry(db, store, idx, k);
    FirstEntry(db, store, idx, db.engine[k].pk, r, k);
    EntryInRange(db, store, idx, start, end, db.engine[k].pk, k);
  }

  /** Without multi-entry expansion an entry is that of the only row. */
  lemma FirstEntry(db: Db, store: bytes, idx: IndexDef, p: bytes, r: nat, k: bytes)
    requires !idx.multiEntry && Entry(db, store, idx, p, r, k)
    ensures r == 0
  {}

  lemma RangeMissesNone(db: Db, store: bytes, idx: IndexDef, start: Json, end: Json, p: bytes) returns (k: bytes)
    requires Consistent(db) && HasIndex(db, store, idx) && !idx.multiEntry && NulFree(start) && NulFree(end)
    requires InRange(db, store, idx, start, end, p)
    ensures k in RangeKeys(db.engine, store, idx, EncodeValue(start), EncodeValue(end)) && db.engine[k] == Ref(p)
  {
    k := IdxKey(store, idx.name, EncodeRow(Rows(Live(db.engine, store, p).value, idx)[0]), p);
    EntryInRange(db, store, idx, start, end, p, k);
    EntryIsKey(db, store, idx, p, 0, k);
  }

  /** Range lookup is exact: the documents whose first indexed field encodes into
      [start, end), all of them, each once, although the engine's own filter includes the end. */
  lemma RangeByIndexExact(db: Db, store: bytes, idx: IndexDef, start: Json, end: Json) returns (pks: seq<bytes>)
    requires Consistent(db) && HasIndex(db, store, idx) && !idx.multiEntry
    requires Probe(idx, start) == [start] && Probe(idx, end) == [end]
    requires NulFree(start) && NulFree(end)
    ensures RangeByIndex(db, store, idx, start, end).Ok?
    ensures DocsOf(db.engine, store, pks, RangeByIndex(db, store, idx, start, end).value)
    ensures forall p :: p in pks <==> InRange(db, store, idx, start, end, p)
  {
    hide Consistent, Fetch, InRange, RangeKeys, IdxPrefix;
    var ks := RangeKeys(db.engine, store, idx, EncodeValue(start), EncodeValue(end));
    RangeKeysUnder(db.engine, store, idx, EncodeValue(start), EncodeValue(end));
    SingleRow(db, store, idx, ks);
    FetchDistinct(db, store, idx, ks);
    pks := PksOf(db.engine, ks);
    forall p | p in pks ensures InRange(db, store, idx, start, end, p) {
      var n :| 0 <= n < |ks| && pks[n] == p;
      assert ks[n] in ks;
      RangeHit(db, store, idx, start, end, ks[n]);
    }
    forall p | InRange(db, store, idx, start, end, p) ensures p in pks {
      var k := RangeMissesNone(db, store, idx, start, end, p);
      var n :| 0 <= n < |ks| && ks[n] == k;
      assert pks[n] == p;
    }
  }
}
