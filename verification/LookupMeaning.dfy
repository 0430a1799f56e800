/** What an index lookup answers (`get_by_index` in `src/jsondb/db.rs`), over the fields of the
    documents and the order of values. */
module LookupMeaning {
  import opened Bytes
  import opened Record
  import opened Seqs
  import opened Json
  import opened Encoding
  import opened Keyspace
  import opened Store
  import opened Database
  import opened Lookup
  import opened Query
  import opened QueryMeaning
  import opened Effects

  /** Every field of the index is there, and the leading ones have the given values. */
  predicate LeadingFields(doc: Json, paths: seq<bytes>, values: seq<Json>)
    requires |values| <= |paths|
  {
    && (forall i :: 0 <= i < |paths| ==> Extract(doc, paths[i]).Some?)
    && (forall i :: 0 <= i < |values| ==> SamePlace(Extract(doc, paths[i]).value, values[i]))
  }

  lemma MatchIsSamePlace(q: seq<Json>, row: seq<Json>)
    requires |q| <= |row|
    ensures LeadingMatch(q, row) <==> forall i :: 0 <= i < |q| ==> SamePlace(row[i], q[i])
  {
    hide SamePlace, EncodeValue;
    forall i | 0 <= i < |q| ensures SamePlace(row[i], q[i]) <==> EncodeValue(row[i]) == EncodeValue(q[i]) {
      SamePlaceSameBytes(row[i], q[i]);
    }
  }

  lemma SingleRowMatch(db: Db, store: bytes, idx: IndexDef, q: seq<Json>, p: bytes)
    requires |q| <= |idx.keyPaths| && (!idx.multiEntry || |idx.keyPaths| > 1)
    ensures Matching(db, store, idx, q, p) <==>
            Live(db.engine, store, p).Some? && LeadingFields(Live(db.engine, store, p).value, idx.keyPaths, q)
  {
    hide Live, SamePlace, LeadingMatch, Extract;
    if Live(db.engine, store, p).Some? {
      var doc := Live(db.engine, store, p).value;
      OneRowIs(doc, idx);
      if Rows(doc, idx) != [] {
        MatchIsSamePlace(q, Rows(doc, idx)[0]);
        assert Matching(db, store, idx, q, p) <==> MatchingRow(db, store, idx, q, p, 0);
      }
    }
  }

  /** Without expansion the row is the list of the fields, and there is none when one is missing. */
  lemma OneRowIs(doc: Json, idx: IndexDef)
    requires !idx.multiEntry || |idx.keyPaths| > 1
    ensures Rows(doc, idx) == [] <==> exists i :: 0 <= i < |idx.keyPaths| && Extract(doc, idx.keyPaths[i]).None?
    ensures |Rows(doc, idx)| <= 1
    ensures Rows(doc, idx) != [] ==>
              forall i :: 0 <= i < |idx.keyPaths| ==> Extract(doc, idx.keyPaths[i]) == Some(Rows(doc, idx)[0][i])
  {
    hide Extract;
  }

  /** A composite index asked for an array: the documents that have every field of the index, the
      leading ones with the values of the array; all of them, each once. */
  lemma GetByFields(db: Db, store: bytes, idx: IndexDef, values: seq<Json>, t: text) returns (pks: seq<bytes>)
    requires Consistent(db) && HasIndex(db, store, idx) && |idx.keyPaths| > 1
    requires 0 < |values| <= |idx.keyPaths| && RowNulFree(values)
    ensures GetByIndex(db, store, idx, Arr(values, t)).Ok?
    ensures DocsOf(db.engine, store, pks, GetByIndex(db, store, idx, Arr(values, t)).value)
    ensures forall p :: p in pks <==>
              Live(db.engine, store, p).Some? && LeadingFields(Live(db.engine, store, p).value, idx.keyPaths, values)
  {
    hide Consistent, GetByIndex, Matching, LeadingFields, Live;
    pks := GetByIndexExact(db, store, idx, Arr(values, t));
    forall p { SingleRowMatch(db, store, idx, values, p); }
  }

  /** Asked for anything else, or on one field: the documents whose first field has that value and
      that have the other fields of the index. */
  lemma GetByField(db: Db, store: bytes, idx: IndexDef, value: Json) returns (pks: seq<bytes>)
    requires Consistent(db) && HasIndex(db, store, idx) && NulFree(value)
    requires if |idx.keyPaths| > 1 then !value.Arr? else !idx.multiEntry && idx.keyPaths != []
    ensures GetByIndex(db, store, idx, value).Ok?
    ensures DocsOf(db.engine, store, pks, GetByIndex(db, store, idx, value).value)
    ensures forall p :: p in pks <==>
              Live(db.engine, store, p).Some? && LeadingFields(Live(db.engine, store, p).value, idx.keyPaths, [value])
  {
    hide Consistent, GetByIndex, Matching, LeadingFields, Live;
    pks := GetByIndexExact(db, store, idx, value);
    forall p { SingleRowMatch(db, store, idx, [value], p); }
  }

  /** An element of an array, or the value itself when it is no array. */
  predicate HasElement(field: Json, value: Json) {
    if field.Arr? then exists i :: 0 <= i < |field.items| && SamePlace(field.items[i], value)
    else SamePlace(field, value)
  }

  lemma ElementRows(doc: Json, idx: IndexDef)
    requires idx.multiEntry && |idx.keyPaths| == 1
    ensures var field := Extract(doc, idx.keyPaths[0]);
            if field.None? then Rows(doc, idx) == []
            else if field.value.Arr? then
              |Rows(doc, idx)| == |field.value.items|
              && forall i :: 0 <= i < |field.value.items| ==> Rows(doc, idx)[i] == [field.value.items[i]]
            else Rows(doc, idx) == [[field.value]]
  {
    hide Extract;
    var raw := RawRow(doc, idx.keyPaths);
    if raw.Some? { assert raw.value == [raw.value[0]]; }
  }

  lemma ElementMatch(db: Db, store: bytes, idx: IndexDef, value: Json, p: bytes)
    requires idx.multiEntry && |idx.keyPaths| == 1
    ensures Matching(db, store, idx, [value], p) <==>
            Live(db.engine, store, p).Some?
            && var field := Extract(Live(db.engine, store, p).value, idx.keyPaths[0]);
               field.Some? && HasElement(field.value, value)
  {
    hide Live, SamePlace, LeadingMatch, Extract;
    if Live(db.engine, store, p).Some? {
      var doc := Live(db.engine, store, p).value;
      var rows, field := Rows(doc, idx), Extract(doc, idx.keyPaths[0]);
      ElementRows(doc, idx);
      hide Rows;
      forall r | 0 <= r < |rows| ensures MatchingRow(db, store, idx, [value], p, r) <==> SamePlace(rows[r][0], value) {
        MatchIsSamePlace([value], rows[r]);
      }
      if Matching(db, store, idx, [value], p) {
        var r :| MatchingRow(db, store, idx, [value], p, r);
        assert SamePlace(rows[r][0], value);
        if field.Some? && field.value.Arr? { assert SamePlace(field.value.items[r], value); }
      }
      if field.Some? && HasElement(field.value, value) {
        if field.value.Arr? {
          var i :| 0 <= i < |field.value.items| && SamePlace(field.value.items[i], value);
          assert SamePlace(rows[i][0], value) && MatchingRow(db, store, idx, [value], p, i);
        } else {
          assert MatchingRow(db, store, idx, [value], p, 0);
        }
      }
    }
  }

  /** A multi-entry index on one field: the documents whose field is an array with such an
      element, or that value itself; all of them, each once however many elements match. */
  lemma GetByElement(db: Db, store: bytes, idx: IndexDef, value: Json) returns (pks: seq<bytes>)
    requires Consistent(db) && HasIndex(db, store, idx) && NulFree(value)
    requires idx.multiEntry && |idx.keyPaths| == 1
    ensures GetByIndex(db, store, idx, value).Ok?
    ensures DocsOf(db.engine, store, pks, GetByIndex(db, store, idx, value).value)
    ensures forall p :: p in pks <==>
              Live(db.engine, store, p).Some?
              && var field := Extract(Live(db.engine, store, p).value, idx.keyPaths[0]);
                 field.Some? && HasElement(field.value, value)
  {
    hide Consistent, GetByIndex, Matching, HasElement, Live, Extract;
    pks := GetByIndexExact(db, store, idx, value);
    forall p { ElementMatch(db, store, idx, value, p); }
  }

  // ---------------------------------------------------------------- ranges

  lemma RangeIsBetween(db: Db, store: bytes, idx: IndexDef, start: Json, end: Json, p: bytes)
    requires !idx.multiEntry && idx.keyPaths != []
    ensures InRange(db, store, idx, start, end, p) <==>
            Live(db.engine, store, p).Some? && HasEntry(Live(db.engine, store, p).value, idx)
            && var v := Extract(Live(db.engine, store, p).value, idx.keyPaths[0]).value;
               !ValueBefore(v, start) && ValueBefore(v, end)
  {
    hide Live, Extract, Rows, EncodeValue, ValueBefore, Less;
    if Live(db.engine, store, p).Some? {
      var doc := Live(db.engine, store, p).value;
      EntryIsRow(doc, idx);
      if HasEntry(doc, idx) {
        var v := Extract(doc, idx.keyPaths[0]).value;
        NotBefore(start, v);
        ValueOrder(v, end);
      }
    }
  }

  /** A range lookup: the documents that have every field of the index, the first one not before
      the start and before the end; all of them, each once. */
  lemma GetByRange(db: Db, store: bytes, idx: IndexDef, start: Json, end: Json) returns (pks: seq<bytes>)
    requires Consistent(db) && HasIndex(db, store, idx) && !idx.multiEntry && idx.keyPaths != []
    requires |idx.keyPaths| > 1 ==> !start.Arr? && !end.Arr?
    requires NulFree(start) && NulFree(end)
    ensures RangeByIndex(db, store, idx, start, end).Ok?
    ensures DocsOf(db.engine, store, pks, RangeByIndex(db, store, idx, start, end).value)
    ensures forall p :: p in pks <==>
              Live(db.engine, store, p).Some? && HasEntry(Live(db.engine, store, p).value, idx)
              && var v := Extract(Live(db.engine, store, p).value, idx.keyPaths[0]).value;
                 !ValueBefore(v, start) && ValueBefore(v, end)
  {
    hide Consistent, RangeByIndex, InRange, HasEntry, Live, Extract, ValueBefore;
    pks := RangeByIndexExact(db, store, idx, start, end);
    forall p { RangeIsBetween(db, store, idx, start, end, p); }
  }

  // ---------------------------------------------------------------- unique indexes

  lemma {:induction false} EqualRows(a: seq<Json>, b: seq<Json>)
    requires |a| == |b| > 0 && RowNulFree(a) && RowNulFree(b)
    ensures EncodeRow(a) == EncodeRow(b) <==> forall i :: 0 <= i < |a| ==> EncodeValue(a[i]) == EncodeValue(b[i])
    decreases |a|
  {
    hide EncodeValue, NulFree;
    if EncodeRow(a) == EncodeRow(b) {
      RowCut(a, [], b, []);
      if |a| > 1 {
        TerminatedCons(a);
        TerminatedCons(b);
        PrefixFreeCut(a[0], Terminated(a[1..]), b[0], Terminated(b[1..]));
        RowCut(a[1..], [], b[1..], []);
        EqualRows(a[1..], b[1..]);
        assert forall i :: 1 <= i < |a| ==> a[i] == a[1..][i - 1] && b[i] == b[1..][i - 1];
      }
    }
    if forall i :: 0 <= i < |a| ==> EncodeValue(a[i]) == EncodeValue(b[i]) { FullMatch(a, b); }
  }

  /** Two documents meet in an index without expansion exactly when both have every field of it,
      each with the same value. */
  lemma MeetExactly(idx: IndexDef, d: Json, f: Json)
    requires idx.keyPaths != [] && (!idx.multiEntry || |idx.keyPaths| > 1)
    requires forall r :: 0 <= r < |Rows(d, idx)| ==> RowNulFree(Rows(d, idx)[r])
    requires forall r :: 0 <= r < |Rows(f, idx)| ==> RowNulFree(Rows(f, idx)[r])
    ensures RowsMeet(idx, d, f) <==>
            forall i :: 0 <= i < |idx.keyPaths| ==>
              Extract(d, idx.keyPaths[i]).Some? && Extract(f, idx.keyPaths[i]).Some?
              && SamePlace(Extract(d, idx.keyPaths[i]).value, Extract(f, idx.keyPaths[i]).value)
  {
    hide Extract, SamePlace, EncodeRow, EncodeValue, RowNulFree, Rows, RowsMeet;
    OneRowIs(d, idx);
    OneRowIs(f, idx);
    var a, b := Rows(d, idx), Rows(f, idx);
    SingleRowsMeet(idx, d, f);
    if a != [] && b != [] {
      EqualRows(a[0], b[0]);
      forall i | 0 <= i < |idx.keyPaths|
        ensures SamePlace(Extract(d, idx.keyPaths[i]).value, Extract(f, idx.keyPaths[i]).value) <==>
                EncodeValue(a[0][i]) == EncodeValue(b[0][i])
      {
        SamePlaceSameBytes(a[0][i], b[0][i]);
      }
    }
  }

  lemma SingleRowsMeet(idx: IndexDef, d: Json, f: Json)
    requires |Rows(d, idx)| <= 1 && |Rows(f, idx)| <= 1
    ensures RowsMeet(idx, d, f) <==>
            Rows(d, idx) != [] && Rows(f, idx) != [] && EncodeRow(Rows(d, idx)[0]) == EncodeRow(Rows(f, idx)[0])
  {
    hide Rows, EncodeRow;
  }
}
