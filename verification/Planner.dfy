/** The loops of the query planner and of `collect` (`src/jsondb/query.rs`). */
module Planner {
  import opened Bytes
  import opened Record
  import opened Seqs
  import opened Json
  import opened Encoding
  import opened Keyspace
  import opened Store
  import opened Lookup
  import opened Query
  import opened JsonDb

  /** `score_index`. */
  method ScoreIndex(filters: seq<Filter>, idx: IndexDef) returns (score: nat)
    ensures score == Score(filters, idx.keyPaths)
  {
    hide FirstOn;
    score := 0;
    while score < |idx.keyPaths|
      invariant score <= |idx.keyPaths| && Score(filters, idx.keyPaths) == score + Score(filters, idx.keyPaths[score..])
    {
      assert idx.keyPaths[score..][1..] == idx.keyPaths[score + 1..];
      if FirstOn(filters, idx.keyPaths[score]).None? {
        break;
      }
      score := score + 1;
    }
  }

  /** `plan_scan`: the first index of the highest positive score. */
  method ChooseIndex(filters: seq<Filter>, idxs: seq<IndexDef>) returns (best: Option<IndexDef>)
    ensures best == Best(filters, idxs)
  {
    hide Score;
    best := None;
    var bar := 0;
    for i := 0 to |idxs|
      invariant best == Best(filters, idxs[..i])
      invariant bar == if best.Some? then Score(filters, best.value.keyPaths) else 0
    {
      assert idxs[..i + 1][..i] == idxs[..i];
      var score := ScoreIndex(filters, idxs[i]);
      if score > bar {
        best, bar := Some(idxs[i]), score;
      }
    }
    assert idxs[..|idxs|] == idxs;
  }

  /** The inner loop of `build_index_scan`. */
  method UpperBound(filters: seq<Filter>, paths: seq<bytes>, pfx: bytes, path: bytes, enc: bytes) returns (end: bytes)
    ensures end == EndKey(filters, paths, path, 0, pfx, enc)
  {
    hide FirstEqOn, EncodeValue;
    end := pfx;
    var m := 0;
    while m < |paths|
      invariant m <= |paths| && EndKey(filters, paths, path, 0, pfx, enc) == EndKey(filters, paths, path, m, end, enc)
    {
      if paths[m] == path {
        return end + enc;
      }
      match FirstEqOn(filters, paths[m]) {
        case Some(v) => end := end + EncodeValue(v) + [SEP];
        case None =>
      }
      m := m + 1;
    }
  }

  /** `build_index_scan`: the trimmed prefix and the upper bound, if there is one. */
  method BuildIndexScan(filters: seq<Filter>, store: bytes, idx: IndexDef) returns (partial: bytes, end: Option<bytes>)
    ensures var pfx := IdxPrefix(store, idx.name);
            var b := Bounds(filters, idx.keyPaths, pfx, 0, pfx);
            partial == Trim(b.0) && end == b.1
  {
    hide FirstOn, EncodeValue, IdxPrefix, EndKey;
    var pfx, paths := IdxPrefix(store, idx.name), idx.keyPaths;
    partial, end := pfx, None;
    var n := 0;
    while n < |paths|
      invariant n <= |paths| && end.None?
      invariant Bounds(filters, paths, pfx, 0, pfx) == Bounds(filters, paths, pfx, n, partial)
    {
      match FirstOn(filters, paths[n]) {
        case Some(WhereEq(_, v)) =>
          partial := partial + EncodeValue(v) + [SEP];
        case Some(WhereRange(_, lo, hi)) =>
          var upper := UpperBound(filters, paths, pfx, paths[n], EncodeValue(hi));
          partial, end := partial + EncodeValue(lo), Some(upper);
          break;
        case _ => break;
      }
      n := n + 1;
    }
    if partial != [] && partial[|partial| - 1] == SEP {
      partial := partial[..|partial| - 1];
    }
  }

  lemma {:induction false} KeepTwice(s: seq<Json>, f: Json -> bool, g: Json -> bool, h: Json -> bool)
    requires forall d :: h(d) <==> f(d) && g(d)
    ensures Keep(Keep(s, f), g) == Keep(s, h)
  {
    if s != [] {
      var n := |s| - 1;
      KeepTwice(s[..n], f, g, h);
      KeepAppend(Keep(s[..n], f), if f(s[n]) then [s[n]] else [], g);
      assert [s[n]][..0] == [];
    }
  }

  function PassesOne(f: Filter): Json -> bool {
    d => FilterMatches(d, f)
  }

  /** One `retain` per filter. */
  method ApplyFilters(docs: seq<Json>, filters: seq<Filter>) returns (kept: seq<Json>)
    ensures kept == Keep(docs, Passing(filters))
  {
    hide FilterMatches, Keep;
    kept := docs;
    KeepEverything(docs, Passing(filters[..0]));
    for i := 0 to |filters|
      invariant kept == Keep(docs, Passing(filters[..i]))
    {
      forall d ensures Passing(filters[..i + 1])(d) <==> Passing(filters[..i])(d) && PassesOne(filters[i])(d) {
        assert filters[..i + 1] == filters[..i] + [filters[i]];
      }
      KeepTwice(docs, Passing(filters[..i]), PassesOne(filters[i]), Passing(filters[..i + 1]));
      kept := Keep(kept, PassesOne(filters[i]));
    }
    assert filters[..|filters|] == filters;
  }

  lemma {:induction false} KeepEverything(s: seq<Json>, f: Json -> bool)
    requires forall d :: f(d)
    ensures Keep(s, f) == s
  {
    if s != [] {
      KeepEverything(s[..|s| - 1], f);
    }
  }

  method ReadDocuments(e: Engine, ks: seq<bytes>) returns (r: Result<seq<Json>>)
    ensures r == DocsAt(e, ks)
  {
    r := Ok([]);
    for n := 0 to |ks|
      invariant r == DocsAt(e, ks[..n])
    {
      assert ks[..n + 1][..n] == ks[..n];
      if r.Ok? {
        if ks[n] in e && e[ks[n]].Doc? {
          r := Ok(r.value + [e[ks[n]].doc]);
        } else {
          r := Err(Corrupted);
        }
      }
    }
    assert ks[..|ks|] == ks;
  }

  /** `collect` without limit and offset. */
  method CollectQuery(db: Db, store: bytes, spec: QuerySpec) returns (r: Result<seq<Json>>)
    ensures r == Collect(db, store, spec)
  {
    hide Best, Fetch, DocsAt, Sort, Keep, Bounds, Trim, IdxPrefix, PrefixScan, ScanKeys;
    if store !in db.schema {
      return Err(StoreNotFound);
    }
    var used := ChooseIndex(spec.filters, db.schema[store].indexes);
    var docs: Result<seq<Json>>;
    if used.Some? {
      var partial, end := BuildIndexScan(spec.filters, store, used.value);
      var ks := if end.Some? then ScanKeys(db.engine, Included(partial), Excluded(end.value))
                else PrefixScan(db.engine, partial);
      docs := FollowRefs(db.engine, store, ks);
    } else {
      docs := ReadDocuments(db.engine, PrefixScan(db.engine, DocPrefix(store)));
    }
    if docs.Err? {
      return Err(docs.error);
    }
    var kept := ApplyFilters(docs.value, spec.filters);
    if NeedsSort(spec, used) {
      kept := Sort(kept, Order(spec.orderField.value, spec.orderDir));
    }
    return Ok(kept);
  }
}
