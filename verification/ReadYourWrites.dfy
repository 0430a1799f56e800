/** What a transaction reads is what the database would answer after the commit. */
module ReadYourWrites {
  import opened Bytes
  import opened Seqs
  import opened Json
  import opened Encoding
  import opened Keyspace
  import opened Store
  import opened Database
  import opened Committing
  import opened Lookup
  import opened Reading
  import opened Transactions

  /** A transaction over a consistent database that commits into db'. */
  ghost predicate Commits(db: Db, writes: Buffer, db': Db) {
    Consistent(db) && BufferFits(db.schema, writes)
    && exists counters, order :: Enumerates(order, writes) && Database.Commit(db, writes, counters, order) == Ok(db')
  }

  /** Document by document. */
  lemma ViewIsCommitted(db: Db, writes: Buffer, db': Db, store: bytes, p: bytes)
    requires Commits(db, writes, db') && store in db.schema
    ensures View(db.engine, writes, store)(p) == Reader(db'.engine, store)(p)
    ensures Consistent(db') && db'.schema == db.schema
  {
    var counters, order :| Enumerates(order, writes) && Database.Commit(db, writes, counters, order) == Ok(db');
    CommitKeeps(db, writes, counters, order);
  }

  /** `scan` and `count`: any two complete listings hold the same documents, equally often. */
  lemma ScanIsCommitted(db: Db, writes: Buffer, db': Db, store: bytes, a: seq<bytes>, va: seq<Json>, b: seq<bytes>,
                        vb: seq<Json>)
    requires Commits(db, writes, db') && store in db.schema
    requires ListsAll(View(db.engine, writes, store), a, va) && ListsAll(Reader(db'.engine, store), b, vb)
    ensures multiset(va) == multiset(vb) && |va| == |vb|
  {
    hide Commits;
    forall p ensures View(db.engine, writes, store)(p) == Reader(db'.engine, store)(p) {
      ViewIsCommitted(db, writes, db', store, p);
    }
    ListingsAgree(View(db.engine, writes, store), Reader(db'.engine, store), a, va, b, vb);
  }

  /** Single-field `get_by_index`: the same documents as a lookup after the commit. */
  lemma LookUpIsCommitted(db: Db, writes: Buffer, db': Db, store: bytes, idx: IndexDef, value: Json, a: seq<bytes>,
                          va: seq<Json>)
    requires Commits(db, writes, db') && HasIndex(db, store, idx) && SingleField(idx) && NulFree(value)
    requires Reads(View(db.engine, writes, store), a, va)
    requires forall p :: p in a <==> Wanted(db, writes, store, idx.keyPaths[0], value, p)
    ensures GetByIndex(db', store, idx, value).Ok?
    ensures multiset(va) == multiset(GetByIndex(db', store, idx, value).value)
  {
    hide Commits, Consistent, GetByIndex, Matching, FieldEncodes;
    ViewIsCommitted(db, writes, db', store, []);
    SingleFieldMatching(db', store, idx, value, []);
    var b := GetByIndexExact(db', store, idx, value);
    forall p
      ensures View(db.engine, writes, store)(p) == Reader(db'.engine, store)(p)
      ensures p in a <==> p in b
    {
      ViewIsCommitted(db, writes, db', store, p);
      SingleFieldMatching(db', store, idx, value, p);
    }
    ListingsAgree(View(db.engine, writes, store), Reader(db'.engine, store), a, va, b, GetByIndex(db', store, idx,
        value).value);
  }

  // ---------------------------------------------------------------- why NUL is excluded

  /** Without the restriction on NUL bytes two documents can own the same index key: "a" with
      the key null, and "a" followed by NUL with the empty key. */
  lemma NulSharesKey(store: bytes, name: bytes)
    ensures PrimaryKey(Null) == Ok([0]) && PrimaryKey(Str([])) == Ok([])
    ensures IdxKey(store, name, EncodeRow([Str([97])]), [0]) == IdxKey(store, name, EncodeRow([Str([97, 0])]), [])
  {
    var a, b := EncodeRow([Str([97])]), EncodeRow([Str([97, 0])]);
    assert a + [SEP] + [0] == b + [SEP] + [];
    assert IdxPrefix(store, name) + (a + [SEP] + [0]) == IdxPrefix(store, name) + (b + [SEP] + []);
  }
}
