/** Reading whole stores, directly and through a transaction's write buffer. */
module Reading {
  import opened Bytes
  import opened Record
  import opened Seqs
  import opened Json
  import opened Keyspace
  import opened Store
  import opened Database
  import opened Committing

  /** What a transaction's reader should see under each primary key. */
  function View(e: Engine, writes: Buffer, store: bytes): bytes -> Option<Json> {
    p => Overlay(e, writes, store, p)
  }

  /** All documents, each once. */
  ghost predicate ListsAll(f: bytes -> Option<Json>, pks: seq<bytes>, docs: seq<Json>) {
    Reads(f, pks, docs) && forall p :: p in pks <==> f(p).Some?
  }

  /** Two listings of the same documents are equal up to order. */
  lemma ListingsAgree(f: bytes -> Option<Json>, g: bytes -> Option<Json>, a: seq<bytes>, va: seq<Json>, b: seq<bytes>,
                      vb: seq<Json>)
    requires forall p :: f(p) == g(p)
    requires Reads(f, a, va) && Reads(g, b, vb) && forall p :: p in a <==> p in b
    ensures multiset(va) == multiset(vb) && |va| == |vb|
  {
    SameReading(f, a, va, b, vb);
  }

  lemma ReadsSnoc<K(!new), V>(f: K -> Option<V>, ks: seq<K>, vs: seq<V>, k: K)
    requires Reads(f, ks, vs) && k !in ks && f(k).Some?
    ensures Reads(f, ks + [k], vs + [f(k).value])
  {}

  // ---------------------------------------------------------------- document keys

  /** The primary keys that a walk over the first n scanned keys has met. */
  ghost predicate Met(store: bytes, ks: seq<bytes>, n: nat, p: bytes) {
    exists m :: 0 <= m < n <= |ks| && ks[m] == DocKey(store, p)
  }

  lemma MetNext(store: bytes, ks: seq<bytes>, n: nat, p: bytes)
    requires n < |ks| && DocPrefix(store) <= ks[n]
    ensures Met(store, ks, n + 1, p) <==> Met(store, ks, n, p) || p == PkOf(store, ks[n])
  {
    DocKeyOfPk(store, ks[n]);
    PkOfDocKey(store, p);
  }

  lemma NotYetMet(store: bytes, ks: seq<bytes>, n: nat)
    requires n < |ks| && DocPrefix(store) <= ks[n] && Ascending(ks)
    ensures !Met(store, ks, n, PkOf(store, ks[n]))
  {
    DocKeyOfPk(store, ks[n]);
    if m :| 0 <= m < n && ks[m] == ks[n] { AscendingDistinct(ks, m, n); }
  }

  /** The scan of a store meets exactly the stored documents. */
  lemma MetAll(db: Db, store: bytes, p: bytes)
    requires Consistent(db) && store in db.schema
    ensures var ks := PrefixScan(db.engine, DocPrefix(store));
            Met(store, ks, |ks|, p) <==> Live(db.engine, store, p).Some?
    ensures DocKey(store, p) in db.engine <==> Live(db.engine, store, p).Some?
  {
    var ks := PrefixScan(db.engine, DocPrefix(store));
    PkOfDocKey(store, p);
    if Live(db.engine, store, p).Some? {
      assert DocKey(store, p) in ks;
    }
    if Met(store, ks, |ks|, p) {
      assert DocKey(store, p) in ks;
    }
  }

  lemma ScanReadable(db: Db, store: bytes, n: nat)
    requires Consistent(db) && store in db.schema
    requires n < |PrefixScan(db.engine, DocPrefix(store))|
    ensures var k := PrefixScan(db.engine, DocPrefix(store))[n];
            k in db.engine && DocPrefix(store) <= k && db.engine[k].Doc?
            && Live(db.engine, store, PkOf(store, k)) == Some(db.engine[k].doc)
  {
    var ks := PrefixScan(db.engine, DocPrefix(store));
    assert ks[n] in ks;
    DocKeyOfPk(store, ks[n]);
  }
}
