/** Keys generated inside a transaction (`Transaction::put_auto` in `src/jsondb/transaction.rs`):
    which ones, what the commit records of them, and when the next generated key is fresh. */
module GeneratedKeys {
  import opened Bytes
  import opened BigEndian
  import opened Record
  import opened Json
  import opened PrimaryKeys
  import opened Keyspace
  import opened Store
  import opened Database
  import opened Committing
  import opened Runs
  import opened Effects

  const WRAP := 0x1_0000_0000_0000_0000

  /** What a transaction has buffered: documents, counter records, and the last key generated
      for each store. */
  datatype Pending = Pending(writes: Buffer, counters: seq<(bytes, u64)>, nextIds: map<bytes, u64>)

  const NOTHING: Pending := Pending(map[], [], map[])

  /** The key `put_auto` generates next. */
  function AutoId(e: Engine, b: Pending, store: bytes): Result<u64> {
    if store in b.nextIds then Ok((b.nextIds[store] as int + 1) % WRAP) else NextId(e, store)
  }

  /** `put_auto`: only the first key of a store leaves a counter record. */
  function BufferAuto(e: Engine, def: StoreDef, b: Pending, store: bytes, doc: Json, newText: text): Pending
    requires AutoId(e, b, store).Ok?
  {
    var id := AutoId(e, b, store).value;
    Pending(b.writes[Slot(store, Decimal(id)) := Some(InjectKey(doc, def.keyPath, id, newText))],
            b.counters + (if store in b.nextIds then [] else [(store, id)]),
            b.nextIds[store := id])
  }

  /** Successive calls on one store, in a transaction of their own. */
  function AutoAll(e: Engine, def: StoreDef, store: bytes, docs: seq<(Json, text)>): Pending
    requires NextId(e, store).Ok?
    ensures docs != [] ==> store in AutoAll(e, def, store, docs).nextIds
  {
    if docs == [] then NOTHING
    else
      var n := |docs| - 1;
      BufferAuto(e, def, AutoAll(e, def, store, docs[..n]), store, docs[n].0, docs[n].1)
  }

  // ---------------------------------------------------------------- which keys

  /** Where the document with key c + i goes. */
  function KeySlot(store: bytes, c: nat, i: nat): Slot {
    Slot(store, Decimal(c + i))
  }

  lemma KeySlotsDiffer(store: bytes, c: nat, i: nat, j: nat)
    ensures KeySlot(store, c, i) == KeySlot(store, c, j) <==> i == j
  {
    DecimalInjective(c + i, c + j);
  }

  /** The document generated under key c + i. */
  function Generated(def: StoreDef, docs: seq<(Json, text)>, c: nat, i: nat): Json
    requires 0 < i <= |docs| && c + i < WRAP
  {
    InjectKey(docs[i - 1].0, def.keyPath, c + i, docs[i - 1].1)
  }

  /** The buffer holds the keys c + 1 to c + n, each with its document, and nothing else. */
  ghost predicate HoldsKeys(b: Pending, def: StoreDef, store: bytes, docs: seq<(Json, text)>, c: nat)
    requires c + |docs| < WRAP
  {
    && (forall i :: 0 < i <= |docs| ==>
          KeySlot(store, c, i) in b.writes && b.writes[KeySlot(store, c, i)] == Some(Generated(def, docs, c, i)))
    && (forall s :: s in b.writes ==> exists i :: 0 < i <= |docs| && s == KeySlot(store, c, i))
    && b.counters == (if docs == [] then [] else [(store, c + 1)])
    && (docs == [] ==> b.nextIds == map[]) && (docs != [] ==> b.nextIds == map[store := c + |docs|])
  }

  lemma {:induction false} AutoAllKeys(e: Engine, def: StoreDef, store: bytes, docs: seq<(Json, text)>, c: nat)
    requires c + |docs| < WRAP && NextId(e, store) == Ok(c + 1)
    ensures HoldsKeys(AutoAll(e, def, store, docs), def, store, docs, c)
  {
    hide Decimal, InjectKey, NextId;
    if docs != [] {
      var n := |docs| - 1;
      AutoAllKeys(e, def, store, docs[..n], c);
      OneMoreKey(e, AutoAll(e, def, store, docs[..n]), def, store, docs, c);
    }
  }

  lemma OneMoreKey(e: Engine, b: Pending, def: StoreDef, store: bytes, docs: seq<(Json, text)>, c: nat)
    requires docs != [] && c + |docs| < WRAP && NextId(e, store) == Ok(c + 1)
    requires HoldsKeys(b, def, store, docs[..|docs| - 1], c)
    ensures AutoId(e, b, store) == Ok(c + |docs|)
    ensures HoldsKeys(BufferAuto(e, def, b, store, docs[|docs| - 1].0, docs[|docs| - 1].1), def, store, docs, c)
  {
    hide Decimal, InjectKey, NextId;
    var n := |docs| - 1;
    var b' := BufferAuto(e, def, b, store, docs[n].0, docs[n].1);
    assert AutoId(e, b, store) == Ok(c + |docs|);
    assert b'.writes == b.writes[KeySlot(store, c, |docs|) := Some(Generated(def, docs, c, |docs|))];
    hide KeySlot, BufferAuto;
    forall i | 0 < i <= |docs|
      ensures KeySlot(store, c, i) in b'.writes && b'.writes[KeySlot(store, c, i)] == Some(Generated(def, docs, c, i))
    {
      KeySlotsDiffer(store, c, i, |docs|);
      if i <= n { assert docs[..n][i - 1] == docs[i - 1]; }
    }
    forall s | s in b'.writes ensures exists i :: 0 < i <= |docs| && s == KeySlot(store, c, i) {
      if s in b.writes {
        var i :| 0 < i <= n && s == KeySlot(store, c, i);
      } else {
        assert s == KeySlot(store, c, |docs|);
      }
    }
    assert |docs| == 1 ==> docs[..n] == [];
  }

  // ---------------------------------------------------------------- after the commit

  /** The counter record of a commit is what the next generated key continues from. */
  lemma NextKeyAfterCommit(db: Db, writes: Buffer, store: bytes, id: u64, order: seq<Slot>)
    requires Consistent(db) && BufferFits(db.schema, writes) && Enumerates(order, writes)
    requires Database.Commit(db, writes, [(store, id)], order).Ok?
    ensures NextId(Database.Commit(db, writes, [(store, id)], order).value.engine, store) == Ok((id as int + 1) % WRAP)
  {
    hide Consistent, BufferFits, Enumerates, Database.Commit, Live, Apply, CounterRecords, HasTag, CounterKey;
    CommitSplit(db, writes, [(store, id)], order);
    OneCounter(db.engine, store, id);
  }

  lemma OneCounter(e: Engine, store: bytes, id: u64)
    ensures Apply(e, CounterRecords([(store, id)])) == e[CounterKey(store) := Counter(id)]
    ensures !HasTag(CounterKey(store), DOC_PREFIX) && !HasTag(CounterKey(store), IDX_PREFIX)
  {
    var records := CounterRecords([(store, id)]);
    assert records == [PutCell(CounterKey(store), Counter(id))] && records[1..] == [];
  }

  /** The n keys that a committed transaction generated are c + 1 to c + n, and its documents are
      stored under them; but the next generated key is c + 2, so it repeats a key of that
      transaction if and only if n is at least two. */
  lemma ReusedExactly(db: Db, store: bytes, docs: seq<(Json, text)>, c: nat, order: seq<Slot>)
    requires Consistent(db) && store in db.schema && docs != [] && c + |docs| + 1 < WRAP
    requires NextId(db.engine, store) == Ok(c + 1)
    requires var b := AutoAll(db.engine, db.schema[store], store, docs);
             BufferFits(db.schema, b.writes) && Enumerates(order, b.writes)
             && Database.Commit(db, b.writes, b.counters, order).Ok?
    ensures var b := AutoAll(db.engine, db.schema[store], store, docs);
            var db' := Database.Commit(db, b.writes, b.counters, order).value;
            && HoldsKeys(b, db.schema[store], store, docs, c)
            && (forall i :: 0 < i <= |docs| ==>
                  Live(db'.engine, store, Decimal(c + i)) == Some(Generated(db.schema[store], docs, c, i)))
            && NextId(db'.engine, store) == Ok(c + 2)
            && (KeySlot(store, c, 2) in b.writes <==> |docs| >= 2)
  {
    hide Consistent, BufferFits, Enumerates, Database.Commit, Live, NextId, Decimal, AutoAll;
    var def := db.schema[store];
    var b := AutoAll(db.engine, def, store, docs);
    AutoAllKeys(db.engine, def, store, docs, c);
    NextKeyAfterCommit(db, b.writes, store, c + 1, order);
    CommitKeeps(db, b.writes, b.counters, order);
    forall i | 0 < i <= |docs|
      ensures Live(Database.Commit(db, b.writes, b.counters, order).value.engine, store, Decimal(c + i))
              == Some(Generated(def, docs, c, i))
    {
      assert KeySlot(store, c, i) in b.writes;
    }
    if KeySlot(store, c, 2) in b.writes {
      var i :| 0 < i <= |docs| && KeySlot(store, c, 2) == KeySlot(store, c, i);
      KeySlotsDiffer(store, c, 2, i);
    }
  }

  /** And then the next `put_auto` on the database overwrites the transaction's second document. */
  lemma NextPutOverwrites(db: Db, store: bytes, docs: seq<(Json, text)>, c: nat, order: seq<Slot>, doc: Json,
                          newText: text)
    requires Consistent(db) && store in db.schema && |docs| >= 2 && c + |docs| + 1 < WRAP
    requires NextId(db.engine, store) == Ok(c + 1)
    requires var b := AutoAll(db.engine, db.schema[store], store, docs);
             BufferFits(db.schema, b.writes) && Enumerates(order, b.writes)
             && Database.Commit(db, b.writes, b.counters, order).Ok?
             && var db' := Database.Commit(db, b.writes, b.counters, order).value;
                Admissible(db', DoPutAuto(store, doc, newText)) && Database.PutAuto(db', store, doc, newText).Ok?
    ensures var b := AutoAll(db.engine, db.schema[store], store, docs);
            var db' := Database.Commit(db, b.writes, b.counters, order).value;
            var db'' := Database.PutAuto(db', store, doc, newText).value;
            && Live(db'.engine, store, Decimal(c + 2)) == Some(Generated(db.schema[store], docs, c, 2))
            && Live(db''.engine, store, Decimal(c + 2)) ==
              Some(InjectKey(doc, db.schema[store].keyPath, c + 2, newText))
  {
    hide Consistent, BufferFits, Enumerates, Database.Commit, Database.PutAuto, Live, NextId, Decimal, AutoAll,
         Admissible, HoldsKeys;
    var b := AutoAll(db.engine, db.schema[store], store, docs);
    ReusedExactly(db, store, docs, c, order);
    AutoAllKeys(db.engine, db.schema[store], store, docs, c);
    CommitKeeps(db, b.writes, b.counters, order);
    PutAutoReadsBack(Database.Commit(db, b.writes, b.counters, order).value, store, doc, newText, store,
        Decimal(c + 2));
  }

  // ---------------------------------------------------------------- a run where it happens

  /** Two empty documents are put into a fresh auto-increment store in one transaction; after the
      commit the next generated key is the second one's. */
  lemma KeyReused() returns (run: seq<Action>, db: Db, docs: seq<(Json, text)>, order: seq<Slot>, db': Db, id: u64)
    ensures IsRun(EMPTY, run) && db == After(EMPTY, run) && [115] in db.schema && NextId(db.engine, [115]).Ok?
    ensures var b := AutoAll(db.engine, db.schema[[115]], [115], docs);
            && |docs| == 2 && Enumerates(order, b.writes)
            && Database.Commit(db, b.writes, b.counters, order) == Ok(db')
            && NextId(db'.engine, [115]) == Ok(id) && KeySlot([115], 0, id) in b.writes
  {
    hide Consistent, AutoAll, Database.Commit, Decimal, Live, HoldsKeys, BufferFits, Enumerates, IsRun, NextId, KeySlot;
    var store, keyPath: bytes := [115], [107];
    var doc := Obj(map[], [123, 125]);
    docs := [(doc, [123, 125]), (doc, [123, 125])];
    run, db := FreshAutoStore(store, keyPath);
    var b := AutoAll(db.engine, db.schema[store], store, docs);
    AutoAllKeys(db.engine, db.schema[store], store, docs, 0);
    order := [KeySlot(store, 0, 1), KeySlot(store, 0, 2)];
    BothAccepted(db, store, docs, b, order);
    db' := Database.Commit(db, b.writes, b.counters, order).value;
    id := 2;
    ReusedExactly(db, store, docs, 0, order);
  }

  /** A store without indexes accepts what it is given. */
  lemma BothAccepted(db: Db, store: bytes, docs: seq<(Json, text)>, b: Pending, order: seq<Slot>)
    requires store in db.schema && db.schema[store].indexes == []
    requires db.schema[store].keyPath != [] && DOT !in db.schema[store].keyPath
    requires |docs| == 2 && docs[0].0.Obj? && docs[1].0.Obj?
    requires HoldsKeys(b, db.schema[store], store, docs, 0)
    requires order == [KeySlot(store, 0, 1), KeySlot(store, 0, 2)]
    ensures BufferFits(db.schema, b.writes) && Enumerates(order, b.writes)
    ensures Database.Commit(db, b.writes, b.counters, order).Ok?
  {
    hide Decimal, Extract, InjectKey, Apply, CommitRecords, CounterRecords, KeySlot, Fits;
    KeySlotsDiffer(store, 0, 1, 2);
    var def := db.schema[store];
    forall s | s in b.writes
      ensures s in order && s.store == store && b.writes[s].Some? && Fits(def, s.pk, b.writes[s].value)
    {
      var i :| 0 < i <= 2 && s == KeySlot(store, 0, i);
      AutoFits(def, store, docs, i);
      assert order[0] in order && order[1] in order && (i == 1 || i == 2);
    }
  }

  lemma AutoFits(def: StoreDef, store: bytes, docs: seq<(Json, text)>, i: nat)
    requires def.indexes == [] && def.keyPath != [] && DOT !in def.keyPath
    requires 0 < i <= |docs| < WRAP && docs[i - 1].0.Obj?
    ensures KeySlot(store, 0, i).store == store && Fits(def, KeySlot(store, 0, i).pk, Generated(def, docs, 0, i))
  {
    hide Decimal, Extract, InjectKey;
    InjectedKey(docs[i - 1].0, def.keyPath, i, docs[i - 1].1);
  }

  lemma FreshAutoStore(store: bytes, keyPath: bytes) returns (run: seq<Action>, db: Db)
    requires store == [115] && keyPath == [107]
    ensures IsRun(EMPTY, run) && db == After(EMPTY, run) && Consistent(db)
    ensures store in db.schema && db.schema[store] == StoreDef(store, keyPath, true, [])
    ensures NextId(db.engine, store) == Ok(1)
  {
    hide Consistent;
    var a, b := DoCreateStore(store, keyPath), DoEnableAuto(store);
    var db1 := Step(EMPTY, a);
    assert ValidName(store);
    assert db1 == Db(map[SchemaKey(store) := Definition(StoreDef(store, keyPath, false, []))],
                     map[store := StoreDef(store, keyPath, false, [])]);
    db := Step(db1, b);
    assert CounterKey(store)[0] != SchemaKey(store)[0];
    RunSnoc(EMPTY, [], a);
    RunSnoc(EMPTY, [] + [a], b);
    run := [] + [a] + [b];
    EmptyConsistent();
    RunKeepsConsistent(EMPTY, run);
  }
}
