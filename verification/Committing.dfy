/** A commit keeps every index exact and every unique index unique, and does not depend on
    the order in which it walks its write buffer. */
module Committing {
  import opened Bytes
  import opened BigEndian
  import opened Record
  import opened Json
  import opened Encoding
  import opened Keyspace
  import opened Store
  import opened Seqs
  import opened Database

  /** The buffered documents may be stored as they are. */
  predicate BufferFits(sch: Schema, writes: Buffer) {
    forall s :: s in writes ==>
      s.store in sch && (writes[s].Some? ==> Fits(sch[s.store], s.pk, writes[s].value))
  }

  /** The document a transaction's reader should see. */
  function Overlay(e: Engine, writes: Buffer, s: bytes, p: bytes): Option<Json> {
    if Slot(s, p) in writes then writes[Slot(s, p)] else Live(e, s, p)
  }

  predicate Covered(order: seq<Slot>, sch: Schema, writes: Buffer) {
    forall n :: 0 <= n < |order| ==> order[n] in writes && order[n].store in sch
  }

  /** The records depend on the engine only through the documents they replace. */
  lemma {:induction false} CommitRecordsStable(e: Engine, f: Engine, sch: Schema, writes: Buffer, order: seq<Slot>)
    requires Covered(order, sch, writes)
    requires ValidSchema(sch)
    requires forall n :: 0 <= n < |order| ==>
               Live(e, order[n].store, order[n].pk) == Live(f, order[n].store, order[n].pk)
    ensures CommitRecords(e, sch, writes, order) == CommitRecords(f, sch, writes, order)
  {
    if order != [] {
      assert sch[order[0].store].name == order[0].store;
      CommitRecordsStable(e, f, sch, writes, order[1..]);
    }
  }

  /** From e to e' exactly the documents in `order` changed, to what the buffer says, and no
      counter or definition did. */
  ghost predicate Rewrites(e: Engine, e': Engine, sch: Schema, writes: Buffer, order: seq<Slot>)
    requires Covered(order, sch, writes)
  {
    && (forall s, p | s in sch :: Live(e', s, p) ==
          if Slot(s, p) in order then writes[Slot(s, p)] else Live(e, s, p))
    && (forall k | !HasTag(k, DOC_PREFIX) && !HasTag(k, IDX_PREFIX) ::
          (k in e' <==> k in e) && (k in e ==> e'[k] == e[k]))
  }

  lemma NamesValid(db: Db)
    requires Consistent(db)
    ensures ValidSchema(db.schema) && forall s :: s in db.schema ==> ValidName(s) && db.schema[s].name == s
  {}

  /** The records of one slot. */
  lemma SlotRewrites(db: Db, writes: Buffer, slot: Slot)
    requires Consistent(db) && BufferFits(db.schema, writes) && slot in writes && slot.store in db.schema
    ensures var e' := Apply(db.engine, UpdateRecords(db.engine, db.schema[slot.store], slot.pk, writes[slot]));
            Consistent(Db(e', db.schema)) && Rewrites(db.engine, e', db.schema, writes, [slot])
  {
    hide Consistent, Replaced, UpdateRecords, Live, Fits, HasTag, Apply;
    var e, sch, def, doc := db.engine, db.schema, db.schema[slot.store], writes[slot];
    NamesValid(db);
    UpdateKeepsConsistent(db, slot.store, slot.pk, doc);
    UpdateEffect(e, def, slot.pk, doc);
    var e' := Apply(e, UpdateRecords(e, def, slot.pk, doc));
    forall s, p | s in sch
      ensures Live(e', s, p) == if Slot(s, p) in [slot] then writes[Slot(s, p)] else Live(e, s, p)
    {
      UpdateLive(e, e', def, slot.pk, doc, s, p);
    }
    forall k | !HasTag(k, DOC_PREFIX) && !HasTag(k, IDX_PREFIX)
      ensures (k in e' <==> k in e) && (k in e ==> e'[k] == e[k])
    {
      UpdateElsewhere(e, e', def, slot.pk, doc, k);
    }
  }

  lemma RewritesThen(e: Engine, e1: Engine, e': Engine, sch: Schema, writes: Buffer, order: seq<Slot>)
    requires Covered(order, sch, writes) && Distinct(order) && order != []
    requires Rewrites(e, e1, sch, writes, [order[0]]) && Rewrites(e1, e', sch, writes, order[1..])
    ensures Rewrites(e, e', sch, writes, order)
  {
    hide Live, HasTag;
    assert order == [order[0]] + order[1..];
  }

  /** One buffered write after the other, each reading what the ones before it have left. */
  function Serially(e: Engine, sch: Schema, writes: Buffer, order: seq<Slot>): Engine
    requires Covered(order, sch, writes)
    decreases |order|
  {
    if order == [] then e
    else Serially(Apply(e, UpdateRecords(e, sch[order[0].store], order[0].pk, writes[order[0]])), sch, writes,
        order[1..])
  }

  /** A commit is the serial composition of its puts and deletes: it keeps the index exact,
      replaces exactly the buffered documents and touches no other kind of key. */
  lemma {:induction false} CommitIsSerial(db: Db, writes: Buffer, order: seq<Slot>)
    requires Consistent(db) && Covered(order, db.schema, writes) && Distinct(order)
    requires BufferFits(db.schema, writes)
    ensures var e' := Apply(db.engine, CommitRecords(db.engine, db.schema, writes, order));
            e' == Serially(db.engine, db.schema, writes, order)
            && Consistent(Db(e', db.schema)) && Rewrites(db.engine, e', db.schema, writes, order)
    decreases |order|
  {
    hide Consistent, UpdateRecords, ValidSchema, HasTag, BufferFits;
    var e, sch := db.engine, db.schema;
    NamesValid(db);
    if order != [] {
      hide Apply;
      var slot, rest := order[0], order[1..];
      var first, more := UpdateRecords(e, sch[slot.store], slot.pk, writes[slot]), CommitRecords(e, sch, writes, rest);
      var e1 := Apply(e, first);
      ApplyAppend(e, first, more);
      SlotRewrites(db, writes, slot);
      forall n | 0 <= n < |rest|
        ensures Live(e, rest[n].store, rest[n].pk) == Live(e1, rest[n].store, rest[n].pk)
      {
        assert rest[n] == order[n + 1] && rest[n] != slot && Slot(rest[n].store, rest[n].pk) == rest[n];
      }
      CommitRecordsStable(e, e1, sch, writes, rest);
      CommitIsSerial(Db(e1, sch), writes, rest);
      RewritesThen(e, e1, Apply(e1, more), sch, writes, order);
    }
  }

  /** A consistent state is determined by its documents, its schema and its other keys: the
      index holds no information of its own. */
  lemma ConsistentDetermined(a: Db, b: Db)
    requires Consistent(a) && Consistent(b) && a.schema == b.schema
    requires forall s, p | s in a.schema :: Live(a.engine, s, p) == Live(b.engine, s, p)
    requires forall k | !HasTag(k, DOC_PREFIX) && !HasTag(k, IDX_PREFIX) ::
               (k in a.engine <==> k in b.engine) && (k in a.engine ==> a.engine[k] == b.engine[k])
    ensures a == b
  {
    forall k | k in a.engine ensures k in b.engine && a.engine[k] == b.engine[k] {
      DeterminedAt(a, b, k);
    }
    forall k | k in b.engine ensures k in a.engine {
      DeterminedAt(b, a, k);
    }
    assert a.engine == b.engine;
  }

  lemma DeterminedAt(a: Db, b: Db, k: bytes)
    requires Consistent(a) && Consistent(b) && a.schema == b.schema
    requires forall s, p | s in a.schema :: Live(a.engine, s, p) == Live(b.engine, s, p)
    requires forall k | !HasTag(k, DOC_PREFIX) && !HasTag(k, IDX_PREFIX) ::
               (k in a.engine <==> k in b.engine) && (k in a.engine ==> a.engine[k] == b.engine[k])
    requires k in a.engine
    ensures k in b.engine && a.engine[k] == b.engine[k]
  {
    if HasTag(k, DOC_PREFIX) {
      var s, p :| s in a.schema && k == DocKey(s, p);
      assert Live(a.engine, s, p) == Live(b.engine, s, p);
    } else if HasTag(k, IDX_PREFIX) {
      var s, p :| Owns(a, s, p, k);
      assert Owns(b, s, p, k);
    }
  }

  /** Counter records first: they reach only counter keys. */
  lemma {:induction false} CountersKeep(db: Db, counters: seq<(bytes, u64)>)
    requires Consistent(db)
    ensures var e' := Apply(db.engine, CounterRecords(counters));
            Consistent(Db(e', db.schema))
            && forall s, p :: Live(e', s, p) == Live(db.engine, s, p)
    decreases |counters|
  {
    if counters != [] {
      var k, c := CounterKey(counters[0].0), Counter(counters[0].1);
      assert CounterRecords(counters)[1..] == CounterRecords(counters[1..]);
      OtherKeyKeeps(db, k, c);
      CountersKeep(Db(db.engine[k := c], db.schema), counters[1..]);
    }
  }

  /** A successful commit leaves exactly the overlay of buffer and store, with exact indexes. */
  lemma CommitKeeps(db: Db, writes: Buffer, counters: seq<(bytes, u64)>, order: seq<Slot>)
    requires Consistent(db) && Enumerates(order, writes) && BufferFits(db.schema, writes)
    requires Commit(db, writes, counters, order).Ok?
    ensures var db' := Commit(db, writes, counters, order).value;
            Consistent(db') && db'.schema == db.schema
            && forall s, p | s in db.schema :: Live(db'.engine, s, p) == Overlay(db.engine, writes, s, p)
  {
    CommitSplit(db, writes, counters, order);
  }

  lemma CommitSplit(db: Db, writes: Buffer, counters: seq<(bytes, u64)>, order: seq<Slot>)
    requires Consistent(db) && Enumerates(order, writes) && BufferFits(db.schema, writes)
    requires Commit(db, writes, counters, order).Ok?
    ensures var db' := Commit(db, writes, counters, order).value;
            var e0 := Apply(db.engine, CounterRecords(counters));
            Consistent(db') && db'.schema == db.schema
            && (forall s, p | s in db.schema :: Live(db'.engine, s, p) == Overlay(db.engine, writes, s, p))
            && (forall k | !HasTag(k, DOC_PREFIX) && !HasTag(k, IDX_PREFIX) ::
                  (k in db'.engine <==> k in e0) && (k in e0 ==> db'.engine[k] == e0[k]))
  {
    var e0 := Apply(db.engine, CounterRecords(counters));
    ApplyAppend(db.engine, CounterRecords(counters), CommitRecords(db.engine, db.schema, writes, order));
    CountersKeep(db, counters);
    CommitRecordsStable(db.engine, e0, db.schema, writes, order);
    CommitIsSerial(Db(e0, db.schema), writes, order);
  }

  /** The result does not depend on the order in which commit walks its write buffer. */
  lemma CommitOrderIrrelevant(db: Db, writes: Buffer, counters: seq<(bytes, u64)>,
                              order: seq<Slot>, other: seq<Slot>)
    requires Consistent(db) && Enumerates(order, writes) && Enumerates(other, writes)
    requires BufferFits(db.schema, writes)
    ensures Commit(db, writes, counters, order) == Commit(db, writes, counters, other)
  {
    if Commit(db, writes, counters, order).Ok? {
      CommitSplit(db, writes, counters, order);
      CommitSplit(db, writes, counters, other);
      ConsistentDetermined(Commit(db, writes, counters, order).value,
                           Commit(db, writes, counters, other).value);
    }
  }

  /** Two buffered documents sharing a row of a unique index are never both accepted. */
  lemma BufferedRowIsTaken(db: Db, writes: Buffer, a: Slot, b: Slot, i: nat)
    requires a in writes && b in writes && a != b && a.store == b.store && a.store in db.schema
    requires writes[a].Some? && writes[b].Some?
    requires i < |db.schema[a.store].indexes| && db.schema[a.store].indexes[i].unique
    requires RowsMeet(db.schema[a.store].indexes[i], writes[a].value, writes[b].value)
    ensures !SlotAccepted(db, writes, a)
  {
    var idx := db.schema[a.store].indexes[i];
    var r, l :| 0 <= r < |Rows(writes[a].value, idx)| && 0 <= l < |Rows(writes[b].value, idx)|
      && EncodeRow(Rows(writes[a].value, idx)[r]) == EncodeRow(Rows(writes[b].value, idx)[l]);
    assert BufferTaken(writes, idx, a, Rows(writes[a].value, idx)[r]);
  }

  /** Uniqueness survives a commit: buffered against buffered, buffered against stored, and
      stored against stored. */
  lemma CommitKeepsUnique(db: Db, writes: Buffer, counters: seq<(bytes, u64)>, order: seq<Slot>, s: bytes, i: nat)
    requires Consistent(db) && Enumerates(order, writes) && BufferFits(db.schema, writes)
    requires Commit(db, writes, counters, order).Ok?
    requires s in db.schema && i < |db.schema[s].indexes| && db.schema[s].indexes[i].unique
    requires UniqueHolds(db, s, i)
    ensures UniqueHolds(Commit(db, writes, counters, order).value, s, i)
  {
    var e' := Commit(db, writes, counters, order).value.engine;
    var idx := db.schema[s].indexes[i];
    CommitKeeps(db, writes, counters, order);
    forall p, q | p != q && Live(e', s, p).Some? && Live(e', s, q).Some?
      ensures !RowsMeet(idx, Live(e', s, p).value, Live(e', s, q).value)
    {
      var a, b := Slot(s, p), Slot(s, q);
      if RowsMeet(idx, Live(e', s, p).value, Live(e', s, q).value) {
        RowsMeetSymmetric(idx, Live(e', s, p).value, Live(e', s, q).value);
        if a in writes && b in writes {
          BufferedRowIsTaken(db, writes, a, b, i);
        } else if a in writes {
          StoredRowIsTaken(db, s, i, p, writes[a].value, q);
        } else if b in writes {
          StoredRowIsTaken(db, s, i, q, writes[b].value, p);
        }
      }
    }
  }
}
