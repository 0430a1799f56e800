/** The single keyspace of the document layer: key layouts, and ordered scans over the
    latest-wins map that stands for the engine (`src/jsondb/encoding.rs`). */
module Keyspace {
  import opened Bytes
  import opened Record
  import opened Json
  import opened Encoding

  const DOC_PREFIX: byte := 0x01
  const IDX_PREFIX: byte := 0x02
  const SCH_PREFIX: byte := 0x03
  const CTR_PREFIX: byte := 0x04

  /** `validate_name`. */
  predicate ValidName(name: bytes) {
    name != [] && |name| <= 255
    && forall i :: 0 <= i < |name| ==>
         (48 <= name[i] <= 57 || 65 <= name[i] <= 90 || 97 <= name[i] <= 122
          || name[i] == 95 || name[i] == 45)
  }

  lemma ValidNameNulFree(name: bytes)
    requires ValidName(name)
    ensures SEP !in name
  {}

  function DocPrefix(store: bytes): bytes { [DOC_PREFIX] + store + [SEP] }
  function DocKey(store: bytes, pk: bytes): bytes { DocPrefix(store) + pk }
  function IdxPrefix(store: bytes, index: bytes): bytes {
    [IDX_PREFIX] + store + [SEP] + index + [SEP]
  }
  function IdxValuePrefix(store: bytes, index: bytes, encoded: bytes): bytes {
    IdxPrefix(store, index) + encoded + [SEP]
  }
  function IdxKey(store: bytes, index: bytes, encoded: bytes, pk: bytes): bytes {
    IdxValuePrefix(store, index, encoded) + pk
  }
  function SchemaKey(store: bytes): bytes { [SCH_PREFIX] + store }
  function CounterKey(store: bytes): bytes { [CTR_PREFIX] + store }

  predicate HasTag(k: bytes, tag: byte) {
    k != [] && k[0] == tag
  }

  /** A NUL-free component ends at the first separator. */
  lemma ComponentCut(s: bytes, x: bytes, t: bytes, y: bytes)
    requires SEP !in s && SEP !in t
    requires s + [SEP] + x == t + [SEP] + y
    ensures s == t && x == y
  {
    var a, b := s + [SEP], t + [SEP];
    if |a| <= |b| {
      assert a == (a + x)[..|a|] == (b + y)[..|a|] == b[..|a|];
      TerminatedOrder(s, t);
    } else {
      assert b == (b + y)[..|b|] == (a + x)[..|b|] == a[..|b|];
      TerminatedOrder(t, s);
    }
    assert x == (a + x)[|a|..] && y == (b + y)[|b|..];
  }

  /** The primary key of a document key. */
  function PkOf(store: bytes, k: bytes): bytes
    requires DocPrefix(store) <= k
  {
    k[|DocPrefix(store)|..]
  }

  lemma PkOfDocKey(store: bytes, pk: bytes)
    ensures DocPrefix(store) <= DocKey(store, pk) && PkOf(store, DocKey(store, pk)) == pk
  {}

  lemma DocKeyOfPk(store: bytes, k: bytes)
    requires DocPrefix(store) <= k
    ensures DocKey(store, PkOf(store, k)) == k
  {}

  lemma DocKeyInjective(s: bytes, x: bytes, t: bytes, y: bytes)
    requires ValidName(s) && ValidName(t) && DocKey(s, x) == DocKey(t, y)
    ensures s == t && x == y
  {
    assert DocKey(s, x)[1..] == s + [SEP] + x && DocKey(t, y)[1..] == t + [SEP] + y;
    ComponentCut(s, x, t, y);
  }

  /** Store and index name can be read off any key under an index prefix. */
  lemma IdxPrefixInjective(s: bytes, i: bytes, x: bytes, t: bytes, j: bytes, y: bytes)
    requires ValidName(s) && ValidName(i) && ValidName(t) && ValidName(j)
    requires IdxPrefix(s, i) + x == IdxPrefix(t, j) + y
    ensures s == t && i == j && x == y
  {
    var a, b := i + [SEP] + x, j + [SEP] + y;
    assert (IdxPrefix(s, i) + x)[1..] == s + [SEP] + a;
    assert (IdxPrefix(t, j) + y)[1..] == t + [SEP] + b;
    ComponentCut(s, a, t, b);
    ComponentCut(i, x, j, y);
  }

  /** Splitting an index key at its prefix. */
  lemma IdxKeyShape(s: bytes, i: bytes, row: seq<Json>, pk: bytes)
    requires row != []
    ensures IdxKey(s, i, EncodeRow(row), pk) == IdxPrefix(s, i) + (Terminated(row) + pk)
  {
    assert IdxKey(s, i, EncodeRow(row), pk) == IdxPrefix(s, i) + EncodeRow(row) + [SEP] + pk;
  }

  /** Index keys determine store, index name, encoded row and primary key. */
  lemma IdxKeyInjective(s: bytes, i: bytes, a: seq<Json>, x: bytes,
                        t: bytes, j: bytes, b: seq<Json>, y: bytes)
    requires ValidName(s) && ValidName(i) && ValidName(t) && ValidName(j)
    requires |a| == |b| > 0 && RowNulFree(a) && RowNulFree(b)
    requires IdxKey(s, i, EncodeRow(a), x) == IdxKey(t, j, EncodeRow(b), y)
    ensures s == t && i == j && EncodeRow(a) == EncodeRow(b) && x == y
  {
    IdxKeyShape(s, i, a, x);
    IdxKeyShape(t, j, b, y);
    IdxPrefixInjective(s, i, Terminated(a) + x, t, j, Terminated(b) + y);
    RowCut(a, x, b, y);
  }

  // ---------------------------------------------------------------- ordered scans

  ghost predicate Ascending(ks: seq<bytes>) {
    forall i, j :: 0 <= i < j < |ks| ==> Less(ks[i], ks[j])
  }

  predicate IsLeast(m: bytes, s: set<bytes>) {
    m in s && forall k :: k in s ==> AtMost(m, k)
  }

  lemma LeastExists(s: set<bytes>) returns (m: bytes)
    requires s != {}
    ensures IsLeast(m, s)
    decreases |s|
  {
    var x :| x in s;
    if s == {x} { return x; }
    assert x in s && |s - {x}| < |s|;
    var rest := LeastExists(s - {x});
    Trichotomy(x, rest);
    if Less(rest, x) { return rest; }
    forall k | k in s ensures AtMost(x, k) {
      if k != x && k != rest { assert AtMost(rest, k); LessTransitive(x, rest, k); }
    }
    m := x;
  }

  /** The first key of a nonempty set. */
  function Least(s: set<bytes>): (m: bytes)
    requires s != {}
    ensures m in s && forall k :: k in s ==> AtMost(m, k)
  {
    assert exists m :: IsLeast(m, s) by { var m := LeastExists(s); }
    assert forall m, n :: IsLeast(m, s) && IsLeast(n, s) ==> m == n by {
      forall m, n | IsLeast(m, s) && IsLeast(n, s) ensures m == n { Trichotomy(m, n); }
    }
    var m :| m in s && IsLeast(m, s);
    m
  }

  /** The keys of a set in ascending order. */
  function SortedKeys(s: set<bytes>): (ks: seq<bytes>)
    ensures forall k :: k in ks <==> k in s
    ensures Ascending(ks)
  {
    if s == {} then [] else
      var m := Least(s);
      var rest := SortedKeys(s - {m});
      assert forall j :: 0 <= j < |rest| ==> rest[j] in rest && rest[j] in s - {m};
      [m] + rest
  }

  /** `Engine::scan` over the live keys. */
  function ScanKeys<V>(e: map<bytes, V>, lo: Bound, hi: Bound): (ks: seq<bytes>)
    ensures Ascending(ks)
    ensures forall k :: k in ks <==> k in e && Matches(ToKeyFilter(lo, hi), k)
  {
    SortedKeys(set k | k in e && Matches(ToKeyFilter(lo, hi), k))
  }

  /** `engine.scan(prefix_range(p))`. */
  function PrefixScan<V>(e: map<bytes, V>, p: bytes): (ks: seq<bytes>)
    ensures Ascending(ks)
    ensures forall k :: k in ks <==> k in e && p <= k
  {
    assert ToKeyFilter(Included(p), Excluded(Increment(p))) == Prefix(p);
    ScanKeys(e, Included(p), Excluded(Increment(p)))
  }

  lemma {:induction false} AscendingDistinct(ks: seq<bytes>, i: nat, j: nat)
    requires Ascending(ks) && i < |ks| && j < |ks| && ks[i] == ks[j]
    ensures i == j
  {
    LessIrreflexive(ks[i]);
  }
}
