/** Generic facts about sequences: duplicate-free readings of a map, filtering, stable sorting. */
module Seqs {
  import opened Record

  ghost predicate Distinct<T(!new)>(s: seq<T>) {
    forall i, j :: 0 <= i < j < |s| ==> s[i] != s[j]
  }

  lemma NoMembers<T(!new)>(s: seq<T>)
    requires forall v :: v !in s
    ensures s == []
  {
    FirstIn(s);
  }

  lemma FirstIn<T>(s: seq<T>)
    ensures s != [] ==> s[0] in s
  {}

  /** vs are the values f gives to the distinct keys ks, in order. */
  ghost predicate Reads<K(!new), V>(f: K -> Option<V>, ks: seq<K>, vs: seq<V>) {
    |vs| == |ks| && Distinct(ks) && forall i :: 0 <= i < |ks| ==> f(ks[i]) == Some(vs[i])
  }

  function Keep<V>(vs: seq<V>, test: V -> bool): seq<V> {
    if vs == [] then []
    else
      var n := |vs| - 1;
      Keep(vs[..n], test) + (if test(vs[n]) then [vs[n]] else [])
  }

  lemma {:induction false} KeepReads<K(!new), V>(f: K -> Option<V>, ks: seq<K>, vs: seq<V>, test: V -> bool)
    returns (kept: seq<K>)
    requires Reads(f, ks, vs)
    ensures Reads(f, kept, Keep(vs, test))
    ensures forall k :: k in kept <==> k in ks && f(k).Some? && test(f(k).value)
    decreases |vs|
  {
    if vs == [] {
      kept := [];
    } else {
      var n := |vs| - 1;
      kept := KeepReads(f, ks[..n], vs[..n], test);
      assert ks == ks[..n] + [ks[n]] && ks[n] !in ks[..n];
      if test(vs[n]) { kept := kept + [ks[n]]; }
    }
  }

  lemma {:induction false} KeepMembers<V(!new)>(vs: seq<V>, test: V -> bool)
    ensures forall v :: v in Keep(vs, test) <==> v in vs && test(v)
  {
    if vs != [] {
      var n := |vs| - 1;
      KeepMembers(vs[..n], test);
      assert vs == vs[..n] + [vs[n]];
    }
  }

  lemma {:induction false} KeepCount<V>(vs: seq<V>, test: V -> bool, v: V)
    ensures multiset(Keep(vs, test))[v] == if test(v) then multiset(vs)[v] else 0
  {
    if vs != [] {
      var n := |vs| - 1;
      KeepCount(vs[..n], test, v);
      assert vs == vs[..n] + [vs[n]];
    }
  }

  lemma KeepSnoc<T>(s: seq<T>, x: T, test: T -> bool)
    ensures Keep(s + [x], test) == if test(x) then Keep(s, test) + [x] else Keep(s, test)
  {
    assert (s + [x])[..|s|] == s;
  }

  lemma {:induction false} KeepAppend<T>(a: seq<T>, b: seq<T>, test: T -> bool)
    ensures Keep(a + b, test) == Keep(a, test) + Keep(b, test)
    decreases |b|
  {
    if b == [] {
      assert a + b == a;
    } else {
      var n := |b| - 1;
      assert (a + b)[..|a + b| - 1] == a + b[..n];
      KeepAppend(a, b[..n], test);
    }
  }

  lemma {:induction false} KeepNone<T>(s: seq<T>, test: T -> bool)
    requires forall i :: 0 <= i < |s| ==> !test(s[i])
    ensures Keep(s, test) == []
  {
    if s != [] { KeepNone(s[..|s| - 1], test); }
  }

  lemma {:induction false} KeepCongruent<T>(s: seq<T>, f: T -> bool, g: T -> bool)
    requires forall i :: 0 <= i < |s| ==> f(s[i]) == g(s[i])
    ensures Keep(s, f) == Keep(s, g)
  {
    if s != [] { KeepCongruent(s[..|s| - 1], f, g); }
  }

  /** Dropping one position of a duplicate-free sequence drops one element. */
  lemma DropMembers<K(!new)>(s: seq<K>, j: nat, k: K)
    requires Distinct(s) && j < |s|
    ensures k in s[..j] + s[j + 1..] <==> k in s && k != s[j]
    ensures Distinct(s[..j] + s[j + 1..])
  {
    if k in s && k != s[j] {
      var i :| 0 <= i < |s| && s[i] == k;
      assert i < j ==> s[..j][i] == k;
      assert i > j ==> s[j + 1..][i - j - 1] == k;
    }
  }

  function Drop<T>(s: seq<T>, j: nat): seq<T>
    requires j < |s|
  {
    s[..j] + s[j + 1..]
  }

  lemma DropReads<K(!new), V>(f: K -> Option<V>, ks: seq<K>, vs: seq<V>, j: nat)
    requires Reads(f, ks, vs) && j < |ks|
    ensures Reads(f, Drop(ks, j), Drop(vs, j))
    ensures multiset(vs) == multiset(Drop(vs, j)) + multiset{vs[j]}
  {
    DropMembers(ks, j, ks[j]);
    assert vs == vs[..j] + [vs[j]] + vs[j + 1..];
  }

  /** Two readings of the same keys hold the same values, counted. */
  lemma {:induction false} SameReading<K(!new), V>(f: K -> Option<V>, a: seq<K>, va: seq<V>, b: seq<K>, vb: seq<V>)
    requires Reads(f, a, va) && Reads(f, b, vb)
    requires forall k :: k in a <==> k in b
    ensures multiset(va) == multiset(vb) && |va| == |vb|
    decreases |a|
  {
    if a != [] || b != [] {
      var x := if a != [] then a[0] else b[0];
      assert x in a && x in b;
      var i :| 0 <= i < |a| && a[i] == x;
      var j :| 0 <= j < |b| && b[j] == x;
      DropReads(f, a, va, i);
      DropReads(f, b, vb, j);
      forall k ensures k in Drop(a, i) <==> k in Drop(b, j) {
        DropMembers(a, i, k);
        DropMembers(b, j, k);
      }
      SameReading(f, Drop(a, i), Drop(va, i), Drop(b, j), Drop(vb, j));
    }
  }

  // ---------------------------------------------------------------- sorting

  ghost predicate Sorted<T>(s: seq<T>, le: (T, T) -> bool) {
    forall i, j :: 0 <= i < j < |s| ==> le(s[i], s[j])
  }

  ghost predicate TotalPreorder<T(!new)>(le: (T, T) -> bool) {
    (forall a, b :: le(a, b) || le(b, a)) && (forall a, b, c :: le(a, b) && le(b, c) ==> le(a, c))
  }

  function Insert<T>(x: T, s: seq<T>, le: (T, T) -> bool): seq<T> {
    if s == [] then [x]
    else if le(x, s[0]) then [x] + s
    else [s[0]] + Insert(x, s[1..], le)
  }

  /** A stable sort, standing for the library's `sort_by`. */
  function Sort<T>(s: seq<T>, le: (T, T) -> bool): seq<T> {
    if s == [] then [] else Insert(s[0], Sort(s[1..], le), le)
  }

  lemma {:induction false} InsertSorted<T(!new)>(x: T, s: seq<T>, le: (T, T) -> bool)
    requires TotalPreorder(le) && Sorted(s, le)
    ensures Sorted(Insert(x, s, le), le)
    ensures multiset(Insert(x, s, le)) == multiset(s) + multiset{x}
  {
    if s == [] {
    } else if le(x, s[0]) {
    } else {
      var rest := Insert(x, s[1..], le);
      InsertSorted(x, s[1..], le);
      assert s == [s[0]] + s[1..];
      forall j | 0 <= j < |rest| ensures le(s[0], rest[j]) {
        assert rest[j] in multiset(rest);
        assert rest[j] == x || rest[j] in s[1..];
      }
    }
  }

  lemma {:induction false} SortSorts<T(!new)>(s: seq<T>, le: (T, T) -> bool)
    requires TotalPreorder(le)
    ensures Sorted(Sort(s, le), le)
    ensures multiset(Sort(s, le)) == multiset(s)
  {
    if s != [] {
      SortSorts(s[1..], le);
      InsertSorted(s[0], Sort(s[1..], le), le);
      assert s == [s[0]] + s[1..];
    }
  }

  lemma SortedSnoc<T(!new)>(s: seq<T>, x: T, le: (T, T) -> bool)
    ensures Sorted(s + [x], le) <==> Sorted(s, le) && forall v :: v in s ==> le(v, x)
  {
    if Sorted(s + [x], le) {
      forall i, j | 0 <= i < j < |s| ensures le(s[i], s[j]) { assert le((s + [x])[i], (s + [x])[j]); }
      forall v | v in s ensures le(v, x) {
        var i :| 0 <= i < |s| && s[i] == v;
        assert le((s + [x])[i], (s + [x])[|s|]);
      }
    }
  }

  /** Any two values that pass are in order. */
  ghost predicate PassInOrder<T>(s: seq<T>, test: T -> bool, le: (T, T) -> bool) {
    forall i, j :: 0 <= i < j < |s| && test(s[i]) && test(s[j]) ==> le(s[i], s[j])
  }

  lemma PassInOrderSnoc<T(!new)>(s: seq<T>, x: T, test: T -> bool, le: (T, T) -> bool)
    ensures PassInOrder(s + [x], test, le) <==>
            PassInOrder(s, test, le) && (test(x) ==> forall v :: v in s && test(v) ==> le(v, x))
  {
    var all := s + [x];
    if PassInOrder(all, test, le) {
      forall i, j | 0 <= i < j < |s| && test(s[i]) && test(s[j]) ensures le(s[i], s[j]) {
        assert all[i] == s[i] && all[j] == s[j];
      }
      forall v | test(x) && v in s && test(v) ensures le(v, x) {
        var i :| 0 <= i < |s| && s[i] == v;
        assert all[i] == v && all[|s|] == x;
      }
    }
  }

  /** What is kept is sorted exactly when any two values that pass are in order. */
  lemma {:induction false} KeepSortedExactly<T(!new)>(s: seq<T>, test: T -> bool, le: (T, T) -> bool)
    ensures Sorted(Keep(s, test), le) <==> PassInOrder(s, test, le)
  {
    if s != [] {
      hide PassInOrder, Sorted;
      var n := |s| - 1;
      var init := s[..n];
      assert s == init + [s[n]];
      KeepSortedExactly(init, test, le);
      KeepMembers(init, test);
      KeepSnoc(init, s[n], test);
      SortedSnoc(Keep(init, test), s[n], le);
      PassInOrderSnoc(init, s[n], test, le);
    }
  }

  /** Filtering keeps the order. */
  lemma KeepSorted<T(!new)>(s: seq<T>, test: T -> bool, le: (T, T) -> bool)
    requires Sorted(s, le)
    ensures Sorted(Keep(s, test), le)
  {
    KeepSortedExactly(s, test, le);
  }
}
