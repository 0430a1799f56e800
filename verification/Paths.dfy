/** What a dotted path leads to (`extract_field` in `src/jsondb/encoding.rs`). */
module Paths {
  import opened Bytes
  import opened BigEndian
  import opened Record
  import opened Json
  import opened PrimaryKeys

  lemma {:induction false} SplitJoin(a: bytes, b: bytes)
    ensures Split(a + [DOT] + b) == Split(a) + Split(b)
    decreases |a|
  {
    var all := a + [DOT] + b;
    if a == [] {
      assert all[0] == DOT && all[1..] == b;
    } else {
      assert all[0] == a[0] && all[1..] == a[1..] + [DOT] + b;
      SplitJoin(a[1..], b);
    }
  }

  lemma {:induction false} WalkAppend(v: Json, s: seq<bytes>, t: seq<bytes>)
    ensures Walk(v, s + t) == match Walk(v, s) case Some(w) => Walk(w, t) case None => None
    decreases |s|
  {
    hide Member;
    if s == [] {
      assert s + t == t;
    } else {
      assert (s + t)[0] == s[0] && (s + t)[1..] == s[1..] + t;
      if Member(v, s[0]).Some? { WalkAppend(Member(v, s[0]).value, s[1..], t); }
    }
  }

  /** A path through a dot is followed in two steps. */
  lemma DottedPath(doc: Json, a: bytes, b: bytes)
    requires a != [] && b != []
    ensures Extract(doc, a + [DOT] + b) == match Extract(doc, a) case Some(v) => Extract(v, b) case None => None
  {
    hide Walk;
    SplitJoin(a, b);
    WalkAppend(doc, Split(a), Split(b));
  }

  /** One name is one step. */
  lemma OneName(doc: Json, name: bytes)
    requires name != [] && DOT !in name
    ensures Extract(doc, name) == Member(doc, name)
  {
    hide Member;
    var segments := Split(name);
    assert segments == [name] && segments[1..] == [];
    if Member(doc, name).Some? { assert Walk(Member(doc, name).value, segments[1..]) == Member(doc, name); }
  }

  /** A name leads to the field of that name in an object, and nowhere in a scalar. */
  lemma FieldName(doc: Json, name: bytes)
    requires name != [] && DOT !in name && !doc.Arr?
    ensures Extract(doc, name) == if doc.Obj? && name in doc.fields then Some(doc.fields[name]) else None
  {
    OneName(doc, name);
  }

  /** A decimal number leads to the element of that position, counted from zero. */
  lemma ElementNumber(items: seq<Json>, t: text, i: u64)
    ensures Extract(Arr(items, t), Decimal(i)) == if i < |items| then Some(items[i]) else None
  {
    hide Decimal, ParseUsize, Extract;
    ParseDecimal(i);
    OneName(Arr(items, t), Decimal(i));
  }

  lemma ParseDecimal(i: u64)
    ensures ParseUsize(Decimal(i)) == Some(i)
    ensures Decimal(i) != [] && DOT !in Decimal(i)
  {
    hide Decimal, DigitsValue;
    DecimalCanonical(i);
    assert IsDigit(Decimal(i)[0]);
  }

  /** Only digits, with a plus sign perhaps, lead into an array. */
  lemma NoElement(items: seq<Json>, t: text, name: bytes, j: nat)
    requires name != [] && DOT !in name && j < |name| && !IsDigit(name[j]) && (j == 0 ==> name[0] != PLUS)
    ensures Extract(Arr(items, t), name) == None
  {
    OneName(Arr(items, t), name);
    NotNumber(name, j);
  }

  lemma NotNumber(s: bytes, j: nat)
    requires j < |s| && !IsDigit(s[j]) && (j == 0 ==> s[0] != PLUS)
    ensures ParseUsize(s) == None
  {
    var d, i := WithoutPlus(s), if s[0] == PLUS then j - 1 else j;
    assert d[i] == s[j] && !IsDigit(d[i]);
  }
}
