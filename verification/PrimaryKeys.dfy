/** Which values share a primary key (`encode_primary_key` in `src/jsondb/encoding.rs`). */
module PrimaryKeys {
  import opened Bytes
  import opened BigEndian
  import opened Record
  import opened Json

  // ---------------------------------------------------------------- decimal notation

  predicate AllDigits(s: bytes) {
    forall i :: 0 <= i < |s| ==> IsDigit(s[i])
  }

  /** Digits without a leading zero, except for zero itself. */
  predicate Canonical(s: bytes) {
    s != [] && AllDigits(s) && (s[0] == ZERO ==> |s| == 1)
  }

  lemma {:induction false} DecimalCanonical(n: nat)
    ensures Canonical(Decimal(n)) && DigitsValue(Decimal(n)) == n
    ensures n > 0 ==> Decimal(n)[0] != ZERO
  {
    if n >= 10 {
      DecimalCanonical(n / 10);
      var s := Decimal(n);
      assert s[..|s| - 1] == Decimal(n / 10) && s[|s| - 1] == ZERO + n % 10;
    } else {
      assert [ZERO + n][..0] == [];
    }
  }

  lemma DecimalStep(v: nat, d: nat)
    requires v > 0 && d < 10
    ensures Decimal(10 * v + d) == Decimal(v) + [ZERO + d]
  {}

  lemma {:induction false} CanonicalIsDecimal(s: bytes)
    requires Canonical(s)
    ensures Decimal(DigitsValue(s)) == s
  {
    var n := |s| - 1;
    var init, d := s[..n], s[n];
    assert IsDigit(d) && s == init + [d];
    if n > 0 {
      hide Decimal;
      LeadingDigit(init);
      CanonicalIsDecimal(init);
      DecimalStep(DigitsValue(init), d - ZERO);
    } else {
      assert init == [];
    }
  }

  lemma {:induction false} LeadingDigit(s: bytes)
    requires s != [] && AllDigits(s) && s[0] != ZERO
    ensures DigitsValue(s) > 0
  {
    var n := |s| - 1;
    assert IsDigit(s[n]);
    if n > 0 { LeadingDigit(s[..n]); } else { assert s[..0] == []; }
  }

  lemma DecimalInjective(n: nat, m: nat)
    ensures Decimal(n) == Decimal(m) <==> n == m
  {
    DecimalCanonical(n);
    DecimalCanonical(m);
  }

  /** The text is the usual notation of the integer. */
  predicate SpellsInt(s: bytes, n: int) {
    if s != [] && s[0] == MINUS then Canonical(s[1..]) && n < 0 && DigitsValue(s[1..]) == -n
    else Canonical(s) && DigitsValue(s) == n
  }

  predicate IsInt(v: Json) {
    v.I64? || v.U64?
  }

  function IntOf(v: Json): int
    requires IsInt(v)
  {
    if v.I64? then v.i else v.u
  }

  lemma SpellsNat(s: bytes, n: nat)
    ensures s == Decimal(n) <==> SpellsInt(s, n)
  {
    hide DigitsValue;
    DecimalCanonical(n);
    if SpellsInt(s, n) { CanonicalIsDecimal(s); }
  }

  lemma SpellsNegative(s: bytes, n: nat)
    requires n > 0
    ensures s == [MINUS] + Decimal(n) <==> SpellsInt(s, 0 - n)
  {
    hide DigitsValue, Canonical, Decimal;
    DecimalCanonical(n);
    assert ([MINUS] + Decimal(n))[1..] == Decimal(n);
    if SpellsInt(s, 0 - n) {
      NotNegative(s, 0 - n);
      CanonicalIsDecimal(s[1..]);
      assert s == [MINUS] + s[1..];
    }
  }

  lemma NotNegative(s: bytes, n: int)
    requires SpellsInt(s, n) && n < 0
    ensures s != [] && s[0] == MINUS
  {}

  lemma IntKeySpells(v: Json, s: bytes)
    requires IsInt(v)
    ensures PrimaryKey(v) == Ok(s) <==> SpellsInt(s, IntOf(v))
  {
    hide SpellsInt, Decimal;
    var n := IntOf(v);
    if n < 0 { SpellsNegative(s, -n); } else { SpellsNat(s, n); }
  }

  lemma SpelledOnce(s: bytes, n: int, m: int)
    requires SpellsInt(s, n) && SpellsInt(s, m)
    ensures n == m
  {}

  // ---------------------------------------------------------------- which values meet

  const TRUE_TEXT: bytes := [116, 114, 117, 101]
  const FALSE_TEXT: bytes := [102, 97, 108, 115, 101]

  predicate SpellsBool(s: bytes, b: bool) {
    s == if b then TRUE_TEXT else FALSE_TEXT
  }

  predicate IsTree(v: Json) {
    v.Arr? || v.Obj?
  }

  function TreeText(v: Json): text
    requires IsTree(v)
  {
    if v.Arr? then v.arrText else v.objText
  }

  /** Values of one kind meet when they are the same value, or print the same text. */
  predicate SameKind(v: Json, w: Json) {
    || (v.Null? && w.Null?)
    || (v.Bool? && w.Bool? && v.b == w.b)
    || (IsInt(v) && IsInt(w) && IntOf(v) == IntOf(w))
    || (v.Str? && w.Str? && v.s == w.s)
    || (v.F64? && w.F64? && v.printed == w.printed)
    || (IsTree(v) && IsTree(w) && TreeText(v) == TreeText(w))
  }

  /** A text that spells another value. */
  predicate Spells(s: bytes, w: Json) {
    || (w.Bool? && SpellsBool(s, w.b))
    || (IsInt(w) && SpellsInt(s, IntOf(w)))
    || (w.F64? && s == w.printed)
    || (IsTree(w) && s == [0xFF] + TreeText(w))
  }

  /** Values of different kinds meet when one is a string, or the text of a float, that spells the
      other. */
  predicate Spelling(v: Json, w: Json) {
    || (v.Str? && Spells(v.s, w))
    || (v.F64? && !w.F64? && Spells(v.printed, w))
  }

  predicate Meet(v: Json, w: Json) {
    SameKind(v, w) || Spelling(v, w) || Spelling(w, v)
  }

  /** The bytes are the key of the value. */
  predicate IsKey(k: bytes, v: Json) {
    if v.Null? then k == [0] else if v.Str? then k == v.s && SEP !in k else Spells(k, v)
  }

  lemma KeyIs(k: bytes, v: Json)
    ensures PrimaryKey(v) == Ok(k) <==> IsKey(k, v)
  {
    if IsInt(v) { IntKeySpells(v, k); }
  }

  /** First bytes tell the kinds apart that are not texts. */
  lemma FirstByte(k: bytes, v: Json)
    requires IsKey(k, v)
    ensures v.Null? ==> k == [0]
    ensures v.Bool? ==> k != [] && k[0] == if v.b then 116 else 102
    ensures IsInt(v) ==> k != [] && (IsDigit(k[0]) || k[0] == MINUS)
    ensures v.F64? || v.Str? ==> SEP !in k
    ensures IsTree(v) ==> k != [] && k[0] == 0xFF && k[1..] == TreeText(v)
  {}

  lemma OneKeyMeets(k: bytes, v: Json, w: Json)
    requires IsKey(k, v) && IsKey(k, w)
    ensures Meet(v, w)
  {
    FirstByte(k, v);
    FirstByte(k, w);
    hide SpellsInt;
    if IsInt(v) && IsInt(w) { SpelledOnce(k, IntOf(v), IntOf(w)); }
  }

  lemma MeetingShares(k: bytes, v: Json, w: Json)
    requires IsKey(k, v) && Meet(v, w) && PrimaryKey(w).Ok?
    ensures IsKey(k, w)
  {
    FirstByte(k, v);
    KeyIs(PrimaryKey(w).value, w);
    hide SpellsInt, PrimaryKey;
    if Spelling(w, v) { SpelledByText(k, v, w); }
  }

  /** A text that spells a value is its key. */
  lemma SpelledByText(k: bytes, v: Json, w: Json)
    requires IsKey(k, v) && Spelling(w, v) && (w.Str? ==> SEP !in w.s)
    ensures IsKey(k, w)
  {
    var s := if w.Str? then w.s else w.printed;
    if v.Str? { } else {
      assert IsKey(s, v);
      KeyIs(s, v);
      KeyIs(k, v);
    }
  }

  /** Two values have one primary key exactly when they meet. */
  lemma KeysMeetExactly(v: Json, w: Json)
    requires PrimaryKey(v).Ok? && PrimaryKey(w).Ok?
    ensures PrimaryKey(v) == PrimaryKey(w) <==> Meet(v, w)
  {
    hide Meet, IsKey, PrimaryKey;
    var k := PrimaryKey(v).value;
    KeyIs(k, v);
    KeyIs(k, w);
    if PrimaryKey(v) == PrimaryKey(w) { OneKeyMeets(k, v, w); }
    if Meet(v, w) { MeetingShares(k, v, w); }
  }

  predicate Plain(v: Json) {
    v.Null? || v.Bool? || IsInt(v)
  }

  /** Different integers, booleans and null have different keys, and so have different strings. */
  lemma PlainKeysDiffer(v: Json, w: Json)
    requires PrimaryKey(v).Ok? && PrimaryKey(w).Ok? && v != w
    requires (Plain(v) && Plain(w)) || (v.Str? && w.Str?)
    ensures PrimaryKey(v) != PrimaryKey(w)
  {
    KeysMeetExactly(v, w);
  }
}
