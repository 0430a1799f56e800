/** JSON values as the document layer sees them, field extraction by dotted path and the
    bytes of primary keys (`src/jsondb/encoding.rs`).

    Arrays and objects carry the text `serde_json::to_vec` prints for them; section 7 of
    RFC 8259 makes that text free of NUL bytes.  Floats carry their printed text as well,
    because a float may be used as a primary key. */
module Json {
  import opened Bytes
  import opened BigEndian
  import opened Record

  type text = t: bytes | SEP !in t
  type bigU64 = n: int | TOP_BIT <= n < 2 * TOP_BIT witness 0x8000_0000_0000_0000

  datatype Json =
    | Null
    | Bool(b: bool)
    | I64(i: i64)
    | U64(u: bigU64)
    | F64(bits: u64, printed: text)
    | Str(s: bytes)
    | Arr(items: seq<Json>, arrText: text)
    | Obj(fields: map<bytes, Json>, objText: text)

  datatype Result<+T> = Ok(value: T) | Err(error: Error)
  datatype Error = StoreNotFound | IndexNotFound | MissingKeyPath | BadPrimaryKey | Corrupted
                 | UniqueViolation | NotAutoIncrement | ReadOnly | InvalidDefinition

  const DOT: byte := 46
  const PLUS: byte := 43
  const MINUS: byte := 45
  const ZERO: byte := 48

  // ---------------------------------------------------------------- decimal text

  function Decimal(n: nat): (r: text)
    ensures r != [] && forall i :: 0 <= i < |r| ==> ZERO <= r[i] < ZERO + 10
  {
    if n < 10 then [ZERO + n] else Decimal(n / 10) + [ZERO + n % 10]
  }

  predicate IsDigit(b: byte) {
    ZERO <= b < ZERO + 10
  }

  function DigitsValue(s: bytes): nat
    requires forall i :: 0 <= i < |s| ==> IsDigit(s[i])
  {
    if s == [] then 0
    else assert IsDigit(s[|s| - 1]); 10 * DigitsValue(s[..|s| - 1]) + (s[|s| - 1] - ZERO)
  }

  function WithoutPlus(s: bytes): bytes {
    if s != [] && s[0] == PLUS then s[1..] else s
  }

  /** `str::parse::<usize>()` on a 64-bit machine. */
  function ParseUsize(s: bytes): Option<nat> {
    var d := WithoutPlus(s);
    if d == [] || exists i :: 0 <= i < |d| && !IsDigit(d[i]) then None
    else if DigitsValue(d) >= 2 * TOP_BIT then None
    else Some(DigitsValue(d))
  }

  // ---------------------------------------------------------------- paths

  /** `path.split('.')`. */
  function Split(path: bytes): (r: seq<bytes>)
    ensures r != []
    ensures DOT !in path ==> r == [path]
  {
    if path == [] then [[]]
    else if path[0] == DOT then [[]] + Split(path[1..])
    else
      var rest := Split(path[1..]);
      assert DOT !in path ==> rest == [path[1..]] && path == [path[0]] + path[1..];
      [[path[0]] + rest[0]] + rest[1..]
  }

  function Member(v: Json, segment: bytes): Option<Json> {
    match v
    case Obj(fields, _) => if segment in fields then Some(fields[segment]) else None
    case Arr(items, _) =>
      (match ParseUsize(segment)
       case Some(i) => if i < |items| then Some(items[i]) else None
       case None => None)
    case _ => None
  }

  function Walk(v: Json, segments: seq<bytes>): Option<Json> {
    if segments == [] then Some(v)
    else match Member(v, segments[0])
      case Some(w) => Walk(w, segments[1..])
      case None => None
  }

  function Extract(doc: Json, path: bytes): Option<Json> {
    if path == [] then Some(doc) else Walk(doc, Split(path))
  }

  /** The cursor loop of `extract_field`. */
  method ExtractField(doc: Json, path: bytes) returns (r: Option<Json>)
    ensures r == Extract(doc, path)
  {
    if path == [] { return Some(doc); }
    var segments, current := Split(path), doc;
    var n := 0;
    while n < |segments|
      invariant 0 <= n <= |segments|
      invariant Walk(current, segments[n..]) == Extract(doc, path)
    {
      assert segments[n..][0] == segments[n] && segments[n..][1..] == segments[n + 1..];
      match Member(current, segments[n]) {
        case None => return None;
        case Some(next) => current := next;
      }
      n := n + 1;
    }
    r := Some(current);
  }

  /** `encode_primary_key`. */
  function PrimaryKey(v: Json): Result<bytes> {
    match v
    case Str(s) => if SEP in s then Err(BadPrimaryKey) else Ok(s)
    case I64(i) => Ok(if i < 0 then [MINUS] + Decimal(0 - i as int) else Decimal(i))
    case U64(u) => Ok(Decimal(u))
    case F64(_, printed) => Ok(printed)
    case Bool(b) => Ok(if b then [116, 114, 117, 101] else [102, 97, 108, 115, 101])
    case Null => Ok([0x00])
    case Arr(_, t) => Ok([0xFF] + t)
    case Obj(_, t) => Ok([0xFF] + t)
  }

  /** The JSON number `put_auto` assigns as a key. */
  function NumberOf(n: u64): Json {
    if n < TOP_BIT then I64(n) else U64(n)
  }

  // ---------------------------------------------------------------- equality of values

  predicate IsFloatZero(v: Json) {
    v.F64? && (v.bits == 0 || v.bits == TOP_BIT)
  }

  /** `==` on `serde_json::Value`: floats compare numerically, so the two zeros are equal. */
  predicate SameValue(v: Json, w: Json) {
    if v.F64? && w.F64? then v.bits == w.bits || (IsFloatZero(v) && IsFloatZero(w))
    else v == w
  }
}
