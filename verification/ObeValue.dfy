/** Values and documents of the OVN Binary Encoding. Floats are carried as bit patterns. */
module ObeValue {
  import opened Bytes
  import TextMap

  // ---- UTF-8 (Table 3-7 of the Unicode Standard), as `String::from_utf8` accepts it ----

  predicate Continuation(b: byte) { 0x80 <= b <= 0xBF }

  /** The number of bytes of the scalar value that starts `s`; 0 if none does. */
  function Utf8Width(s: Text): (n: nat)
    ensures n <= |s|
  {
    if |s| >= 1 && s[0] <= 0x7F then 1
    else if |s| >= 2 && 0xC2 <= s[0] <= 0xDF && Continuation(s[1]) then 2
    else if |s| >= 3 && Continuation(s[2])
      && ((s[0] == 0xE0 && 0xA0 <= s[1] <= 0xBF)
          || (0xE1 <= s[0] <= 0xEC && Continuation(s[1]))
          || (s[0] == 0xED && 0x80 <= s[1] <= 0x9F)
          || (0xEE <= s[0] <= 0xEF && Continuation(s[1]))) then 3
    else if |s| >= 4 && Continuation(s[2]) && Continuation(s[3])
      && ((s[0] == 0xF0 && 0x90 <= s[1] <= 0xBF)
          || (0xF1 <= s[0] <= 0xF3 && Continuation(s[1]))
          || (s[0] == 0xF4 && 0x80 <= s[1] <= 0x8F)) then 4
    else 0
  }

  predicate ValidUtf8(s: Text) {
    |s| == 0 || (Utf8Width(s) > 0 && ValidUtf8(s[Utf8Width(s)..]))
  }

  /** ASCII is UTF-8. */
  lemma {:induction false} AsciiIsUtf8(s: Text)
    requires forall i :: 0 <= i < |s| ==> s[i] <= 0x7F
    ensures ValidUtf8(s)
  {
    if |s| > 0 { AsciiIsUtf8(s[1..]); }
  }

  type Utf8 = s: Text | ValidUtf8(s) witness []
  type Bytes12 = s: Text | |s| == 12 witness Le(0, 12)
  type Bytes16 = s: Text | |s| == 16 witness Le(0, 16)

  datatype ObeValue =
    | Null
    | Bool(b: bool)
    | Int32(i: i32)
    | Int64(l: i64)
    | Float64(bits: u64)
    | String(s: Utf8)
    | Binary(data: Text)
    | Document(entries: seq<(Text, ObeValue)>)
    | Array(elems: seq<ObeValue>)
    | Timestamp(ts: u64)
    | ObjectId(oid: Bytes12)
    | Decimal128(d: Bytes16)
    | BlobRef(blobId: Bytes16, totalSize: u64)
    | GeoPoint(lat: u64, lng: u64)
    | GeoJson(json: Text)

  type Fields = seq<(Text, ObeValue)>

  datatype ObeDocument = ObeDocument(id: Bytes16, txid: u64, tombstone: bool, fields: Fields)

  /** What Rust's types guarantee of a value: names are UTF-8 and maps are `BTreeMap`s. */
  predicate WellFormed(v: ObeValue) {
    match v
    case Document(entries) =>
      TextMap.Sorted(entries)
      && forall i :: 0 <= i < |entries| ==> ValidUtf8(entries[i].0) && WellFormed(entries[i].1)
    case Array(elems) => forall i :: 0 <= i < |elems| ==> WellFormed(elems[i])
    case _ => true
  }

  predicate WellFormedFields(fields: Fields) {
    TextMap.Sorted(fields) && forall f :: f in fields ==> ValidUtf8(f.0) && WellFormed(f.1)
  }

  // ---- Dotted paths ----

  const DOT: byte := 0x2E
  const PLUS: byte := 0x2B

  function Split(path: Text): (segments: seq<Text>)
    ensures |segments| > 0
  {
    if |path| == 0 then [[]]
    else
      var rest := Split(path[1..]);
      if path[0] == DOT then [[]] + rest else [[path[0]] + rest[0]] + rest[1..]
  }

  function Digits(s: Text, acc: nat): Option<nat> {
    if |s| == 0 then Some(acc)
    else if 0x30 <= s[0] <= 0x39 then Digits(s[1..], 10 * acc + (s[0] - 0x30))
    else None
  }

  /** `segment.parse::<usize>()`; an index of `2^64` or more finds nothing either way. */
  function ParseIndex(s: Text): Option<nat> {
    var digits := if |s| > 0 && s[0] == PLUS then s[1..] else s;
    if |digits| == 0 then None else Digits(digits, 0)
  }

  function Walk(v: ObeValue, segments: seq<Text>): Option<ObeValue>
    decreases |segments|
  {
    if |segments| == 0 then Some(v)
    else
      match v
      case Document(entries) =>
        (match TextMap.Get(entries, segments[0])
         case None => None
         case Some(next) => Walk(next, segments[1..]))
      case Array(elems) =>
        (match ParseIndex(segments[0])
         case None => None
         case Some(i) => if i < |elems| then Walk(elems[i], segments[1..]) else None)
      case _ => None
  }

  /** A missing value as null. */
  function OrNull(v: Option<ObeValue>): ObeValue { if v.Some? then v.value else Null }

  /** `ObeDocument::get_path`. */
  function GetPath(fields: Fields, path: Text): Option<ObeValue> {
    var segments := Split(path);
    match TextMap.Get(fields, segments[0])
    case None => None
    case Some(v) => Walk(v, segments[1..])
  }

  /** A path without dots is a top-level lookup. */
  lemma {:induction false} SplitPlain(path: Text)
    requires DOT !in path
    ensures Split(path) == [path]
  {
    if |path| > 0 {
      SplitPlain(path[1..]);
      assert path == [path[0]] + path[1..];
    }
  }

  lemma GetPathPlain(fields: Fields, path: Text)
    requires DOT !in path
    ensures GetPath(fields, path) == TextMap.Get(fields, path)
  {
    SplitPlain(path);
  }
}
