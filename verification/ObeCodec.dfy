/** The OBE document format: what `ObeDocument::encode` writes and `ObeDocument::decode`
    accepts, and the two results about them: they undo each other exactly within the
    decoder's limits, and the decoder only ever yields documents within those limits. */
module ObeCodec {
  import opened Bytes
  import opened ObeValue
  import opened Varint
  import TextMap

  const MAX_NESTING_DEPTH: nat := 128
  const MAX_ARRAY_LEN: nat := 100_000
  const MAX_FIELD_NAME_BYTES: nat := 255
  const MAX_DOCUMENT_SIZE: nat := 16 * 1024 * 1024
  const TAG_DOCUMENT: byte := 0x09
  const TAG_ARRAY: byte := 0x0A

  // ---- Encoder ----

  function TypeTag(v: ObeValue): byte {
    match v
    case Null => 0x01
    case Bool(b) => if b then 0x02 else 0x03
    case Int32(_) => 0x04
    case Int64(_) => 0x05
    case Float64(_) => 0x06
    case String(_) => 0x07
    case Binary(_) => 0x08
    case Document(_) => TAG_DOCUMENT
    case Array(_) => TAG_ARRAY
    case Timestamp(_) => 0x0B
    case ObjectId(_) => 0x0C
    case Decimal128(_) => 0x0D
    case BlobRef(_, _) => 0x0F
    case GeoPoint(_, _) => 0x10
    case GeoJson(_) => 0x11
  }

  function Prefixed(s: Text): Text {
    VarintBytes(|s|) + s
  }

  function EncodeField(f: (Text, ObeValue)): Text
    decreases f
  {
    Prefixed(f.0) + ([TypeTag(f.1)] + EncodeValue(f.1))
  }

  function EncodeFields(fields: Fields): Text
    decreases fields
  {
    if |fields| == 0 then [] else EncodeField(fields[0]) + EncodeFields(fields[1..])
  }

  function EncodeElems(elems: seq<ObeValue>): Text
    decreases elems
  {
    if |elems| == 0 then []
    else [TypeTag(elems[0])] + EncodeValue(elems[0]) + EncodeElems(elems[1..])
  }

  function EncodeValue(v: ObeValue): Text
    decreases v
  {
    match v
    case Null => []
    case Bool(_) => []
    case Int32(i) => Le(Wrap(i, TWO_31), 4)
    case Int64(l) => Le(Wrap(l, TWO_63), 8)
    case Float64(bits) => Le(bits, 8)
    case String(s) => Prefixed(s)
    case Binary(data) => Prefixed(data)
    case Document(entries) => VarintBytes(|entries|) + EncodeFields(entries)
    case Array(elems) => VarintBytes(|elems|) + EncodeElems(elems)
    case Timestamp(ts) => Le(ts, 8)
    case ObjectId(oid) => oid
    case Decimal128(d) => d
    case BlobRef(blobId, totalSize) => blobId + Le(totalSize, 8)
    case GeoPoint(lat, lng) => Le(lat, 8) + Le(lng, 8)
    case GeoJson(json) => Prefixed(json)
  }

  /** The header without the length: id, transaction id and tombstone flag. */
  function Header(doc: ObeDocument): Text {
    doc.id + Le(doc.txid, 8) + [if doc.tombstone then 0xFF else 0x00]
  }

  function Body(doc: ObeDocument): Text {
    Header(doc) + (VarintBytes(|doc.fields|) + EncodeFields(doc.fields))
  }

  /** `ObeDocument::encode`. */
  function Encode(doc: ObeDocument): Decoded<Text> {
    var total := 4 + |Body(doc)|;
    if total > MAX_DOCUMENT_SIZE then Err(DocumentTooLarge)
    else Ok(Le(total % TWO_32, 4) + Body(doc), total)
  }

  // ---- Decoder ----

  /** A varint length and that many bytes. */
  function TakePrefixed(buf: Text): (r: Decoded<Text>)
    ensures r.Ok? ==> 0 < r.used <= |buf|
  {
    match DecodeVarint(buf)
    case Err(e) => Err(e)
    case Ok(len, start) =>
      if |buf| < start + len then Err(EncodingError)
      else Ok(buf[start..start + len], start + len)
  }

  function KnownTag(b: byte): bool { 0x01 <= b <= 0x11 }

  function DecodeField(buf: Text, depth: nat): (r: Decoded<(Text, ObeValue)>)
    ensures r.Ok? ==> 2 <= r.used <= |buf|
    decreases |buf|, 0
  {
    if depth > MAX_NESTING_DEPTH then Err(InputValidation)
    else
      match DecodeVarint(buf)
      case Err(e) => Err(e)
      case Ok(len, start) =>
        if len > MAX_FIELD_NAME_BYTES then Err(InputValidation)
        else if |buf| < start + len then Err(EncodingError)
        else
          var name := buf[start..start + len];
          var pos := start + len;
          if !ValidUtf8(name) then Err(EncodingError)
          else if pos >= |buf| then Err(EncodingError)
          else if !KnownTag(buf[pos]) then Err(UnknownTypeTag(buf[pos]))
          else
            match DecodeValue(buf[pos], buf[pos + 1..], depth)
            case Err(e) => Err(e)
            case Ok(v, used) => Ok((name, v), pos + 1 + used)
  }

  /** The loop over `count` fields, inserting each into the map built so far. */
  function DecodeFields(buf: Text, count: nat, depth: nat, acc: Fields): (r: Decoded<Fields>)
    ensures r.Ok? ==> r.used <= |buf|
    decreases |buf|, 1
  {
    if count == 0 then Ok(acc, 0)
    else
      match DecodeField(buf, depth)
      case Err(e) => Err(e)
      case Ok(f, used) =>
        match DecodeFields(buf[used..], count - 1, depth, TextMap.Insert(acc, f.0, f.1))
        case Err(e) => Err(e)
        case Ok(fields, rest) => Ok(fields, used + rest)
  }

  /** The loop over `count` array elements, each a tag and a value. */
  function DecodeElems(buf: Text, count: nat, depth: nat, acc: seq<ObeValue>): (r: Decoded<seq<ObeValue>>)
    ensures r.Ok? ==> r.used <= |buf| && |r.value| == |acc| + count
    decreases |buf|, 1
  {
    if count == 0 then Ok(acc, 0)
    else if |buf| == 0 then Err(EncodingError)
    else if !KnownTag(buf[0]) then Err(UnknownTypeTag(buf[0]))
    else
      match DecodeValue(buf[0], buf[1..], depth)
      case Err(e) => Err(e)
      case Ok(v, used) =>
        match DecodeElems(buf[1 + used..], count - 1, depth, acc + [v])
        case Err(e) => Err(e)
        case Ok(elems, rest) => Ok(elems, 1 + used + rest)
  }

  /** The values whose length is fixed or length-prefixed. */
  function DecodeScalar(tag: byte, buf: Text): (r: Decoded<ObeValue>)
    requires KnownTag(tag) && tag != TAG_DOCUMENT && tag != TAG_ARRAY
    ensures r.Ok? ==> r.used <= |buf|
    ensures r.Ok? ==> !r.value.Document? && !r.value.Array?
  {
    Pow256Values();
    if tag == 0x01 then Ok(Null, 0)
    else if tag == 0x02 then Ok(Bool(true), 0)
    else if tag == 0x03 then Ok(Bool(false), 0)
    else if tag == 0x04 then
      if |buf| < 4 then Err(EncodingError)
      else FromLeBound(buf[..4]); Ok(Int32(Signed(FromLe(buf[..4]), TWO_31)), 4)
    else if tag == 0x05 then
      if |buf| < 8 then Err(EncodingError)
      else FromLeBound(buf[..8]); Ok(Int64(Signed(FromLe(buf[..8]), TWO_63)), 8)
    else if tag == 0x06 then
      if |buf| < 8 then Err(EncodingError)
      else FromLeBound(buf[..8]); Ok(Float64(FromLe(buf[..8])), 8)
    else if tag == 0x07 then
      match TakePrefixed(buf)
      case Err(e) => Err(e)
      case Ok(s, used) => if ValidUtf8(s) then Ok(String(s), used) else Err(EncodingError)
    else if tag == 0x08 then
      match TakePrefixed(buf)
      case Err(e) => Err(e)
      case Ok(s, used) => Ok(Binary(s), used)
    else if tag == 0x0B then
      if |buf| < 8 then Err(EncodingError)
      else FromLeBound(buf[..8]); Ok(Timestamp(FromLe(buf[..8])), 8)
    else if tag == 0x0C then
      if |buf| < 12 then Err(EncodingError) else Ok(ObjectId(buf[..12]), 12)
    else if tag == 0x0D then
      if |buf| < 16 then Err(EncodingError) else Ok(Decimal128(buf[..16]), 16)
    else if tag == 0x0E then
      DecodeVarintBelow(buf);
      match DecodeVarint(buf)
      case Err(e) => Err(e)
      case Ok(v, used) => Ok(Int64(Signed(v, TWO_63)), used)
    else if tag == 0x0F then
      if |buf| < 24 then Err(EncodingError)
      else FromLeBound(buf[16..24]); Ok(BlobRef(buf[..16], FromLe(buf[16..24])), 24)
    else if tag == 0x10 then
      if |buf| < 16 then Err(EncodingError)
      else
        FromLeBound(buf[..8]);
        FromLeBound(buf[8..16]);
        Ok(GeoPoint(FromLe(buf[..8]), FromLe(buf[8..16])), 16)
    else
      match TakePrefixed(buf)
      case Err(e) => Err(e)
      case Ok(s, used) => Ok(GeoJson(s), used)
  }

  function DecodeValue(tag: byte, buf: Text, depth: nat): (r: Decoded<ObeValue>)
    requires KnownTag(tag)
    ensures r.Ok? ==> r.used <= |buf|
    decreases |buf|, 0
  {
    if tag == TAG_DOCUMENT then
      match DecodeVarint(buf)
      case Err(e) => Err(e)
      case Ok(count, pos) =>
        (match DecodeFields(buf[pos..], count, depth + 1, [])
         case Err(e) => Err(e)
         case Ok(fields, used) => Ok(Document(fields), pos + used))
    else if tag == TAG_ARRAY then
      match DecodeVarint(buf)
      case Err(e) => Err(e)
      case Ok(count, pos) =>
        if count > MAX_ARRAY_LEN then Err(InputValidation)
        else
          (match DecodeElems(buf[pos..], count, depth + 1, [])
           case Err(e) => Err(e)
           case Ok(elems, used) => Ok(Array(elems), pos + used))
    else DecodeScalar(tag, buf)
  }

  /** `ObeDocument::decode`. Like the code, it reads the fields from the whole buffer: the
      declared length is only compared with the buffer's. */
  function Decode(buf: Text): Decoded<ObeDocument> {
    if |buf| < 29 then Err(EncodingError)
    else if |buf| < FromLe(buf[..4]) then Err(EncodingError)
    else
      Pow256Values();
      FromLeBound(buf[20..28]);
      match DecodeVarint(buf[29..])
      case Err(e) => Err(e)
      case Ok(count, len) =>
        match DecodeFields(buf[29 + len..], count, 0, [])
        case Err(e) => Err(e)
        case Ok(fields, used) =>
          Ok(ObeDocument(buf[4..20], FromLe(buf[20..28]), buf[28] == 0xFF, fields), 29 + len + used)
  }

  // ---- The decoder's limits ----

  predicate Within(v: ObeValue, depth: nat) {
    match v
    case Document(entries) =>
      forall i :: 0 <= i < |entries| ==>
        depth + 1 <= MAX_NESTING_DEPTH
        && |entries[i].0| <= MAX_FIELD_NAME_BYTES
        && Within(entries[i].1, depth + 1)
    case Array(elems) =>
      |elems| <= MAX_ARRAY_LEN && forall i :: 0 <= i < |elems| ==> Within(elems[i], depth + 1)
    case _ => true
  }

  predicate FieldWithin(f: (Text, ObeValue), depth: nat) {
    depth <= MAX_NESTING_DEPTH && |f.0| <= MAX_FIELD_NAME_BYTES && Within(f.1, depth)
  }

  predicate FieldsWithin(fields: Fields, depth: nat) {
    forall i :: 0 <= i < |fields| ==> FieldWithin(fields[i], depth)
  }

  /** Elements that Rust's types and the decoder's limits allow in an array at `depth`. */
  predicate ElemsWithin(elems: seq<ObeValue>, depth: nat) {
    forall i :: 0 <= i < |elems| ==> WellFormed(elems[i]) && Within(elems[i], depth)
  }

  predicate WithinLimits(doc: ObeDocument) {
    FieldsWithin(doc.fields, 0)
  }

  // ---- Decoding what was encoded ----

  lemma TakePrefixedOf(s: Text, suffix: Text)
    requires |s| < TWO_64
    ensures TakePrefixed(Prefixed(s) + suffix) == Ok(s, |Prefixed(s)|)
  {
    var buf := Prefixed(s) + suffix;
    assert buf == VarintBytes(|s|) + (s + suffix);
    DecodeVarintBytes(|s|, s + suffix);
    assert buf[|VarintBytes(|s|)|..|VarintBytes(|s|)| + |s|] == s;
  }

  lemma TakeLe(v: nat, n: nat, suffix: Text)
    requires v < Pow256(n)
    ensures FromLe((Le(v, n) + suffix)[..n]) == v
  {}

  lemma SignedWrap(v: int, half: nat)
    requires 0 - half <= v < half
    ensures Signed(Wrap(v, half), half) == v
  {}

  lemma TakeTwo(buf: Text, a: Text, b: Text, suffix: Text)
    requires buf == a + b + suffix
    ensures buf[..|a|] == a && buf[|a|..|a| + |b|] == b
  {}

  lemma DecodeEncodedNumber(v: ObeValue, buf: Text, suffix: Text)
    requires v.Int32? || v.Int64? || v.Float64? || v.Timestamp?
    requires buf == EncodeValue(v) + suffix
    ensures DecodeScalar(TypeTag(v), buf) == Ok(v, |EncodeValue(v)|)
  {
    Pow256Values();
    match v
    case Int32(i) => TakeLe(Wrap(i, TWO_31), 4, suffix); SignedWrap(i, TWO_31);
    case Int64(l) => TakeLe(Wrap(l, TWO_63), 8, suffix); SignedWrap(l, TWO_63);
    case Float64(bits) => TakeLe(bits, 8, suffix);
    case Timestamp(ts) => TakeLe(ts, 8, suffix);
  }

  lemma DecodeEncodedBlobRef(v: ObeValue, buf: Text, suffix: Text)
    requires v.BlobRef? && buf == EncodeValue(v) + suffix
    ensures DecodeScalar(TypeTag(v), buf) == Ok(v, |EncodeValue(v)|)
  {
    Pow256Values();
    TakeTwo(buf, v.blobId, Le(v.totalSize, 8), suffix);
    FromLeLe(v.totalSize, 8);
  }

  lemma DecodeEncodedGeoPoint(v: ObeValue, buf: Text, suffix: Text)
    requires v.GeoPoint? && buf == EncodeValue(v) + suffix
    ensures DecodeScalar(TypeTag(v), buf) == Ok(v, |EncodeValue(v)|)
  {
    Pow256Values();
    TakeTwo(buf, Le(v.lat, 8), Le(v.lng, 8), suffix);
    FromLeLe(v.lat, 8);
    FromLeLe(v.lng, 8);
  }

  lemma DecodeEncodedScalar(v: ObeValue, buf: Text, suffix: Text)
    requires !v.Document? && !v.Array?
    requires |EncodeValue(v)| < TWO_64
    requires buf == EncodeValue(v) + suffix
    ensures DecodeScalar(TypeTag(v), buf) == Ok(v, |EncodeValue(v)|)
  {
    match v
    case Null =>
    case Bool(_) =>
    case String(s) => TakePrefixedOf(s, suffix);
    case Binary(data) => TakePrefixedOf(data, suffix);
    case GeoJson(json) => TakePrefixedOf(json, suffix);
    case ObjectId(oid) => assert buf[..12] == oid;
    case Decimal128(d) => assert buf[..16] == d;
    case BlobRef(_, _) => DecodeEncodedBlobRef(v, buf, suffix);
    case GeoPoint(_, _) => DecodeEncodedGeoPoint(v, buf, suffix);
    case _ => DecodeEncodedNumber(v, buf, suffix);
  }

  lemma {:induction false} EncodedFieldsLength(fields: Fields)
    ensures |fields| <= |EncodeFields(fields)|
  {
    if |fields| > 0 { EncodedFieldsLength(fields[1..]); }
  }

  /** Each decoder takes exactly the bytes its encoder wrote, whatever follows them. */
  lemma {:induction false} DecodeEncodedValue(v: ObeValue, depth: nat, buf: Text, suffix: Text)
    requires WellFormed(v) && Within(v, depth) && |EncodeValue(v)| < TWO_64
    requires buf == EncodeValue(v) + suffix
    ensures DecodeValue(TypeTag(v), buf, depth) == Ok(v, |EncodeValue(v)|)
    decreases v
  {
    match v
    case Document(entries) =>
      var n := |VarintBytes(|entries|)|;
      EncodedFieldsLength(entries);
      CountThen(|entries|, EncodeFields(entries), suffix);
      EmptyFirst(entries);
      DecodeEncodedFields(entries, depth + 1, [], EncodeFields(entries) + suffix, suffix);
      DecodeDocumentStep(buf, depth, entries, n, EncodeFields(entries) + suffix, |EncodeFields(entries)|);
    case Array(elems) =>
      var n := |VarintBytes(|elems|)|;
      CountThen(|elems|, EncodeElems(elems), suffix);
      EmptyFirst(elems);
      DecodeEncodedElems(elems, depth + 1, [], EncodeElems(elems) + suffix, suffix);
      DecodeArrayStep(buf, depth, elems, n, EncodeElems(elems) + suffix, |EncodeElems(elems)|);
    case _ => DecodeEncodedScalar(v, buf, suffix);
  }

  lemma DecodeDocumentStep(buf: Text, depth: nat, entries: Fields, start: nat, rest: Text, used: nat)
    requires start <= |buf| && buf[start..] == rest && DecodeVarint(buf) == Ok(|entries|, start)
    requires DecodeFields(rest, |entries|, depth + 1, []) == Ok(entries, used)
    ensures DecodeValue(TAG_DOCUMENT, buf, depth) == Ok(Document(entries), start + used)
  {}

  lemma DecodeArrayStep(buf: Text, depth: nat, elems: seq<ObeValue>, start: nat, rest: Text, used: nat)
    requires start <= |buf| && buf[start..] == rest && DecodeVarint(buf) == Ok(|elems|, start) && |elems| <= MAX_ARRAY_LEN
    requires DecodeElems(rest, |elems|, depth + 1, []) == Ok(elems, used)
    ensures DecodeValue(TAG_ARRAY, buf, depth) == Ok(Array(elems), start + used)
  {}

  lemma EmptyFirst<T>(s: seq<T>)
    ensures [] + s == s
  {}

  /** A count followed by `rest` and then anything: the count is read and `rest` is next. */
  lemma CountThen(count: nat, rest: Text, suffix: Text)
    requires count < TWO_64
    ensures var n := VarintBytes(count);
            DecodeVarint(n + rest + suffix) == Ok(count, |n|) && (n + rest + suffix)[|n|..] == rest + suffix
  {
    var n := VarintBytes(count);
    assert n + rest + suffix == n + (rest + suffix);
    DecodeVarintBytes(count, rest + suffix);
  }

  lemma {:induction false} DecodeEncodedField(f: (Text, ObeValue), depth: nat, buf: Text, suffix: Text)
    requires ValidUtf8(f.0) && WellFormed(f.1) && FieldWithin(f, depth)
    requires |EncodeField(f)| < TWO_64
    requires buf == EncodeField(f) + suffix
    ensures DecodeField(buf, depth) == Ok(f, |EncodeField(f)|)
    decreases f
  {
    var start, used := |VarintBytes(|f.0|)|, |EncodeValue(f.1)|;
    FieldLayout(buf, f.0, TypeTag(f.1), EncodeValue(f.1), suffix);
    DecodeEncodedValue(f.1, depth, buf[start + |f.0| + 1..], suffix);
    DecodeFieldStep(buf, depth, start, f, used);
  }

  lemma DecodeFieldStep(buf: Text, depth: nat, start: nat, f: (Text, ObeValue), used: nat)
    requires depth <= MAX_NESTING_DEPTH && |f.0| <= MAX_FIELD_NAME_BYTES && ValidUtf8(f.0)
    requires DecodeVarint(buf) == Ok(|f.0|, start)
    requires var pos := start + |f.0|;
             pos < |buf| && buf[start..pos] == f.0 && KnownTag(buf[pos])
             && DecodeValue(buf[pos], buf[pos + 1..], depth) == Ok(f.1, used)
    ensures DecodeField(buf, depth) == Ok(f, start + |f.0| + 1 + used)
  {}

  lemma FieldLayout(buf: Text, name: Text, tag: byte, value: Text, suffix: Text)
    requires |name| < TWO_64
    requires buf == Prefixed(name) + ([tag] + value) + suffix
    ensures var n := |VarintBytes(|name|)|; var pos := n + |name|;
            DecodeVarint(buf) == Ok(|name|, n) && |Prefixed(name)| == pos && buf[n..pos] == name
            && pos < |buf| && buf[pos] == tag && buf[pos + 1..] == value + suffix
  {
    var n := VarintBytes(|name|);
    NameLayout(buf, n, name, tag, value, suffix);
    DecodeVarintBytes(|name|, name + ([tag] + value + suffix));
  }

  lemma NameLayout(buf: Text, n: Text, name: Text, tag: byte, value: Text, suffix: Text)
    requires buf == n + name + ([tag] + value) + suffix
    ensures var pos := |n| + |name|;
            buf == n + (name + ([tag] + value + suffix)) && buf[|n|..pos] == name
            && pos < |buf| && buf[pos] == tag && buf[pos + 1..] == value + suffix
  {}

  lemma {:induction false} DecodeEncodedFields(fields: Fields, depth: nat, acc: Fields, buf: Text, suffix: Text)
    requires WellFormedFields(fields) && TextMap.Sorted(acc + fields)
    requires FieldsWithin(fields, depth)
    requires |EncodeFields(fields)| < TWO_64
    requires buf == EncodeFields(fields) + suffix
    ensures DecodeFields(buf, |fields|, depth, acc) == Ok(acc + fields, |EncodeFields(fields)|)
    decreases fields
  {
    if |fields| == 0 {
      assert acc + fields == acc;
    } else {
      var f, rest := fields[0], fields[1..];
      var bytes, tail := EncodeField(f), EncodeFields(rest);
      DecodeEncodedField(f, depth, bytes + (tail + suffix), tail + suffix);
      EmptyMiddle(acc, f, rest, fields);
      TextMap.SortedPrefix(acc + [f], rest);
      TextMap.InsertLast(acc, f.0, f.1);
      DecodeEncodedFields(rest, depth, acc + [f], tail + suffix, suffix);
      DecodeFieldsStep(buf, |fields|, depth, acc, f, bytes, tail, suffix, acc + fields);
    }
  }

  lemma DecodeFieldsStep(buf: Text, count: nat, depth: nat, acc: Fields, f: (Text, ObeValue), bytes: Text,
                         tail: Text, suffix: Text, fields: Fields)
    requires count > 0 && buf == bytes + tail + suffix
    requires DecodeField(bytes + (tail + suffix), depth) == Ok(f, |bytes|)
    requires DecodeFields(tail + suffix, count - 1, depth, TextMap.Insert(acc, f.0, f.1)) == Ok(fields, |tail|)
    ensures DecodeFields(buf, count, depth, acc) == Ok(fields, |bytes + tail|)
  {
    SplitAfter(buf, bytes, tail, suffix);
    DecodeFieldsTurn(buf, count, depth, acc, f, |bytes|, fields, |tail|);
  }

  lemma DecodeFieldsTurn(buf: Text, count: nat, depth: nat, acc: Fields, f: (Text, ObeValue), used: nat,
                         fields: Fields, rest: nat)
    requires count > 0 && used <= |buf|
    requires DecodeField(buf, depth) == Ok(f, used)
    requires DecodeFields(buf[used..], count - 1, depth, TextMap.Insert(acc, f.0, f.1)) == Ok(fields, rest)
    ensures DecodeFields(buf, count, depth, acc) == Ok(fields, used + rest)
  {}

  lemma SplitAfter(buf: Text, first: Text, rest: Text, suffix: Text)
    requires buf == first + rest + suffix
    ensures buf == first + (rest + suffix) && buf[|first|..] == rest + suffix
  {}

  lemma {:induction false} DecodeEncodedElems(elems: seq<ObeValue>, depth: nat, acc: seq<ObeValue>, buf: Text, suffix: Text)
    requires ElemsWithin(elems, depth)
    requires |EncodeElems(elems)| < TWO_64
    requires buf == EncodeElems(elems) + suffix
    ensures DecodeElems(buf, |elems|, depth, acc) == Ok(acc + elems, |EncodeElems(elems)|)
    decreases elems
  {
    if |elems| == 0 {
      assert acc + elems == acc;
    } else {
      var v, rest := elems[0], elems[1..];
      var bytes, tail := EncodeValue(v), EncodeElems(rest);
      DecodeEncodedValue(v, depth, bytes + (tail + suffix), tail + suffix);
      EmptyMiddle(acc, v, rest, elems);
      DecodeEncodedElems(rest, depth, acc + [v], tail + suffix, suffix);
      DecodeElemsStep(buf, |elems|, depth, acc, v, bytes, tail, suffix, acc + elems);
    }
  }

  lemma EmptyMiddle<T>(acc: seq<T>, first: T, rest: seq<T>, all: seq<T>)
    requires all == [first] + rest
    ensures acc + [first] + rest == acc + all
  {}

  lemma DecodeElemsStep(buf: Text, count: nat, depth: nat, acc: seq<ObeValue>, v: ObeValue, bytes: Text,
                        tail: Text, suffix: Text, elems: seq<ObeValue>)
    requires count > 0 && buf == [TypeTag(v)] + bytes + tail + suffix
    requires DecodeValue(TypeTag(v), bytes + (tail + suffix), depth) == Ok(v, |bytes|)
    requires DecodeElems(tail + suffix, count - 1, depth, acc + [v]) == Ok(elems, |tail|)
    ensures DecodeElems(buf, count, depth, acc) == Ok(elems, |[TypeTag(v)] + bytes + tail|)
  {
    ElemLayout(buf, TypeTag(v), bytes, tail, suffix);
    DecodeElemsTurn(buf, count, depth, acc, v, |bytes|, elems, |tail|);
  }

  lemma DecodeElemsTurn(buf: Text, count: nat, depth: nat, acc: seq<ObeValue>, v: ObeValue, used: nat,
                        elems: seq<ObeValue>, rest: nat)
    requires count > 0 && |buf| > 0 && KnownTag(buf[0]) && used < |buf|
    requires DecodeValue(buf[0], buf[1..], depth) == Ok(v, used)
    requires DecodeElems(buf[1 + used..], count - 1, depth, acc + [v]) == Ok(elems, rest)
    ensures DecodeElems(buf, count, depth, acc) == Ok(elems, 1 + used + rest)
  {}

  lemma ElemLayout(buf: Text, tag: byte, value: Text, rest: Text, suffix: Text)
    requires buf == [tag] + value + rest + suffix
    ensures buf[0] == tag && buf[1..] == value + (rest + suffix) && buf[1 + |value|..] == rest + suffix
  {}

  // ---- What the decoder yields ----

  lemma {:induction false} DecodedValueWithin(tag: byte, buf: Text, depth: nat)
    requires KnownTag(tag)
    ensures var r := DecodeValue(tag, buf, depth);
            r.Ok? ==> WellFormed(r.value) && Within(r.value, depth)
    decreases |buf|, 0
  {
    var n := DecodeVarint(buf);
    if tag == TAG_DOCUMENT && n.Ok? {
      DecodedFieldsWithin(buf[n.used..], n.value, depth + 1, []);
    } else if tag == TAG_ARRAY && n.Ok? && n.value <= MAX_ARRAY_LEN {
      DecodedElemsWithin(buf[n.used..], n.value, depth + 1, []);
    }
  }

  lemma {:induction false} DecodedFieldWithin(buf: Text, depth: nat)
    ensures var r := DecodeField(buf, depth);
            r.Ok? ==> ValidUtf8(r.value.0) && WellFormed(r.value.1) && FieldWithin(r.value, depth)
    decreases |buf|, 0
  {
    var n := DecodeVarint(buf);
    if n.Ok? && n.used + n.value < |buf| && KnownTag(buf[n.used + n.value]) {
      var pos := n.used + n.value;
      DecodedValueWithin(buf[pos], buf[pos + 1..], depth);
    }
  }

  lemma InsertWithin(acc: Fields, f: (Text, ObeValue), depth: nat)
    requires WellFormedFields(acc) && FieldsWithin(acc, depth)
    requires ValidUtf8(f.0) && WellFormed(f.1) && FieldWithin(f, depth)
    ensures var r := TextMap.Insert(acc, f.0, f.1); WellFormedFields(r) && FieldsWithin(r, depth)
  {
    TextMap.InsertSorted(acc, f.0, f.1);
    TextMap.InsertMembers(acc, f.0, f.1);
    var r := TextMap.Insert(acc, f.0, f.1);
    assert f == (f.0, f.1);
    forall i | 0 <= i < |r| ensures FieldWithin(r[i], depth) {
      assert r[i] in r;
    }
  }

  lemma {:induction false} DecodedFieldsWithin(buf: Text, count: nat, depth: nat, acc: Fields)
    requires WellFormedFields(acc) && FieldsWithin(acc, depth)
    ensures var r := DecodeFields(buf, count, depth, acc);
            r.Ok? ==> WellFormedFields(r.value) && FieldsWithin(r.value, depth)
    decreases |buf|, 1
  {
    if count > 0 {
      DecodedFieldWithin(buf, depth);
      var d := DecodeField(buf, depth);
      if d.Ok? {
        InsertWithin(acc, d.value, depth);
        DecodedFieldsWithin(buf[d.used..], count - 1, depth, TextMap.Insert(acc, d.value.0, d.value.1));
      }
    }
  }

  lemma AppendWithin(acc: seq<ObeValue>, v: ObeValue, depth: nat)
    requires ElemsWithin(acc, depth) && WellFormed(v) && Within(v, depth)
    ensures ElemsWithin(acc + [v], depth)
  {}

  lemma ElemsUnfold(buf: Text, count: nat, depth: nat, acc: seq<ObeValue>) returns (v: ObeValue, rest: Text)
    requires count > 0 && DecodeElems(buf, count, depth, acc).Ok?
    ensures |rest| < |buf| && KnownTag(buf[0])
    ensures DecodeValue(buf[0], buf[1..], depth).Ok? && DecodeValue(buf[0], buf[1..], depth).value == v
    ensures var tail := DecodeElems(rest, count - 1, depth, acc + [v]);
            tail.Ok? && tail.value == DecodeElems(buf, count, depth, acc).value
  {
    var d := DecodeValue(buf[0], buf[1..], depth);
    v, rest := d.value, buf[1 + d.used..];
  }

  lemma {:induction false} DecodedElemsWithin(buf: Text, count: nat, depth: nat, acc: seq<ObeValue>)
    requires ElemsWithin(acc, depth)
    ensures var r := DecodeElems(buf, count, depth, acc);
            r.Ok? ==> ElemsWithin(r.value, depth)
    decreases |buf|, 1
  {
    if count > 0 && DecodeElems(buf, count, depth, acc).Ok? {
      var v, rest := ElemsUnfold(buf, count, depth, acc);
      DecodedValueWithin(buf[0], buf[1..], depth);
      AppendWithin(acc, v, depth);
      DecodedElemsWithin(rest, count - 1, depth, acc + [v]);
    }
  }

  // ---- Documents ----

  /** Decoder totality: any byte string at all gives an error or a document within the
      limits, read from no more bytes than there are. */
  lemma DecodedWithinLimits(buf: Text)
    ensures var r := Decode(buf);
            r.Ok? ==> r.used <= |buf| && WellFormedFields(r.value.fields) && WithinLimits(r.value)
  {
    if |buf| >= 29 {
      var n := DecodeVarint(buf[29..]);
      if n.Ok? { DecodedFieldsWithin(buf[29 + n.used..], n.value, 0, []); }
    }
  }

  /** Where the parts of an encoded document are. */
  lemma DocumentLayout(buf: Text, length: Text, id: Text, txid: Text, flag: byte, tail: Text)
    requires |length| == 4 && |id| == 16 && |txid| == 8
    requires buf == length + (id + txid + [flag] + tail)
    ensures |buf| >= 29 && buf[..4] == length && buf[4..20] == id && buf[20..28] == txid
            && buf[28] == flag && buf[29..] == tail
  {}

  lemma WithSuffix(buf: Text, bytes: Text, count: Text, fields: Text, suffix: Text)
    requires |bytes| >= 29 && bytes[29..] == count + fields && buf == bytes + suffix
    ensures forall i, j :: 0 <= i <= j <= 29 ==> buf[i..j] == bytes[i..j]
    ensures buf[28] == bytes[28] && buf[29..] == count + (fields + suffix)
  {}

  lemma DecodeParts(buf: Text, doc: ObeDocument, count: Text, fields: Text, used: nat)
    requires |buf| >= 29 && FromLe(buf[..4]) <= |buf|
    requires buf[4..20] == doc.id && buf[20..28] == Le(doc.txid, 8)
    requires buf[28] == (if doc.tombstone then 0xFF else 0x00)
    requires buf[29..] == count + fields
    requires DecodeVarint(count + fields) == Ok(|doc.fields|, |count|)
    requires DecodeFields(fields, |doc.fields|, 0, []) == Ok(doc.fields, used)
    ensures Decode(buf) == Ok(doc, 29 + |count| + used)
  {
    Pow256Values();
    FromLeLe(doc.txid, 8);
    assert buf[29 + |count|..] == buf[29..][|count|..] == fields;
  }

  lemma EncodedLayout(doc: ObeDocument, buf: Text, suffix: Text)
    requires Encode(doc).Ok? && buf == Encode(doc).value + suffix
    ensures |buf| >= 29 && FromLe(buf[..4]) <= |buf|
    ensures buf[4..20] == doc.id && buf[20..28] == Le(doc.txid, 8)
    ensures buf[28] == (if doc.tombstone then 0xFF else 0x00)
    ensures buf[29..] == VarintBytes(|doc.fields|) + (EncodeFields(doc.fields) + suffix)
    ensures |Encode(doc).value| == 29 + |VarintBytes(|doc.fields|)| + |EncodeFields(doc.fields)|
  {
    var total, flag: byte := 4 + |Body(doc)|, if doc.tombstone then 0xFF else 0x00;
    var count, fields, bytes := VarintBytes(|doc.fields|), EncodeFields(doc.fields), Encode(doc).value;
    DocumentLayout(bytes, Le(total, 4), doc.id, Le(doc.txid, 8), flag, count + fields);
    WithSuffix(buf, bytes, count, fields, suffix);
    assert buf[..4] == buf[0..4] && bytes[0..4] == bytes[..4];
    Pow256Values();
    FromLeLe(total, 4);
  }

  lemma DecodeLaidOut(doc: ObeDocument, buf: Text, suffix: Text)
    requires WellFormedFields(doc.fields) && WithinLimits(doc) && |EncodeFields(doc.fields)| < TWO_64
    requires |buf| >= 29 && FromLe(buf[..4]) <= |buf|
    requires buf[4..20] == doc.id && buf[20..28] == Le(doc.txid, 8)
    requires buf[28] == (if doc.tombstone then 0xFF else 0x00)
    requires buf[29..] == VarintBytes(|doc.fields|) + (EncodeFields(doc.fields) + suffix)
    ensures Decode(buf) == Ok(doc, 29 + |VarintBytes(|doc.fields|)| + |EncodeFields(doc.fields)|)
  {
    var count, fields := VarintBytes(|doc.fields|), EncodeFields(doc.fields);
    EncodedFieldsLength(doc.fields);
    DecodeVarintBytes(|doc.fields|, fields + suffix);
    EmptyFirst(doc.fields);
    DecodeEncodedFields(doc.fields, 0, [], fields + suffix, suffix);
    DecodeParts(buf, doc, count, fields + suffix, |fields|);
  }

  lemma DecodeEncodedWithin(doc: ObeDocument, buf: Text, suffix: Text)
    requires WellFormedFields(doc.fields) && WithinLimits(doc) && Encode(doc).Ok?
    requires buf == Encode(doc).value + suffix
    ensures Decode(buf) == Ok(doc, |Encode(doc).value|)
  {
    EncodedLayout(doc, buf, suffix);
    DecodeLaidOut(doc, buf, suffix);
  }

  /** The round trip, for every document the encoder accepts and every suffix: it succeeds
      exactly for the documents within the decoder's limits, which the encoder does not
      check (a 256-byte field name is written and then refused). */
  lemma RoundTrip(doc: ObeDocument, suffix: Text)
    requires WellFormedFields(doc.fields) && Encode(doc).Ok?
    ensures Decode(Encode(doc).value + suffix) == Ok(doc, |Encode(doc).value|) <==> WithinLimits(doc)
    ensures Decode(Encode(doc).value + suffix).Ok? && Decode(Encode(doc).value + suffix).value == doc
            <==> WithinLimits(doc)
  {
    DecodedWithinLimits(Encode(doc).value + suffix);
    if WithinLimits(doc) { DecodeEncodedWithin(doc, Encode(doc).value + suffix, suffix); }
  }

  // ---- Arrays in arrays ----

  /** Null inside `n` arrays. */
  function Nested(n: nat): ObeValue { if n == 0 then Null else Array([Nested(n - 1)]) }

  /** Only fields have their depth checked: arrays directly in arrays are within the limits at
      any depth, and each takes two bytes. */
  lemma {:induction false} NestedWithin(n: nat, depth: nat)
    ensures WellFormed(Nested(n)) && Within(Nested(n), depth) && |EncodeValue(Nested(n))| == 2 * n
  {
    if n > 0 {
      NestedWithin(n - 1, depth + 1);
      var elems := [Nested(n - 1)];
      assert Nested(n) == Array(elems) && elems[1..] == [];
      assert VarintBytes(1) == [1];
    }
  }

  /** So the nesting limit does not hold for them: with any number of arrays in arrays a
      document is encoded, up to 16 MiB, and decoded again. */
  lemma NestedArraysDecode(doc: ObeDocument, n: nat)
    requires doc.fields == [([0x61], Nested(n))]
    ensures Encode(doc).Ok? <==> 33 + 2 * n <= MAX_DOCUMENT_SIZE
    ensures Encode(doc).Ok? ==> Decode(Encode(doc).value) == Ok(doc, 33 + 2 * n)
  {
    NestedWithin(n, 0);
    var f := doc.fields[0];
    assert doc.fields[1..] == [] && EncodeFields(doc.fields) == EncodeField(f) + [];
    assert VarintBytes(1) == [1];
    assert |EncodeField(f)| == 3 + 2 * n;
    assert ValidUtf8(f.0) && FieldWithin(f, 0);
    if Encode(doc).Ok? {
      assert Encode(doc).value + [] == Encode(doc).value;
      DecodeEncodedWithin(doc, Encode(doc).value, []);
    }
  }

  /** Whatever was decoded, from canonical bytes or not, decodes to itself once re-encoded. */
  lemma DecodeIsStable(buf: Text, suffix: Text)
    requires Decode(buf).Ok?
    ensures var doc := Decode(buf).value;
            match Encode(doc)
            case Ok(bytes, _) => Decode(bytes + suffix) == Ok(doc, |bytes|)
            case Err(e) => e == DocumentTooLarge && 4 + |Body(doc)| > MAX_DOCUMENT_SIZE
  {
    DecodedWithinLimits(buf);
    if Encode(Decode(buf).value).Ok? { DecodeEncodedWithin(Decode(buf).value, Encode(Decode(buf).value).value + suffix, suffix); }
  }

  /** The limits are real: with a 256-byte field name the encoder succeeds and the decoder
      does not give the document back. */
  lemma NameTooLongToDecode()
    ensures exists doc: ObeDocument ::
              WellFormedFields(doc.fields) && Encode(doc).Ok?
              && Decode(Encode(doc).value + []) != Ok(doc, |Encode(doc).value|)
  {
    var name := seq(256, i => 0x61);
    AsciiIsUtf8(name);
    var doc := ObeDocument(Le(0, 16), 0, false, [(name, Null)]);
    assert doc.fields[1..] == [];
    assert EncodeFields(doc.fields) == EncodeField(doc.fields[0]) + [];
    assert |VarintBytes(256)| == 2 && |VarintBytes(1)| == 1;
    assert !FieldWithin(doc.fields[0], 0);
    RoundTrip(doc, []);
  }
}
