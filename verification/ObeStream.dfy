/** The OBE encoder and decoder as they run: pushing onto a buffer, and reading with a
    moving position. Each method does what the functions of `ObeCodec` say. */
module ObeStream {
  import opened Bytes
  import opened ObeValue
  import opened ObeCodec
  import opened Varint
  import TextMap

  /** `encode_field`. */
  method WriteField(f: (Text, ObeValue), buf: Buffer)
    modifies buf
    ensures buf.bytes == old(buf.bytes) + EncodeField(f)
    decreases f
  {
    var _ := EncodeVarint(|f.0|, buf);
    buf.Extend(f.0);
    buf.Extend([TypeTag(f.1)]);
    WriteValue(f.1, buf);
  }

  /** The loop over a map's fields, in key order. */
  method WriteFields(fields: Fields, buf: Buffer)
    modifies buf
    ensures buf.bytes == old(buf.bytes) + EncodeFields(fields)
    decreases fields, 1
  {
    var i := 0;
    while i < |fields|
      invariant 0 <= i <= |fields|
      invariant buf.bytes + EncodeFields(fields[i..]) == old(buf.bytes) + EncodeFields(fields)
    {
      WriteField(fields[i], buf);
      i := i + 1;
    }
  }

  /** The loop over an array's elements. */
  method WriteElems(elems: seq<ObeValue>, buf: Buffer)
    modifies buf
    ensures buf.bytes == old(buf.bytes) + EncodeElems(elems)
    decreases elems, 1
  {
    var i := 0;
    while i < |elems|
      invariant 0 <= i <= |elems|
      invariant buf.bytes + EncodeElems(elems[i..]) == old(buf.bytes) + EncodeElems(elems)
    {
      buf.Extend([TypeTag(elems[i])]);
      WriteValue(elems[i], buf);
      i := i + 1;
    }
  }

  /** `encode_value`. */
  method WriteValue(v: ObeValue, buf: Buffer)
    modifies buf
    ensures buf.bytes == old(buf.bytes) + EncodeValue(v)
    decreases v
  {
    match v
    case Document(entries) => WriteMap(entries, buf);
    case Array(elems) => WriteArray(elems, buf);
    case String(s) => WritePrefixed(s, buf);
    case Binary(data) => WritePrefixed(data, buf);
    case GeoJson(json) => WritePrefixed(json, buf);
    case _ => buf.Extend(EncodeValue(v));
  }

  method WriteMap(entries: Fields, buf: Buffer)
    modifies buf
    ensures buf.bytes == old(buf.bytes) + (VarintBytes(|entries|) + EncodeFields(entries))
    decreases entries, 2
  {
    var _ := EncodeVarint(|entries|, buf);
    WriteFields(entries, buf);
  }

  method WriteArray(elems: seq<ObeValue>, buf: Buffer)
    modifies buf
    ensures buf.bytes == old(buf.bytes) + (VarintBytes(|elems|) + EncodeElems(elems))
    decreases elems, 2
  {
    var _ := EncodeVarint(|elems|, buf);
    WriteElems(elems, buf);
  }

  method WritePrefixed(s: Text, buf: Buffer)
    modifies buf
    ensures buf.bytes == old(buf.bytes) + Prefixed(s)
  {
    var _ := EncodeVarint(|s|, buf);
    buf.Extend(s);
  }

  /** `ObeDocument::encode`: the length is filled in last, and checked after that. */
  method WriteDocument(doc: ObeDocument) returns (r: Decoded<Text>)
    ensures r == Encode(doc)
  {
    var buf := new Buffer();
    buf.Extend([0, 0, 0, 0]);
    WriteHeader(doc, buf);
    var _ := EncodeVarint(|doc.fields|, buf);
    WriteFields(doc.fields, buf);
    AfterLength(buf.bytes, [0, 0, 0, 0], Header(doc), VarintBytes(|doc.fields|), EncodeFields(doc.fields));
    var total := |buf.bytes|;
    buf.bytes := Le(total % TWO_32, 4) + buf.bytes[4..];
    if total > MAX_DOCUMENT_SIZE { return Err(DocumentTooLarge); }
    return Ok(buf.bytes, total);
  }

  lemma AfterLength(bytes: Text, zeros: Text, header: Text, count: Text, fields: Text)
    requires |zeros| == 4 && bytes == [] + zeros + header + count + fields
    ensures |bytes| >= 4 && bytes[4..] == header + (count + fields)
  {}

  method WriteHeader(doc: ObeDocument, buf: Buffer)
    modifies buf
    ensures buf.bytes == old(buf.bytes) + Header(doc)
  {
    buf.Extend(doc.id);
    buf.Extend(Le(doc.txid, 8));
    buf.Extend([if doc.tombstone then 0xFF else 0x00]);
  }

  /** The same result, `skipped` bytes further into the buffer. */
  function Later<T>(r: Decoded<T>, skipped: nat): Decoded<T> {
    match r
    case Ok(v, used) => Ok(v, used + skipped)
    case Err(e) => Err(e)
  }

  /** `decode_field`. */
  method ReadField(buf: Text, depth: nat) returns (r: Decoded<(Text, ObeValue)>)
    ensures r == DecodeField(buf, depth)
    decreases |buf|, 0
  {
    if depth > MAX_NESTING_DEPTH { return Err(InputValidation); }
    var n := ReadVarint(buf);
    if n.Err? { return Err(n.error); }
    var pos := n.used;
    if n.value > MAX_FIELD_NAME_BYTES { return Err(InputValidation); }
    if |buf| < pos + n.value { return Err(EncodingError); }
    var name := buf[pos..pos + n.value];
    if !ValidUtf8(name) { return Err(EncodingError); }
    pos := pos + n.value;
    if pos >= |buf| { return Err(EncodingError); }
    var tag := buf[pos];
    if !KnownTag(tag) { return Err(UnknownTypeTag(tag)); }
    pos := pos + 1;
    var v := ReadValue(tag, buf[pos..], depth);
    if v.Err? { return Err(v.error); }
    return Ok((name, v.value), pos + v.used);
  }

  /** `decode_value`. */
  method ReadValue(tag: byte, buf: Text, depth: nat) returns (r: Decoded<ObeValue>)
    requires KnownTag(tag)
    ensures r == DecodeValue(tag, buf, depth)
    decreases |buf|, 1
  {
    if tag != TAG_DOCUMENT && tag != TAG_ARRAY { return DecodeScalar(tag, buf); }
    var n := ReadVarint(buf);
    if n.Err? { return Err(n.error); }
    var start, count := n.used, n.value;
    if tag == TAG_DOCUMENT {
      var fields := ReadFields(buf[start..], count, depth + 1);
      if fields.Err? { return Err(fields.error); }
      return Ok(Document(fields.value), start + fields.used);
    }
    if count > MAX_ARRAY_LEN { return Err(InputValidation); }
    var elems := ReadElems(buf[start..], count, depth + 1);
    if elems.Err? { return Err(elems.error); }
    return Ok(Array(elems.value), start + elems.used);
  }

  /** One turn of the element loop. */
  lemma ElemsAdvance(rest: Text, count: nat, depth: nat, arr: seq<ObeValue>, pos: nat, v: Decoded<ObeValue>,
                     whole: Decoded<seq<ObeValue>>)
    requires count > 0 && |rest| > 0 && KnownTag(rest[0]) && v == DecodeValue(rest[0], rest[1..], depth)
    requires whole == Later(DecodeElems(rest, count, depth, arr), pos)
    ensures v.Err? ==> whole == Err(v.error)
    ensures v.Ok? ==> 1 + v.used <= |rest|
    ensures v.Ok? ==>
      whole == Later(DecodeElems(rest[1 + v.used..], count - 1, depth, arr + [v.value]), pos + 1 + v.used)
  {}

  /** The element loop of `decode_value`; `rest` is what the code writes `&buf[pos..]`. */
  method ReadElems(buf: Text, count: nat, depth: nat) returns (r: Decoded<seq<ObeValue>>)
    ensures r == DecodeElems(buf, count, depth, [])
    decreases |buf|, 2
  {
    ghost var whole := DecodeElems(buf, count, depth, []);
    var arr, rest, pos, left := [], buf, 0, count;
    while left > 0
      invariant 0 <= pos && pos + |rest| == |buf|
      invariant whole == Later(DecodeElems(rest, left, depth, arr), pos)
      decreases left
    {
      if |rest| == 0 { return Err(EncodingError); }
      var tag := rest[0];
      if !KnownTag(tag) { return Err(UnknownTypeTag(tag)); }
      var v := ReadValue(tag, rest[1..], depth);
      ElemsAdvance(rest, left, depth, arr, pos, v, whole);
      if v.Err? { return Err(v.error); }
      arr := arr + [v.value];
      pos := pos + 1 + v.used;
      rest := rest[1 + v.used..];
      left := left - 1;
    }
    return Ok(arr, pos);
  }

  lemma FieldsFail(rest: Text, count: nat, depth: nat, fields: Fields, pos: nat,
                   whole: Decoded<Fields>, f: Decoded<(Text, ObeValue)>)
    requires count > 0 && f == DecodeField(rest, depth) && f.Err?
    requires whole == Later(DecodeFields(rest, count, depth, fields), pos)
    ensures whole == Err(f.error)
  {}

  /** One turn of the field loop. */
  lemma FieldsAdvance(rest: Text, count: nat, depth: nat, fields: Fields, pos: nat,
                      whole: Decoded<Fields>, f: Decoded<(Text, ObeValue)>, rest': Text, fields': Fields, pos': nat)
    requires count > 0 && f == DecodeField(rest, depth)
    requires whole == Later(DecodeFields(rest, count, depth, fields), pos)
    requires f.Ok? && rest' == rest[f.used..] && pos' == pos + f.used
    requires fields' == TextMap.Insert(fields, f.value.0, f.value.1)
    ensures whole == Later(DecodeFields(rest', count - 1, depth, fields'), pos')
  {}

  /** The field loop that `decode` and `decode_value` share. */
  method ReadFields(buf: Text, count: nat, depth: nat) returns (r: Decoded<Fields>)
    ensures r == DecodeFields(buf, count, depth, [])
    decreases |buf|, 2
  {
    ghost var whole := DecodeFields(buf, count, depth, []);
    var fields, rest, pos, left := [], buf, 0, count;
    while left > 0
      invariant 0 <= pos && pos + |rest| == |buf|
      invariant whole == Later(DecodeFields(rest, left, depth, fields), pos)
      decreases left
    {
      var f := ReadField(rest, depth);
      if f.Err? {
        FieldsFail(rest, left, depth, fields, pos, whole, f);
        return Err(f.error);
      }
      ghost var before, past, passed := fields, rest, pos;
      fields := TextMap.Insert(fields, f.value.0, f.value.1);
      pos := pos + f.used;
      rest := rest[f.used..];
      FieldsAdvance(past, left, depth, before, passed, whole, f, rest, fields, pos);
      left := left - 1;
    }
    return Ok(fields, pos);
  }

  /** `ObeDocument::decode`. */
  method ReadDocument(buf: Text) returns (r: Decoded<ObeDocument>)
    ensures r == Decode(buf)
  {
    if |buf| < 29 { return Err(EncodingError); }
    if |buf| < FromLe(buf[..4]) { return Err(EncodingError); }
    Pow256Values();
    FromLeBound(buf[20..28]);
    var n := ReadVarint(buf[29..]);
    if n.Err? { return Err(n.error); }
    var fields := ReadFields(buf[29 + n.used..], n.value, 0);
    if fields.Err? { return Err(fields.error); }
    return Ok(ObeDocument(buf[4..20], FromLe(buf[20..28]), buf[28] == 0xFF, fields.value), 29 + n.used + fields.used);
  }
}
