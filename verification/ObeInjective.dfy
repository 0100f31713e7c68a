/** No two documents have the same encoding, and none has an encoding that begins with
    another one's: whether or not the decoder would accept them. */
module ObeInjective {
  import opened Bytes
  import opened ObeValue
  import opened Varint
  import opened ObeCodec

  lemma VarintUnique(m: nat, n: nat, s: Text, t: Text)
    requires m < TWO_64 && n < TWO_64 && VarintBytes(m) + s == VarintBytes(n) + t
    ensures m == n && s == t
  {
    DecodeVarintBytes(m, s);
    DecodeVarintBytes(n, t);
    SplitFront(VarintBytes(m), VarintBytes(n), s, t);
  }

  lemma Assoc(a: Text, b: Text, c: Text)
    ensures a + b + c == a + (b + c)
  {}

  lemma PrefixedUnique(x: Text, y: Text, s: Text, t: Text)
    requires |x| < TWO_64 && |y| < TWO_64 && Prefixed(x) + s == Prefixed(y) + t
    ensures x == y && s == t
  {
    Assoc(VarintBytes(|x|), x, s);
    Assoc(VarintBytes(|y|), y, t);
    VarintUnique(|x|, |y|, x + s, y + t);
    SplitFront(x, y, s, t);
  }

  lemma {:induction false} EncodedElemsLength(elems: seq<ObeValue>)
    ensures |elems| <= |EncodeElems(elems)|
  {
    if |elems| > 0 { EncodedElemsLength(elems[1..]); }
  }

  predicate Short(bytes: Text) { |bytes| < TWO_64 }

  lemma ScalarUnique(a: ObeValue, b: ObeValue, s: Text, t: Text)
    requires TypeTag(a) == TypeTag(b) && !a.Document? && !a.Array?
    requires Short(EncodeValue(a)) && Short(EncodeValue(b)) && EncodeValue(a) + s == EncodeValue(b) + t
    ensures a == b && s == t
  {
    var buf := EncodeValue(a) + s;
    DecodeEncodedScalar(a, buf, s);
    DecodeEncodedScalar(b, buf, t);
    SplitFront(EncodeValue(a), EncodeValue(b), s, t);
  }

  lemma {:induction false} ValueUnique(a: ObeValue, b: ObeValue, s: Text, t: Text)
    requires TypeTag(a) == TypeTag(b)
    requires Short(EncodeValue(a)) && Short(EncodeValue(b)) && EncodeValue(a) + s == EncodeValue(b) + t
    ensures a == b && s == t
    decreases a
  {
    match a
    case Document(entries) => MapUnique(entries, b.entries, s, t);
    case Array(elems) => ArrayUnique(elems, b.elems, s, t);
    case _ => ScalarUnique(a, b, s, t);
  }

  lemma {:induction false} MapUnique(x: Fields, y: Fields, s: Text, t: Text)
    requires Short(EncodeFields(x)) && Short(EncodeFields(y))
    requires VarintBytes(|x|) + EncodeFields(x) + s == VarintBytes(|y|) + EncodeFields(y) + t
    ensures x == y && s == t
    decreases x, 1
  {
    EncodedFieldsLength(x);
    EncodedFieldsLength(y);
    Assoc(VarintBytes(|x|), EncodeFields(x), s);
    Assoc(VarintBytes(|y|), EncodeFields(y), t);
    VarintUnique(|x|, |y|, EncodeFields(x) + s, EncodeFields(y) + t);
    FieldsUnique(x, y, s, t);
  }

  lemma {:induction false} ArrayUnique(x: seq<ObeValue>, y: seq<ObeValue>, s: Text, t: Text)
    requires Short(EncodeElems(x)) && Short(EncodeElems(y))
    requires VarintBytes(|x|) + EncodeElems(x) + s == VarintBytes(|y|) + EncodeElems(y) + t
    ensures x == y && s == t
    decreases x, 1
  {
    EncodedElemsLength(x);
    EncodedElemsLength(y);
    Assoc(VarintBytes(|x|), EncodeElems(x), s);
    Assoc(VarintBytes(|y|), EncodeElems(y), t);
    VarintUnique(|x|, |y|, EncodeElems(x) + s, EncodeElems(y) + t);
    ElemsUnique(x, y, s, t);
  }

  /** A type tag, then bytes that are unique under that tag. */
  lemma TagFirst(tag: byte, x: Text, tag': byte, y: Text, s: Text, t: Text)
    requires [tag] + x + s == [tag'] + y + t
    ensures tag == tag' && x + s == y + t
  {
    Assoc([tag], x, s);
    Assoc([tag'], y, t);
    SplitFront([tag], [tag'], x + s, y + t);
    assert [tag][0] == [tag'][0];
  }

  lemma {:induction false} FieldUnique(f: (Text, ObeValue), g: (Text, ObeValue), s: Text, t: Text)
    requires Short(EncodeField(f)) && Short(EncodeField(g)) && EncodeField(f) + s == EncodeField(g) + t
    ensures f == g && s == t
    decreases f
  {
    var vf, vg := [TypeTag(f.1)] + EncodeValue(f.1), [TypeTag(g.1)] + EncodeValue(g.1);
    Assoc(Prefixed(f.0), vf, s);
    Assoc(Prefixed(g.0), vg, t);
    PrefixedUnique(f.0, g.0, vf + s, vg + t);
    TagFirst(TypeTag(f.1), EncodeValue(f.1), TypeTag(g.1), EncodeValue(g.1), s, t);
    ValueUnique(f.1, g.1, s, t);
  }

  lemma {:induction false} FieldsUnique(x: Fields, y: Fields, s: Text, t: Text)
    requires |x| == |y| && Short(EncodeFields(x)) && Short(EncodeFields(y))
    requires EncodeFields(x) + s == EncodeFields(y) + t
    ensures x == y && s == t
    decreases x, 0
  {
    if |x| == 0 {
      assert [] + s == s && [] + t == t;
    } else {
      var rx, ry := EncodeFields(x[1..]), EncodeFields(y[1..]);
      Assoc(EncodeField(x[0]), rx, s);
      Assoc(EncodeField(y[0]), ry, t);
      FieldUnique(x[0], y[0], rx + s, ry + t);
      FieldsUnique(x[1..], y[1..], s, t);
      assert x == [x[0]] + x[1..] && y == [y[0]] + y[1..];
    }
  }

  lemma {:induction false} ElemsUnique(x: seq<ObeValue>, y: seq<ObeValue>, s: Text, t: Text)
    requires |x| == |y| && Short(EncodeElems(x)) && Short(EncodeElems(y))
    requires EncodeElems(x) + s == EncodeElems(y) + t
    ensures x == y && s == t
    decreases x, 0
  {
    if |x| == 0 {
      assert [] + s == s && [] + t == t;
    } else {
      var vx, vy, rx, ry := EncodeValue(x[0]), EncodeValue(y[0]), EncodeElems(x[1..]), EncodeElems(y[1..]);
      Assoc([TypeTag(x[0])] + vx, rx, s);
      Assoc([TypeTag(y[0])] + vy, ry, t);
      TagFirst(TypeTag(x[0]), vx, TypeTag(y[0]), vy, rx + s, ry + t);
      ValueUnique(x[0], y[0], rx + s, ry + t);
      ElemsUnique(x[1..], y[1..], s, t);
      assert x == [x[0]] + x[1..] && y == [y[0]] + y[1..];
    }
  }

  lemma HeaderUnique(a: ObeDocument, b: ObeDocument, s: Text, t: Text)
    requires Header(a) + s == Header(b) + t
    ensures a.id == b.id && a.txid == b.txid && a.tombstone == b.tombstone && s == t
  {
    var fa: Text, fb: Text := [if a.tombstone then 0xFF else 0x00], [if b.tombstone then 0xFF else 0x00];
    Pow256Values();
    SplitFront(Header(a), Header(b), s, t);
    SplitFront(a.id + Le(a.txid, 8), b.id + Le(b.txid, 8), fa, fb);
    SplitFront(a.id, b.id, Le(a.txid, 8), Le(b.txid, 8));
    FromLeLe(a.txid, 8);
    FromLeLe(b.txid, 8);
    assert fa[0] == fb[0];
  }

  lemma BodyUnique(a: ObeDocument, b: ObeDocument)
    requires Body(a) == Body(b) && Short(Body(a))
    ensures a == b
  {
    var fa, fb := VarintBytes(|a.fields|) + EncodeFields(a.fields), VarintBytes(|b.fields|) + EncodeFields(b.fields);
    HeaderUnique(a, b, fa, fb);
    assert fa + [] == fa && fb + [] == fb;
    MapUnique(a.fields, b.fields, [], []);
  }

  lemma LengthUnique(m: nat, n: nat, x: Text, y: Text, s: Text, t: Text)
    requires m < Pow256(4) && n < Pow256(4) && Le(m, 4) + x + s == Le(n, 4) + y + t
    ensures m == n && x + s == y + t
  {
    Assoc(Le(m, 4), x, s);
    Assoc(Le(n, 4), y, t);
    SplitFront(Le(m, 4), Le(n, 4), x + s, y + t);
    FromLeLe(m, 4);
    FromLeLe(n, 4);
  }

  lemma EncodedParts(doc: ObeDocument)
    requires Encode(doc).Ok?
    ensures 4 + |Body(doc)| < Pow256(4) && Encode(doc).value == Le(4 + |Body(doc)|, 4) + Body(doc)
  {
    Pow256Values();
  }

  /** Equal bytes, whatever follows, mean equal documents. */
  lemma EncodingIsPrefixFree(a: ObeDocument, b: ObeDocument, suffixA: Text, suffixB: Text)
    requires Encode(a).Ok? && Encode(b).Ok?
    requires Encode(a).value + suffixA == Encode(b).value + suffixB
    ensures a == b && suffixA == suffixB
  {
    EncodedParts(a);
    EncodedParts(b);
    LengthUnique(4 + |Body(a)|, 4 + |Body(b)|, Body(a), Body(b), suffixA, suffixB);
    SplitFront(Body(a), Body(b), suffixA, suffixB);
    BodyUnique(a, b);
  }
}
