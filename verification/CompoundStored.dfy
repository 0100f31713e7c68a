/** Compound keys of documents that the engine stores: it encodes a document, and so refuses it
    beyond 16 MiB, before it indexes it. */
module CompoundStored {
  import opened Bytes
  import opened ObeValue
  import opened SecondaryIndex
  import opened CompoundIndex
  import C = ObeCodec
  import TextMap

  lemma {:induction false} FieldInside(fields: Fields, i: nat)
    requires i < |fields|
    ensures |C.EncodeValue(fields[i].1)| <= |C.EncodeFields(fields)|
  {
    if i > 0 { FieldInside(fields[1..], i - 1); }
  }

  lemma {:induction false} ElemInside(elems: seq<ObeValue>, i: nat)
    requires i < |elems|
    ensures |C.EncodeValue(elems[i])| <= |C.EncodeElems(elems)|
  {
    if i > 0 { ElemInside(elems[1..], i - 1); }
  }

  lemma EntryInside(fields: Fields, key: Text)
    ensures var v := TextMap.Get(fields, key); v.Some? ==> |C.EncodeValue(v.value)| <= |C.EncodeFields(fields)|
  {
    TextMap.GetMember(fields, key);
    if v :| TextMap.Get(fields, key) == Some(v) {
      var i :| 0 <= i < |fields| && fields[i] == (key, v);
      FieldInside(fields, i);
    }
  }

  /** A value inside another one has the shorter encoding. */
  lemma {:induction false} WalkInside(v: ObeValue, segments: seq<Text>)
    ensures var r := Walk(v, segments); r.Some? ==> |C.EncodeValue(r.value)| <= |C.EncodeValue(v)|
    decreases |segments|
  {
    if |segments| > 0 {
      match v
      case Document(entries) =>
        EntryInside(entries, segments[0]);
        var next := TextMap.Get(entries, segments[0]);
        if next.Some? { WalkInside(next.value, segments[1..]); }
      case Array(elems) =>
        var i := ParseIndex(segments[0]);
        if i.Some? && i.value < |elems| {
          ElemInside(elems, i.value);
          WalkInside(elems[i.value], segments[1..]);
        }
      case _ =>
    }
  }

  lemma PathInside(fields: Fields, path: Text)
    ensures var v := GetPath(fields, path); v.Some? ==> |C.EncodeValue(v.value)| <= |C.EncodeFields(fields)|
  {
    var segments := Split(path);
    EntryInside(fields, segments[0]);
    var first := TextMap.Get(fields, segments[0]);
    if first.Some? { WalkInside(first.value, segments[1..]); }
  }

  /** The scalars of a document that can be encoded have short key bytes. */
  lemma StoredIsShort(doc: ObeDocument, field: Text, render: Render)
    requires C.Encode(doc).Ok? && GetPath(doc.fields, field).Some? && Scalar(GetPath(doc.fields, field).value)
    ensures Short(Encoded(doc.fields, field, render))
  {
    PathInside(doc.fields, field);
    assert |C.EncodeFields(doc.fields)| <= |C.Body(doc)|;
  }

  /** What an index over `fields` finds in a document is scalar, or at least short as text. */
  ghost predicate Indexable(doc: ObeDocument, fields: seq<Text>, render: Render) {
    forall i :: 0 <= i < |fields| && GetPath(doc.fields, fields[i]).Some? ==>
      var v := GetPath(doc.fields, fields[i]).value;
      Scalar(v) || |render(v)| + 1 < TWO_32
  }

  lemma StoredAllShort(doc: ObeDocument, fields: seq<Text>, render: Render)
    requires C.Encode(doc).Ok? && Indexable(doc, fields, render)
    ensures AllShort(AllEncoded(doc.fields, fields, render))
  {
    forall i | 0 <= i < |fields| ensures Short(Encoded(doc.fields, fields[i], render)) {
      var v := GetPath(doc.fields, fields[i]);
      if v.Some? && Scalar(v.value) { StoredIsShort(doc, fields[i], render); }
    }
  }

  /** A document is indexed only after it was encoded. Of two such documents, the first with
      scalars in the indexed fields, the keys agree exactly when the indexed values do. */
  lemma ScalarKeysIdentify(fields: seq<Text>, a: ObeDocument, b: ObeDocument, render: Render)
    requires C.Encode(a).Ok? && C.Encode(b).Ok? && Indexable(b, fields, render)
    requires forall i :: 0 <= i < |fields| ==> GetPath(a.fields, fields[i]).Some? ==> Scalar(GetPath(a.fields, fields[i]).value)
    ensures IndexKey(fields, a.fields, render) == IndexKey(fields, b.fields, render)
       <==> forall i :: 0 <= i < |fields| ==> GetPath(a.fields, fields[i]) == GetPath(b.fields, fields[i])
  {
    StoredAllShort(a, fields, render);
    StoredAllShort(b, fields, render);
    KeysIdentify(fields, a.fields, b.fields, render);
    forall i | 0 <= i < |fields|
      ensures Encoded(a.fields, fields[i], render) == Encoded(b.fields, fields[i], render)
         <==> GetPath(a.fields, fields[i]) == GetPath(b.fields, fields[i])
    {
      var x, y := GetPath(a.fields, fields[i]), GetPath(b.fields, fields[i]);
      if x.Some? && y.Some? { KeyIdentity(x.value, y.value, render); }
    }
  }

  lemma LongRefused(d: Fields, x: Utf8)
    requires |x| > C.MAX_DOCUMENT_SIZE && d == [(A, String(x)), (B, String([]))]
    ensures forall doc: ObeDocument :: doc.fields == d ==> C.Encode(doc).Err?
  {
    PathInside(d, A);
    GetPathPlain(d, A);
    assert |C.EncodeFields(d)| > |x|;
  }

  /** Two documents with different values and one key (`LongKeysCollide`); the first does not
      encode. */
  lemma LongValuesCollide(render: Render) returns (d: Fields, e: Fields)
    ensures IndexKey([A, B], d, render) == IndexKey([A, B], e, render)
    ensures GetPath(d, A) != GetPath(e, A)
    ensures forall doc: ObeDocument :: doc.fields == d ==> C.Encode(doc).Err?
  {
    var x: Utf8;
    d, e, x := LongKeysCollide(render);
    LongRefused(d, x);
  }
}
