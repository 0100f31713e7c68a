/** The documented byte layout of an encoded document, field by field, in plain arithmetic. */
module ObeLayout {
  import opened Bytes
  import opened ObeValue
  import opened ObeCodec
  import opened Varint

  // ---- Numbers ----

  function Pow128(n: nat): (p: nat)
    ensures p > 0
  {
    if n == 0 then 1 else 128 * Pow128(n - 1)
  }

  /** The low seven bits of each byte are a digit of the number, the lowest first; the high
      bit says that more bytes follow. */
  lemma {:induction false} VarintDigits(v: nat, i: nat)
    requires i < |VarintBytes(v)|
    ensures VarintBytes(v)[i] % 128 == v / Pow128(i) % 128
    ensures VarintBytes(v)[i] >= 128 <==> i + 1 < |VarintBytes(v)|
    ensures i + 1 == |VarintBytes(v)| ==> v / Pow128(i) < 128
  {
    if i == 0 {
    } else {
      var rest := VarintBytes(v / 128);
      assert VarintBytes(v)[i] == rest[i - 1];
      VarintDigits(v / 128, i - 1);
      DivTwice(v, 128, Pow128(i - 1));
    }
  }

  // ---- Documents ----

  /** Total length, id, transaction id, tombstone flag, number of fields, and the fields. */
  lemma DocumentLayout(doc: ObeDocument)
    requires Encode(doc).Ok?
    ensures var b := Encode(doc).value;
      30 <= |b| < TWO_32 && (forall i :: 0 <= i < 4 ==> b[i] == |b| / Pow256(i) % 256)
      && b[4..20] == doc.id
      && (forall i :: 0 <= i < 8 ==> b[20 + i] == doc.txid / Pow256(i) % 256)
      && b[28] == (if doc.tombstone then 0xFF else 0x00)
      && b[29..] == VarintBytes(|doc.fields|) + EncodeFields(doc.fields)
  {
    var b, n := Encode(doc).value, |Encode(doc).value|;
    Slices(b, Le(n, 4), doc.id, Le(doc.txid, 8), if doc.tombstone then 0xFF else 0x00,
           VarintBytes(|doc.fields|) + EncodeFields(doc.fields));
    forall i | 0 <= i < 4 ensures b[i] == n / Pow256(i) % 256 {
      LeDigits(n, 4, i);
    }
    forall i | 0 <= i < 8 ensures b[20 + i] == doc.txid / Pow256(i) % 256 {
      LeDigits(doc.txid, 8, i);
    }
  }

  lemma Slices(b: Text, length: Text, id: Text, txid: Text, flag: byte, rest: Text)
    requires |length| == 4 && |id| == 16 && |txid| == 8 && |rest| > 0
    requires b == length + (id + txid + [flag] + rest)
    ensures |b| >= 30 && b[..4] == length && b[4..20] == id && b[20..28] == txid && b[28] == flag && b[29..] == rest
    ensures (forall i :: 0 <= i < 4 ==> b[i] == length[i]) && forall i :: 0 <= i < 8 ==> b[20 + i] == txid[i]
  {
    assert forall i :: 0 <= i < 8 ==> b[20..28][i] == b[20 + i];
  }

  /** Name length, name, type tag and value, for a name of at most 127 bytes. */
  lemma FieldLayout(name: Text, v: ObeValue)
    requires |name| < 128
    ensures var b := EncodeField((name, v));
      |b| >= |name| + 2 && b[0] == |name| && b[1..1 + |name|] == name
      && b[1 + |name|] == TypeTag(v) && b[2 + |name|..] == EncodeValue(v)
  {
    var b := EncodeField((name, v));
    assert b == [|name|] + name + [TypeTag(v)] + EncodeValue(v);
  }
  // ---- Type tags ----

  /** A field or an element whose tag byte is not 1 to 17 is refused, whatever follows. */
  lemma UnknownTagRefused(name: Text, tag: byte, rest: Text, depth: nat, count: nat, acc: seq<ObeValue>)
    requires |name| < 128 && ValidUtf8(name) && depth <= 128 && count > 0 && !(1 <= tag <= 17)
    ensures DecodeField([|name|] + name + [tag] + rest, depth) == Err(UnknownTypeTag(tag))
    ensures DecodeElems([tag] + rest, count, depth, acc) == Err(UnknownTypeTag(tag))
  {
    var buf := [|name|] + name + [tag] + rest;
    DecodeVarintBytes(|name|, name + [tag] + rest);
    assert VarintBytes(|name|) + (name + [tag] + rest) == buf;
    assert buf[1..1 + |name|] == name && buf[1 + |name|] == tag;
  }

  /** The encoder never writes tag 14, a varint; the decoder reads it as a 64-bit integer. */
  lemma VarintTagRead(v: u64, rest: Text, depth: nat)
    ensures DecodeValue(14, VarintBytes(v) + rest, depth)
         == Ok(Int64(if v < 0x8000_0000_0000_0000 then v else v - 0x1_0000_0000_0000_0000), |VarintBytes(v)|)
  {
    DecodeVarintBytes(v, rest);
  }
}
