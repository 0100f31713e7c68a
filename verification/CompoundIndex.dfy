/** Keys of indexes over several fields. */
module CompoundIndex {
  import opened Bytes
  import opened ObeValue
  import opened SecondaryIndex

  /** The key bytes of one field of a document, if the field is there. */
  function Encoded(doc: Fields, field: Text, render: Render): Option<Text> {
    match GetPath(doc, field)
    case None => None
    case Some(v) => Some(ValueBytes(v, render))
  }

  function AllEncoded(doc: Fields, fields: seq<Text>, render: Render): (xs: seq<Option<Text>>)
    ensures |xs| == |fields|
  {
    seq(|fields|, i requires 0 <= i < |fields| => Encoded(doc, fields[i], render))
  }

  /** `key` followed by what the fields append to it, one after the other. */
  function Appended(key: Text, xs: seq<Option<Text>>): Text
    decreases |xs|
  {
    if |xs| == 0 then key
    else
      match xs[0]
      case None => Appended(key + Le(0, 4), xs[1..])
      case Some(bytes) => Appended(key + Le(|bytes| % TWO_32, 4) + bytes, xs[1..])
  }

  predicate HasValue(xs: seq<Option<Text>>) { exists i :: 0 <= i < |xs| && xs[i].Some? }

  // ---- The presence bitmap ----

  function NoBits(): seq<bool> { seq(64, _ => false) }

  /** `bitmap |= 1 << i` for each field that is there; the shift wraps at 64. */
  function Bitmap(xs: seq<Option<Text>>): (bits: seq<bool>)
    ensures |bits| == 64
  {
    if |xs| == 0 then NoBits()
    else
      var last := |xs| - 1;
      var bits := Bitmap(xs[..last]);
      if xs[last].Some? then bits[last % 64 := true] else bits
  }

  function FromBits(bits: seq<bool>): nat {
    if |bits| == 0 then 0 else (if bits[0] then 1 else 0) + 2 * FromBits(bits[1..])
  }

  /** `build_index_key`. */
  function IndexKey(fields: seq<Text>, doc: Fields, render: Render): Option<Text> {
    if |fields| == 1 then Encoded(doc, fields[0], render)
    else
      var xs := AllEncoded(doc, fields, render);
      if HasValue(xs) then Some(Appended([], xs) + Le(FromBits(Bitmap(xs)), 8)) else None
  }

  /** `build_index_key`, as it runs. */
  method BuildIndexKey(fields: seq<Text>, doc: Fields, render: Render) returns (r: Option<Text>)
    ensures r == IndexKey(fields, doc, render)
  {
    if |fields| == 1 {
      var v := GetPath(doc, fields[0]);
      if v.None? { return None; }
      return Some(ValueBytes(v.value, render));
    }
    ghost var xs := AllEncoded(doc, fields, render);
    ghost var rest := xs;
    var key: Text, hasValue := [], false;
    for i := 0 to |fields|
      invariant rest == xs[i..]
      invariant Appended(key, rest) == Appended([], xs)
      invariant hasValue || HasValue(rest) <==> HasValue(xs)
    {
      var v := GetPath(doc, fields[i]);
      assert rest[0] == xs[i];
      if v.Some? {
        var bytes := ValueBytes(v.value, render);
        key := key + Le(|bytes| % TWO_32, 4);
        key := key + bytes;
        hasValue := true;
      } else {
        key := key + Le(0, 4);
      }
      rest := rest[1..];
    }
    if !hasValue { return None; }
    var bitmap := NoBits();
    for i := 0 to |fields|
      invariant bitmap == Bitmap(xs[..i])
    {
      assert xs[..i + 1][..i] == xs[..i];
      if GetPath(doc, fields[i]).Some? { bitmap := bitmap[i % 64 := true]; }
    }
    assert xs[..|fields|] == xs;
    return Some(key + Le(FromBits(bitmap), 8));
  }

  // ---- Reading a key back ----

  function Payload(x: Option<Text>): Text { if x.Some? then x.value else [] }

  function Header(x: Option<Text>): (h: Text)
    ensures |h| == 4
  {
    Le(|Payload(x)| % TWO_32, 4)
  }

  function Body(xs: seq<Option<Text>>): Text {
    if |xs| == 0 then [] else Header(xs[0]) + (Payload(xs[0]) + Body(xs[1..]))
  }

  lemma Glue(a: Text, b: Text, c: Text)
    ensures a + (b + c) == a + b + c
    ensures a + [] == a && [] + a == a && [] + c == c
  {}

  lemma Glue3(key: Text, h: Text, p: Text, rest: Text)
    ensures key + (h + (p + rest)) == key + h + p + rest
  {}

  lemma {:induction false} AppendedBody(key: Text, xs: seq<Option<Text>>)
    ensures Appended(key, xs) == key + Body(xs)
    decreases |xs|
  {
    if |xs| == 0 {
      Glue(key, [], []);
    } else {
      var h, p, rest := Header(xs[0]), Payload(xs[0]), xs[1..];
      Glue3(key, h, p, Body(rest));
      if xs[0].None? { Glue(key + h, p, p); }
      AppendedBody(key + h + p, rest);
    }
  }

  /** Bit `i` says whether field `i` is there, up to 64 fields. */
  lemma {:induction false} BitmapBit(xs: seq<Option<Text>>, i: nat)
    requires i < 64 && |xs| <= 64
    ensures Bitmap(xs)[i] == (i < |xs| && xs[i].Some?)
  {
    if |xs| > 0 { BitmapBit(xs[..|xs| - 1], i); }
  }

  predicate Short(x: Option<Text>) { x.Some? ==> 0 < |x.value| < TWO_32 }

  predicate AllShort(xs: seq<Option<Text>>) { forall i :: 0 <= i < |xs| ==> Short(xs[i]) }

  lemma ModSmall(a: nat)
    requires a < TWO_32
    ensures a % TWO_32 == a
  {}

  lemma LeInjective(a: nat, b: nat)
    requires a < Pow256(4) && b < Pow256(4) && Le(a, 4) == Le(b, 4)
    ensures a == b
  {
    FromLeLe(a, 4);
    FromLeLe(b, 4);
  }

  lemma HeaderUnique(x: Option<Text>, y: Option<Text>)
    requires Short(x) && Short(y) && Header(x) == Header(y)
    ensures |Payload(x)| == |Payload(y)|
  {
    var m, n := |Payload(x)|, |Payload(y)|;
    Pow256Values();
    ModSmall(m);
    ModSmall(n);
    LeInjective(m, n);
  }

  lemma SplitTwice(h: Text, p: Text, s: Text, h': Text, q: Text, t: Text)
    requires |h| == |h'| && (h == h' ==> |p| == |q|)
    requires h + (p + s) == h' + (q + t)
    ensures h == h' && p == q && s == t
  {
    SplitFront(h, h', p + s, q + t);
    SplitFront(p, q, s, t);
  }

  /** No field's bytes are the beginning of another field's bytes. */
  lemma PartUnique(x: Option<Text>, y: Option<Text>, s: Text, t: Text)
    requires Short(x) && Short(y)
    requires Header(x) + (Payload(x) + s) == Header(y) + (Payload(y) + t)
    ensures x == y && s == t
  {
    if Header(x) == Header(y) { HeaderUnique(x, y); }
    SplitTwice(Header(x), Payload(x), s, Header(y), Payload(y), t);
  }

  lemma {:induction false} BodyUnique(xs: seq<Option<Text>>, ys: seq<Option<Text>>, s: Text, t: Text)
    requires |xs| == |ys| && AllShort(xs) && AllShort(ys)
    requires Body(xs) + s == Body(ys) + t
    ensures xs == ys && s == t
  {
    if |xs| == 0 {
      Glue(s, t, []);
      Glue(t, s, []);
    } else {
      var bs, bt := Body(xs[1..]), Body(ys[1..]);
      BodyTail(Header(xs[0]), Payload(xs[0]), bs, s);
      BodyTail(Header(ys[0]), Payload(ys[0]), bt, t);
      PartUnique(xs[0], ys[0], bs + s, bt + t);
      BodyUnique(xs[1..], ys[1..], s, t);
      assert xs == [xs[0]] + xs[1..] && ys == [ys[0]] + ys[1..];
    }
  }

  lemma BodyTail(h: Text, p: Text, b: Text, s: Text)
    ensures h + (p + b) + s == h + (p + (b + s))
  {}

  /** Two documents share a key exactly when they agree on which indexed fields they have and
      on the key bytes of each. */
  lemma KeysIdentify(fields: seq<Text>, a: Fields, b: Fields, render: Render)
    requires AllShort(AllEncoded(a, fields, render)) && AllShort(AllEncoded(b, fields, render))
    ensures IndexKey(fields, a, render) == IndexKey(fields, b, render)
       <==> forall i :: 0 <= i < |fields| ==> Encoded(a, fields[i], render) == Encoded(b, fields[i], render)
  {
    var xs, ys := AllEncoded(a, fields, render), AllEncoded(b, fields, render);
    var s, t := Le(FromBits(Bitmap(xs)), 8), Le(FromBits(Bitmap(ys)), 8);
    if IndexKey(fields, a, render) == IndexKey(fields, b, render) {
      if |fields| != 1 && HasValue(xs) && HasValue(ys) {
        AppendedBody([], xs);
        AppendedBody([], ys);
        Glue(Body(xs), s, s);
        Glue(Body(ys), t, t);
        BodyUnique(xs, ys, s, t);
      }
      forall i | 0 <= i < |fields| ensures Encoded(a, fields[i], render) == Encoded(b, fields[i], render) {
        assert xs[i] == Encoded(a, fields[i], render) && ys[i] == Encoded(b, fields[i], render);
      }
    }
    if forall i :: 0 <= i < |fields| ==> Encoded(a, fields[i], render) == Encoded(b, fields[i], render) {
      assert xs == ys;
    }
  }

  lemma SamePresence(xs: seq<Option<Text>>, ys: seq<Option<Text>>)
    requires |xs| == |ys| <= 64 && forall i :: 0 <= i < |xs| ==> xs[i].Some? == ys[i].Some?
    ensures Bitmap(xs) == Bitmap(ys)
  {
    forall i | 0 <= i < 64 ensures Bitmap(xs)[i] == Bitmap(ys)[i] {
      BitmapBit(xs, i);
      BitmapBit(ys, i);
    }
  }

  lemma {:induction false} FromBitsBelow(bits: seq<bool>)
    ensures FromBits(bits) < Pow2(|bits|)
  {
    if |bits| > 0 { FromBitsBelow(bits[1..]); }
  }

  lemma {:induction false} BitOf(bits: seq<bool>, j: nat)
    requires j < |bits|
    ensures FromBits(bits) / Pow2(j) % 2 == 1 <==> bits[j]
  {
    if j > 0 {
      BitOf(bits[1..], j - 1);
      DivTwice(FromBits(bits), 2, Pow2(j - 1));
    }
  }

  lemma Twice(p: nat, r: nat)
    ensures 2 * (p * r) == 2 * p * r
  {}

  lemma {:induction false} FromBitsSplit(bits: seq<bool>, m: nat)
    requires m <= |bits|
    ensures FromBits(bits) == FromBits(bits[..m]) + Pow2(m) * FromBits(bits[m..])
  {
    if m == 0 {
      assert bits[0..] == bits;
    } else {
      FromBitsSplit(bits[1..], m - 1);
      assert bits[..m][1..] == bits[1..][..m - 1] && bits[1..][m - 1..] == bits[m..];
      Twice(Pow2(m - 1), FromBits(bits[m..]));
    }
  }

  lemma EightBits(bits: seq<bool>, eight: nat)
    requires eight == 8 <= |bits|
    ensures FromBits(bits) % 256 == FromBits(bits[..eight]) && FromBits(bits) / 256 == FromBits(bits[eight..])
  {
    hide *;
    FromBitsSplit(bits, eight);
    FromBitsBelow(bits[..eight]);
    Pow2Eight(eight);
  }

  lemma Pow2Eight(eight: nat)
    requires eight == 8
    ensures Pow2(eight) == 256
  {
    assert Pow2(eight - 6) == 4 && Pow2(eight - 4) == 16 && Pow2(eight - 2) == 64;
  }

  lemma {:induction false} BitmapByte(bits: seq<bool>, n: nat, k: nat, eight: nat)
    requires |bits| == 8 * n && k < n && eight == 8
    ensures Le(FromBits(bits), n)[k] == FromBits(bits[8 * k..8 * k + 8])
    decreases n
  {
    EightBits(bits, eight);
    if k > 0 {
      BitmapByte(bits[eight..], n - 1, k - 1, eight);
      assert bits[eight..][8 * (k - 1)..8 * (k - 1) + 8] == bits[8 * k..8 * k + 8];
    }
  }

  /** Field `i` of a document is there exactly if bit `i` of the last eight bytes of its
      compound key is set, up to 64 fields. */
  lemma BitmapReadsPresence(fields: seq<Text>, doc: Fields, render: Render, i: nat)
    requires 2 <= |fields| <= 64 && i < |fields| && IndexKey(fields, doc, render).Some?
    ensures var key := IndexKey(fields, doc, render).value;
      |key| >= 8 && (key[|key| - 8 + i / 8] / Pow2(i % 8) % 2 == 1 <==> GetPath(doc, fields[i]).Some?)
  {
    var xs, eight := AllEncoded(doc, fields, render), 8;
    KeyEnd(fields, doc, render, i / 8, eight);
    PresenceBit(xs, i, i / 8, i % 8, eight);
    assert xs[i] == Encoded(doc, fields[i], render);
  }

  lemma KeyEnd(fields: seq<Text>, doc: Fields, render: Render, k: nat, eight: nat)
    requires |fields| >= 2 && IndexKey(fields, doc, render).Some? && k < eight == 8
    ensures var key := IndexKey(fields, doc, render).value;
      |key| >= 8 && key[|key| - 8 + k] == Le(FromBits(Bitmap(AllEncoded(doc, fields, render))), eight)[k]
  {}

  lemma PresenceBit(xs: seq<Option<Text>>, i: nat, k: nat, j: nat, eight: nat)
    requires eight == 8 && j < eight && k < eight && i == 8 * k + j < |xs| <= 64
    ensures Le(FromBits(Bitmap(xs)), eight)[k] / Pow2(j) % 2 == 1 <==> xs[i].Some?
  {
    hide FromBits, Le, Bitmap;
    var bits := Bitmap(xs);
    BitmapBit(xs, i);
    BitmapByte(bits, eight, k, eight);
    BitOf(bits[8 * k..8 * k + 8], j);
  }

  // ---- Where the length prefix runs out ----

  /** Two strings whose lengths wrap to the same prefix. */
  function LongFirst(n: nat): Text { Le(1, 4) + [5] + seq(n, _ => 0) }

  function LongSecond(n: nat): Text { seq(n, _ => 0) + Le(1, 4) + [5] }

  const A: Text := [0x61]
  const B: Text := [0x62]

  lemma PairKey(doc: Fields, x: Utf8, y: Utf8, render: Render)
    requires doc == [(A, String(x)), (B, String(y))]
    ensures GetPath(doc, A) == Some(String(x))
    ensures var xs := [Some([5] + x), Some([5] + y)];
      IndexKey([A, B], doc, render) == Some(Appended([], xs) + Le(FromBits(Bitmap(xs)), 8))
  {
    GetPathPlain(doc, A);
    GetPathPlain(doc, B);
    assert doc[1..][0] == doc[1];
    var xs := [Some([5] + x), Some([5] + y)];
    assert AllEncoded(doc, [A, B], render) == xs;
    assert xs[0].Some?;
  }

  lemma LongUtf8(n: nat)
    ensures ValidUtf8(LongFirst(n)) && ValidUtf8(LongSecond(n))
  {
    var one := Le(1, 4);
    assert one == [1] + Le(0, 3);
    assert forall i :: 0 <= i < 4 ==> one[i] < 0x80;
    AsciiIsUtf8(LongFirst(n));
    AsciiIsUtf8(LongSecond(n));
  }

  /** From 4 GiB on the length prefix wraps: an index over `a` and `b` gives the same key to
      two documents with different values of `a`. */
  lemma LongKeysCollide(render: Render) returns (d: Fields, e: Fields, x: Utf8)
    ensures IndexKey([A, B], d, render) == IndexKey([A, B], e, render)
    ensures GetPath(d, A) != GetPath(e, A)
    ensures |x| == TWO_32 && d == [(A, String(x)), (B, String([]))]
  {
    var n := TWO_32 - 5;
    LongUtf8(n);
    var y: Utf8 := LongSecond(n);
    x := LongFirst(n);
    d, e := [(A, String(x)), (B, String([]))], [(A, String([])), (B, String(y))];
    PairKey(d, x, [], render);
    PairKey(e, [], y, render);
    LongBodies(n);
  }

  lemma LongBodies(n: nat)
    requires n == TWO_32 - 5
    ensures var xs, ys := [Some([5] + LongFirst(n)), Some([5] + [])], [Some([5] + []), Some([5] + LongSecond(n))];
      Appended([], xs) == Appended([], ys) && FromBits(Bitmap(xs)) == FromBits(Bitmap(ys))
  {
    SameSeven(Le(1, 4), [5], seq(n, _ => 0));
    SwappedBodies([5] + LongFirst(n), [5] + [], [5] + LongSecond(n));
  }

  /** Pairs of one long and one short value, the short one first or last. */
  lemma SwappedBodies(long: Text, short: Text, long': Text)
    requires |short| == 1 && |long| % TWO_32 == 1 && |long'| % TWO_32 == 1
    requires long + (Le(1, 4) + short) == short + (Le(1, 4) + long')
    ensures var xs, ys := [Some(long), Some(short)], [Some(short), Some(long')];
      Appended([], xs) == Appended([], ys) && FromBits(Bitmap(xs)) == FromBits(Bitmap(ys))
  {
    var xs, ys := [Some(long), Some(short)], [Some(short), Some(long')];
    PairBody(xs);
    PairBody(ys);
    SamePresence(xs, ys);
  }

  lemma SameSeven(one: Text, five: Text, zeros: Text)
    ensures five + (one + five + zeros) + (one + (five + [])) == five + [] + (one + (five + (zeros + one + five)))
  {}

  lemma PairBody(xs: seq<Option<Text>>)
    requires |xs| == 2
    ensures Appended([], xs) == Header(xs[0]) + (Payload(xs[0]) + (Header(xs[1]) + Payload(xs[1])))
  {
    AppendedBody([], xs);
    Glue(Body(xs), [], []);
    var last := xs[1..];
    assert last[0] == xs[1] && last[1..] == [];
    assert Body(last[1..]) == [];
    Glue(Payload(xs[1]), [], []);
    assert Body(last) == Header(xs[1]) + (Payload(xs[1]) + []);
  }
}
