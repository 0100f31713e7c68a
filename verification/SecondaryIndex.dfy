/** Keys of secondary indexes: an order-preserving encoding of scalar values, and compound
    keys from which the indexed values can be read back. */
module SecondaryIndex {
  import opened Bytes
  import opened ObeValue
  import opened Json
  import opened Rounding

  /** Renders documents, arrays and the other non-scalar values as JSON text. */
  type Render = ObeValue -> Text

  // ---- Scalar values ----

  /** `v` shifted so that unsigned order is signed order (`v as u32 ^ 0x8000_0000`). */
  function FlipSign(v: int, half: nat): (u: nat)
    requires 0 - half <= v < half
    ensures u < 2 * half
  {
    var u := Wrap(v, half);
    if u < half then u + half else u - half
  }

  /** All bits flipped when the sign bit is set, else the sign bit set. */
  function FloatKey(bits: u64): u64 {
    if bits >= TWO_63 then TWO_64 - 1 - bits else bits + TWO_63
  }

  /** `value_to_bytes`. */
  function ValueBytes(v: ObeValue, render: Render): (key: Text)
    ensures |key| > 0
  {
    Pow256Values();
    match v
    case Null => [0x00]
    case Bool(b) => if b then [0x01, 0x01] else [0x01, 0x00]
    case Int32(i) => [0x02] + Be(FlipSign(i, TWO_31), 4)
    case Int64(l) => [0x03] + Be(FlipSign(l, TWO_63), 8)
    case Float64(bits) => [0x04] + Be(FloatKey(bits), 8)
    case String(s) => [0x05] + s
    case Timestamp(ts) => [0x06] + Be(ts, 8)
    case ObjectId(oid) => [0x07] + oid
    case _ => [0xFF] + render(v)
  }

  /** The order of types in an index; 255 for values kept as JSON text. */
  function Rank(v: ObeValue): byte {
    match v
    case Null => 0
    case Bool(_) => 1
    case Int32(_) => 2
    case Int64(_) => 3
    case Float64(_) => 4
    case String(_) => 5
    case Timestamp(_) => 6
    case ObjectId(_) => 7
    case _ => 255
  }

  predicate Scalar(v: ObeValue) { Rank(v) != 255 }

  /** totalOrder on bit patterns (IEEE 754-2019, section 5.10), strictly. */
  predicate TotalOrder(a: u64, b: u64) {
    if a >= TWO_63 && b >= TWO_63 then a > b
    else if a >= TWO_63 || b >= TWO_63 then a >= TWO_63 && b < TWO_63
    else a < b
  }

  /** The order of two values of one scalar type. */
  predicate Below(a: ObeValue, b: ObeValue)
    requires Scalar(a) && Rank(a) == Rank(b)
  {
    match a
    case Null => false
    case Bool(x) => !x && b.b
    case Int32(x) => x < b.i
    case Int64(x) => x < b.l
    case Float64(x) => TotalOrder(x, b.bits)
    case String(x) => LexLess(x, b.s)
    case Timestamp(x) => x < b.ts
    case ObjectId(x) => LexLess(x, b.oid)
  }

  lemma TagFirst(tag: byte, a: Text, tag': byte, b: Text)
    ensures LexLess([tag] + a, [tag'] + b) == (tag < tag' || (tag == tag' && LexLess(a, b)))
  {}

  lemma BoolOrder(a: bool, b: bool, render: Render)
    ensures LexLess(ValueBytes(Bool(a), render), ValueBytes(Bool(b), render)) <==> !a && b
  {
    var x, y: byte := if a then 1 else 0, if b then 1 else 0;
    TagFirst(1, [x], 1, [y]);
    assert [x] == [x] + [] && [y] == [y] + [];
    TagFirst(x, [], y, []);
  }

  function Payload(v: ObeValue, render: Render): Text { ValueBytes(v, render)[1..] }

  lemma Tagged(v: ObeValue, render: Render)
    ensures ValueBytes(v, render) == [Rank(v)] + Payload(v, render)
    ensures !v.String? && Scalar(v) ==>
              |Payload(v, render)| == (match Rank(v) case 0 => 0 case 1 => 1 case 2 => 4 case 7 => 12 case _ => 8)
  {}

  lemma SameTypeOrder(a: ObeValue, b: ObeValue, render: Render)
    requires Scalar(a) && Rank(a) == Rank(b)
    ensures LexLess(Payload(a, render), Payload(b, render)) <==> Below(a, b)
  {
    Pow256Values();
    match a
    case Null =>
    case Bool(x) =>
      BoolOrder(x, b.b, render);
      Tagged(a, render);
      Tagged(b, render);
      TagFirst(1, Payload(a, render), 1, Payload(b, render));
    case Int32(x) => BeOrder(FlipSign(x, TWO_31), FlipSign(b.i, TWO_31), 4);
    case Int64(x) => BeOrder(FlipSign(x, TWO_63), FlipSign(b.l, TWO_63), 8);
    case Float64(x) => BeOrder(FloatKey(x), FloatKey(b.bits), 8);
    case String(x) =>
    case Timestamp(x) => BeOrder(x, b.ts, 8);
    case ObjectId(x) =>
  }

  /** The byte order of index keys is the order of the values: by type, then by value. */
  lemma KeyOrder(a: ObeValue, b: ObeValue, render: Render)
    requires Scalar(a) && Scalar(b)
    ensures LexLess(ValueBytes(a, render), ValueBytes(b, render))
       <==> Rank(a) < Rank(b) || (Rank(a) == Rank(b) && Below(a, b))
  {
    Tagged(a, render);
    Tagged(b, render);
    TagFirst(Rank(a), Payload(a, render), Rank(b), Payload(b, render));
    if Rank(a) == Rank(b) { SameTypeOrder(a, b, render); }
  }

  /** Two values share a key exactly when they are the same scalar, or both are kept as text
      and have the same text. */
  lemma KeyIdentity(a: ObeValue, b: ObeValue, render: Render)
    ensures ValueBytes(a, render) == ValueBytes(b, render)
       <==> (if Scalar(a) || Scalar(b) then a == b else render(a) == render(b))
  {
    Tagged(a, render);
    Tagged(b, render);
    if ValueBytes(a, render) == ValueBytes(b, render) {
      assert Rank(a) == ValueBytes(a, render)[0] && Rank(b) == ValueBytes(b, render)[0];
      if Scalar(a) {
        LexIrreflexive(Payload(a, render));
        SameTypeOrder(a, b, render);
        SameTypeOrder(b, a, render);
        BelowTotal(a, b);
      }
    }
  }

  lemma BelowTotal(a: ObeValue, b: ObeValue)
    requires Scalar(a) && Rank(a) == Rank(b)
    ensures Below(a, b) || a == b || Below(b, a)
  {
    match a
    case String(x) => LexTotal(x, b.s);
    case ObjectId(x) => LexTotal(x, b.oid);
    case _ =>
  }

  // ---- Floats: the key order is the numeric order ----

  lemma {:induction false} PowerMonotone(e: int, f: int)
    requires e <= f
    ensures 0.0 < PowerOfTwo(e) <= PowerOfTwo(f)
    decreases f - e
  {
    PowerPositive(e);
    PowerPositive(f);
    if e < f {
      PowerMonotone(e, f - 1);
      PowerPositive(f - 1);
    }
  }

  lemma ProductLess(a: real, b: real, p: real, q: real)
    requires 0.0 <= a < b && 0.0 < p <= q
    ensures a * p < b * q
  {}

  function Magnitude(exponent: nat, fraction: nat): real {
    var scaled := if exponent == 0 then fraction else fraction + TWO_52;
    scaled as real * PowerOfTwo((if exponent == 0 then 1 else exponent) - 1075)
  }

  lemma MagnitudeOrder(e: nat, f: nat, e': nat, f': nat)
    requires f < TWO_52 && f' < TWO_52
    requires e < e' || (e == e' && f < f')
    ensures 0.0 <= Magnitude(e, f) < Magnitude(e', f')
  {
    var s := if e == 0 then f else f + TWO_52;
    var s' := if e' == 0 then f' else f' + TWO_52;
    var x := (if e == 0 then 1 else e) - 1075;
    var x' := (if e' == 0 then 1 else e') - 1075;
    PowerPositive(x);
    if 0 < e < e' {
      PowerPositive(x' - 1);
      PowerMonotone(x, x' - 1);
      ProductLess(s as real, 2.0 * (s' as real), PowerOfTwo(x), PowerOfTwo(x' - 1));
    } else {
      PowerMonotone(x, x');
      ProductLess(s as real, s' as real, PowerOfTwo(x), PowerOfTwo(x'));
    }
  }

  lemma DenotesMagnitude(bits: u64)
    ensures Denotes(bits).Finite? ==>
      Denotes(bits).value == var m := Magnitude(bits / TWO_52 % 2048, bits % TWO_52); if bits >= TWO_63 then 0.0 - m else m
  {}

  lemma FieldsOrder(a: nat, b: nat)
    requires a < b < TWO_63
    ensures a / TWO_52 % 2048 < b / TWO_52 % 2048
         || (a / TWO_52 % 2048 == b / TWO_52 % 2048 && a % TWO_52 < b % TWO_52)
  {}

  lemma SignOff(a: u64)
    requires a >= TWO_63
    ensures a / TWO_52 % 2048 == (a - TWO_63) / TWO_52 % 2048 && a % TWO_52 == (a - TWO_63) % TWO_52
  {}

  /** Of two finite floats the one with the smaller key is the smaller number, or they are
      the two zeros. */
  lemma FloatOrder(a: u64, b: u64)
    requires TotalOrder(a, b) && Denotes(a).Finite? && Denotes(b).Finite?
    ensures Denotes(a).value <= Denotes(b).value
    ensures Denotes(a).value == Denotes(b).value ==> a == TWO_63 && b == 0
  {
    DenotesMagnitude(a);
    DenotesMagnitude(b);
    var ea, fa, eb, fb := a / TWO_52 % 2048, a % TWO_52, b / TWO_52 % 2048, b % TWO_52;
    if a >= TWO_63 && b >= TWO_63 {
      SignOff(a);
      SignOff(b);
      FieldsOrder(b - TWO_63, a - TWO_63);
      MagnitudeOrder(eb, fb, ea, fa);
    } else if a >= TWO_63 {
      SignOff(a);
      ZeroMagnitude();
      if a > TWO_63 {
        FieldsOrder(0, a - TWO_63);
        MagnitudeOrder(0, 0, ea, fa);
      }
      if b > 0 {
        FieldsOrder(0, b);
        MagnitudeOrder(0, 0, eb, fb);
      }
    } else {
      FieldsOrder(a, b);
      MagnitudeOrder(ea, fa, eb, fb);
    }
  }

  lemma ZeroMagnitude()
    ensures Magnitude(0, 0) == 0.0
  {}
}
