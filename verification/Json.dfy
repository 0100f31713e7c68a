/** JSON values, the numbers that 64-bit floats denote, and the comparisons that filters use. */
module Json {
  import opened Bytes
  import opened ObeValue
  import opened Rounding
  import TextMap

  /** `serde_json::Value`. Objects are `BTreeMap`s; integers above `i64` are not modelled. */
  datatype Json =
    | JNull
    | JBool(b: bool)
    | JInt(i: i64)
    | JFloat(bits: u64)
    | JString(s: Utf8)
    | JArray(elems: seq<Json>)
    | JObject(entries: seq<(Text, Json)>)

  /** ASCII text as bytes. */
  function Ascii(s: string): (t: Text)
    requires forall i :: 0 <= i < |s| ==> s[i] < 128 as char
    ensures |t| == |s| && forall i :: 0 <= i < |s| ==> t[i] == s[i] as int
  {
    seq(|s|, i requires 0 <= i < |s| => s[i] as int)
  }

  const DOLLAR: byte := 0x24

  /** `ObeValue::from_json`. */
  function FromJson(json: Json): ObeValue
    decreases json
  {
    match json
    case JNull => Null
    case JBool(b) => Bool(b)
    case JInt(i) => if 0 - TWO_31 <= i < TWO_31 then Int32(i) else Int64(i)
    case JFloat(bits) => Float64(bits)
    case JString(s) => String(s)
    case JArray(elems) => Array(seq(|elems|, i requires 0 <= i < |elems| => FromJson(elems[i])))
    case JObject(entries) => Document(FromEntries(json, |entries|))
  }

  /** The first `n` entries of an object, collected into a map. */
  function FromEntries(json: Json, n: nat): Fields
    requires json.JObject? && n <= |json.entries|
    decreases json, n
  {
    if n == 0 then []
    else
      match json
      case JObject(entries) =>
        TextMap.Insert(FromEntries(json, n - 1), entries[n - 1].0, FromJson(entries[n - 1].1))
  }

  // ---- Floats ----

  /** What a bit pattern denotes (IEEE 754-2019, section 3.4). */
  datatype F64 = NaN | Infinite(negative: bool) | Finite(value: real)

  function PowerOfTwo(e: int): real
    decreases if e < 0 then 0 - e else e
  {
    if e == 0 then 1.0 else if e > 0 then 2.0 * PowerOfTwo(e - 1) else PowerOfTwo(e + 1) / 2.0
  }

  lemma {:induction false} PowerPositive(e: int)
    ensures PowerOfTwo(e) > 0.0
    ensures PowerOfTwo(e + 1) == 2.0 * PowerOfTwo(e)
    decreases if e < 0 then 0 - e else e
  {
    if e > 0 { PowerPositive(e - 1); } else if e < 0 { PowerPositive(e + 1); }
  }

  function Denotes(bits: u64): F64 {
    FromParts(bits >= TWO_63, bits / TWO_52 % 2048, bits % TWO_52)
  }

  /** The number with a sign, a biased exponent and a fraction. */
  function FromParts(negative: bool, exponent: nat, fraction: nat): F64 {
    if exponent == 2047 then (if fraction == 0 then Infinite(negative) else NaN)
    else
      var scaled := if exponent == 0 then fraction else fraction + TWO_52;
      var magnitude := scaled as real * PowerOfTwo((if exponent == 0 then 1 else exponent) - 1075);
      Finite(if negative then 0.0 - magnitude else magnitude)
  }

  /** `as_f64`. */
  function AsF64(v: ObeValue): Option<F64> {
    match v
    case Float64(bits) => Some(Denotes(bits))
    case Int32(i) => Some(Finite(i as real))
    case Int64(l) => Some(Finite(RoundedInt(l) as real))
    case _ => None
  }

  datatype Ordering = Less | Equal | Greater

  function CompareReal(a: real, b: real): Ordering {
    if a < b then Less else if a == b then Equal else Greater
  }

  /** `f64::partial_cmp`. */
  function CompareF64(a: F64, b: F64): Option<Ordering> {
    match (a, b)
    case (NaN, _) => None
    case (_, NaN) => None
    case (Infinite(m), Infinite(n)) => Some(if m == n then Equal else if m then Less else Greater)
    case (Infinite(m), Finite(_)) => Some(if m then Less else Greater)
    case (Finite(_), Infinite(n)) => Some(if n then Greater else Less)
    case (Finite(x), Finite(y)) => Some(CompareReal(x, y))
  }

  /** `f64::EPSILON`. */
  const MACHINE_EPSILON: real := 1.0 / TWO_52 as real

  /** `(a - b).abs() < f64::EPSILON`: false as soon as one side is not finite. */
  function CloseF64(a: F64, b: F64): bool {
    a.Finite? && b.Finite?
    && 0.0 - MACHINE_EPSILON < a.value - b.value < MACHINE_EPSILON
  }

  /** `compare_values`. */
  function CompareValues(a: ObeValue, b: ObeValue): Option<Ordering> {
    var x, y := AsF64(a), AsF64(b);
    if x.Some? && y.Some? then CompareF64(x.value, y.value)
    else if a.String? && b.String? then Some(if LexLess(a.s, b.s) then Less else if a.s == b.s then Equal else Greater)
    else if a.Timestamp? && b.Timestamp? then Some(if a.ts < b.ts then Less else if a.ts == b.ts then Equal else Greater)
    else if a.Bool? && b.Bool? then Some(if a.b == b.b then Equal else if b.b then Less else Greater)
    else None
  }

  /** `values_equal`. */
  function ValuesEqual(a: ObeValue, b: ObeValue): bool
    decreases a
  {
    if a.Null? && b.Null? then true
    else if a.Bool? && b.Bool? then a.b == b.b
    else if a.String? && b.String? then a.s == b.s
    else if a.Array? && b.Array? then
      |a.elems| == |b.elems| && forall i :: 0 <= i < |a.elems| ==> ValuesEqual(a.elems[i], b.elems[i])
    else if a.Document? && b.Document? then
      |a.entries| == |b.entries| && forall i :: 0 <= i < |a.entries| ==>
        var other := TextMap.Get(b.entries, a.entries[i].0);
        other.Some? && ValuesEqual(a.entries[i].1, other.value)
    else
      var x, y := AsF64(a), AsF64(b);
      x.Some? && y.Some? && CloseF64(x.value, y.value)
  }
}
