/** When two values are equal, and how two values compare: what filters rest on. */
module ValueLaws {
  import opened Bytes
  import opened ObeValue
  import opened Json
  import opened Rounding
  import TextMap

  /** Built from null, booleans, strings and finite numbers: what JSON can express. */
  predicate Plain(v: ObeValue) {
    match v
    case Null => true
    case Bool(_) => true
    case Int32(_) => true
    case Int64(_) => true
    case Float64(bits) => Denotes(bits).Finite?
    case String(_) => true
    case Array(elems) => forall i :: 0 <= i < |elems| ==> Plain(elems[i])
    case Document(entries) => forall i :: 0 <= i < |entries| ==> Plain(entries[i].1)
    case _ => false
  }

  /** Filters find a value equal to itself exactly when it is plain: a timestamp, an object id
      or binary data equals nothing, not even itself. */
  lemma {:induction false} EqualsItself(v: ObeValue)
    requires WellFormed(v)
    ensures ValuesEqual(v, v) <==> Plain(v)
    decreases v
  {
    match v
    case Array(elems) =>
      forall i | 0 <= i < |elems| ensures ValuesEqual(elems[i], elems[i]) <==> Plain(elems[i]) {
        EqualsItself(elems[i]);
      }
    case Document(entries) =>
      forall i | 0 <= i < |entries|
        ensures TextMap.Get(entries, entries[i].0) == Some(entries[i].1)
        ensures ValuesEqual(entries[i].1, entries[i].1) <==> Plain(entries[i].1)
      {
        TextMap.GetAt(entries, i);
        EqualsItself(entries[i].1);
      }
    case _ =>
  }

  function KeysOf(fields: Fields): set<Text> { set f | f in fields :: f.0 }

  lemma {:induction false} KeyCount(fields: Fields)
    requires TextMap.Sorted(fields)
    ensures |KeysOf(fields)| == |fields|
  {
    if |fields| == 0 {
      assert KeysOf(fields) == {};
    } else {
      var last := |fields| - 1;
      var front, key := fields[..last], fields[last].0;
      KeyCount(front);
      forall f | f in front ensures f.0 != key {
        var i :| 0 <= i < last && fields[i] == f;
        LexIrreflexive(key);
      }
      assert KeysOf(fields) == KeysOf(front) + {key} by {
        assert fields == front + [fields[last]];
      }
    }
  }

  lemma SubsetOfSameSize(a: set<Text>, b: set<Text>)
    requires a <= b && |a| == |b|
    ensures a == b
  {
    assert b == a + (b - a) && |b - a| == |b| - |a|;
  }

  /** If every key of `s` is in `t` and they have the same size, every key of `t` is in `s`. */
  lemma KeysBack(s: Fields, t: Fields, j: nat) returns (i: nat)
    requires TextMap.Sorted(s) && TextMap.Sorted(t) && |s| == |t| && j < |t|
    requires forall i :: 0 <= i < |s| ==> TextMap.Get(t, s[i].0).Some?
    ensures i < |s| && s[i].0 == t[j].0
  {
    KeyCount(s);
    KeyCount(t);
    forall k | k in KeysOf(s) ensures k in KeysOf(t) {
      TextMap.GetMember(t, k);
    }
    SubsetOfSameSize(KeysOf(s), KeysOf(t));
    assert t[j] in t && t[j].0 in KeysOf(s);
    var f :| f in s && f.0 == t[j].0;
    i :| 0 <= i < |s| && s[i] == f;
  }

  /** Equality is symmetric, although for documents the code looks only one way. */
  lemma {:induction false} EqSymmetric(a: ObeValue, b: ObeValue)
    requires WellFormed(a) && WellFormed(b) && ValuesEqual(a, b)
    ensures ValuesEqual(b, a)
    decreases a
  {
    if a.Array? && b.Array? {
      forall i | 0 <= i < |a.elems| ensures ValuesEqual(b.elems[i], a.elems[i]) { EqSymmetric(a.elems[i], b.elems[i]); }
    } else if a.Document? && b.Document? {
      var s, t := a.entries, b.entries;
      forall j | 0 <= j < |t|
        ensures var other := TextMap.Get(s, t[j].0); other.Some? && ValuesEqual(t[j].1, other.value)
      {
        var i := KeysBack(s, t, j);
        TextMap.GetAt(s, i);
        TextMap.GetAt(t, j);
        EqSymmetric(s[i].1, t[j].1);
      }
    }
  }

  function Reverse(o: Option<Ordering>): Option<Ordering> {
    match o
    case Some(Less) => Some(Greater)
    case Some(Greater) => Some(Less)
    case _ => o
  }

  /** The order of values reads the same from both sides. */
  lemma CompareReverses(a: ObeValue, b: ObeValue)
    ensures CompareValues(b, a) == Reverse(CompareValues(a, b))
  {
    if a.String? && b.String? {
      LexTotal(a.s, b.s);
      if LexLess(a.s, b.s) { LexAsymmetric(a.s, b.s); }
      if LexLess(b.s, a.s) { LexAsymmetric(b.s, a.s); }
    }
  }

  lemma CompareTransitive(a: ObeValue, b: ObeValue, c: ObeValue)
    requires CompareValues(a, b) == Some(Less) && CompareValues(b, c) == Some(Less)
    ensures CompareValues(a, c) == Some(Less)
  {
    if a.String? && b.String? && c.String? { LexTransitive(a.s, b.s, c.s); }
  }

  // ---- Equality, exactly ----

  predicate IsNumber(v: ObeValue) { v.Int32? || v.Int64? || v.Float64? }

  /** Two values of kinds that can be equal: numbers of any type are of one kind. */
  predicate SameKind(a: ObeValue, b: ObeValue) {
    (a.Null? && b.Null?) || (a.Bool? && b.Bool?) || (a.String? && b.String?) || (a.Array? && b.Array?)
    || (a.Document? && b.Document?) || (IsNumber(a) && IsNumber(b))
  }

  lemma OnlySameKind(a: ObeValue, b: ObeValue)
    requires !SameKind(a, b)
    ensures !ValuesEqual(a, b)
  {}

  lemma ScalarsEqual(a: ObeValue, b: ObeValue)
    requires a.Null? || a.Bool? || a.String?
    ensures ValuesEqual(a, b) <==> a == b
  {}

  /** The numbers that 32-bit integers, integers up to `2^53` and floats stand for. */
  predicate Stands(v: ObeValue, x: real) {
    match v
    case Int32(i) => x == i as real
    case Int64(l) => 0 - TWO_53 <= l <= TWO_53 && x == l as real
    case Float64(bits) => Denotes(bits) == Finite(x)
    case _ => false
  }

  /** Numbers are equal when they differ by less than `2^-52`. */
  lemma NumbersEqual(a: ObeValue, b: ObeValue, x: real, y: real)
    requires Stands(a, x) && Stands(b, y)
    ensures ValuesEqual(a, b) <==> x - y < 1.0 / 4503599627370496.0 && y - x < 1.0 / 4503599627370496.0
  {
    StandsFor(a, x);
    StandsFor(b, y);
  }

  lemma StandsFor(v: ObeValue, x: real)
    requires Stands(v, x)
    ensures AsF64(v) == Some(Finite(x))
  {
    if v.Int64? { RoundedExact(v.l); }
  }

  /** A float that is NaN or infinite equals nothing. */
  lemma NoNumberEqual(a: ObeValue, b: ObeValue)
    requires a.Float64? && !Denotes(a.bits).Finite?
    ensures !ValuesEqual(a, b) && !ValuesEqual(b, a)
  {}

  lemma ArraysEqual(s: seq<ObeValue>, t: seq<ObeValue>)
    ensures ValuesEqual(Array(s), Array(t)) <==> |s| == |t| && forall i :: 0 <= i < |s| ==> ValuesEqual(s[i], t[i])
  {}

  lemma {:induction false} SameKeys(s: Fields, t: Fields)
    requires TextMap.Sorted(s) && TextMap.Sorted(t) && |s| == |t| && KeysOf(s) == KeysOf(t)
    ensures forall i :: 0 <= i < |s| ==> s[i].0 == t[i].0
    decreases |s|
  {
    if |s| > 0 {
      SameFirst(s, t);
      RestKeys(s);
      RestKeys(t);
      SameKeys(s[1..], t[1..]);
      forall i | 0 <= i < |s| ensures s[i].0 == t[i].0 {
        if i > 0 { assert s[i] == s[1..][i - 1] && t[i] == t[1..][i - 1]; }
      }
    }
  }

  lemma SameFirst(s: Fields, t: Fields)
    requires TextMap.Sorted(s) && TextMap.Sorted(t) && |s| > 0 && |t| > 0 && KeysOf(s) == KeysOf(t)
    ensures s[0].0 == t[0].0
  {
    assert s[0] in s && t[0] in t && s[0].0 in KeysOf(t) && t[0].0 in KeysOf(s);
    var i :| 0 <= i < |t| && t[i].0 == s[0].0;
    var j :| 0 <= j < |s| && s[j].0 == t[0].0;
    if i > 0 && j > 0 { LexAsymmetric(s[0].0, t[0].0); }
  }

  lemma RestKeys(s: Fields)
    requires TextMap.Sorted(s) && |s| > 0
    ensures TextMap.Sorted(s[1..]) && KeysOf(s[1..]) == KeysOf(s) - {s[0].0}
  {
    LexIrreflexive(s[0].0);
    assert s == [s[0]] + s[1..];
    forall f | f in s[1..] ensures f.0 != s[0].0 {
      var i :| 0 <= i < |s| - 1 && s[1..][i] == f;
      assert LexLess(s[0].0, s[i + 1].0);
    }
  }

  /** Documents are equal when they have the same keys and equal values at each. */
  lemma DocumentsEqual(s: Fields, t: Fields)
    requires WellFormed(Document(s)) && WellFormed(Document(t))
    ensures ValuesEqual(Document(s), Document(t))
       <==> |s| == |t| && forall i :: 0 <= i < |s| ==> s[i].0 == t[i].0 && ValuesEqual(s[i].1, t[i].1)
  {
    if |s| == |t| {
      if forall i :: 0 <= i < |s| ==> TextMap.Get(t, s[i].0).Some? {
        KeyCount(s);
        KeyCount(t);
        forall k | k in KeysOf(s) ensures k in KeysOf(t) { TextMap.GetMember(t, k); }
        SubsetOfSameSize(KeysOf(s), KeysOf(t));
        SameKeys(s, t);
      }
      forall i | 0 <= i < |s| && s[i].0 == t[i].0 ensures TextMap.Get(t, s[i].0) == Some(t[i].1) {
        TextMap.GetAt(t, i);
      }
    }
  }

  /** Without numbers in it a plain value equals exactly itself. */
  predicate NumberFree(v: ObeValue) {
    match v
    case Array(elems) => forall i :: 0 <= i < |elems| ==> NumberFree(elems[i])
    case Document(entries) => forall i :: 0 <= i < |entries| ==> NumberFree(entries[i].1)
    case _ => v.Null? || v.Bool? || v.String?
  }

  lemma {:induction false} EqualIsSame(a: ObeValue, b: ObeValue)
    requires WellFormed(a) && WellFormed(b) && NumberFree(a)
    ensures ValuesEqual(a, b) <==> a == b
    decreases a
  {
    if a.Array? && b.Array? {
      forall i | 0 <= i < |a.elems| && |a.elems| == |b.elems|
        ensures ValuesEqual(a.elems[i], b.elems[i]) <==> a.elems[i] == b.elems[i]
      {
        EqualIsSame(a.elems[i], b.elems[i]);
      }
    } else if a.Document? && b.Document? {
      var s, t := a.entries, b.entries;
      DocumentsEqual(s, t);
      forall i | 0 <= i < |s| && |s| == |t| ensures ValuesEqual(s[i].1, t[i].1) <==> s[i].1 == t[i].1 {
        EqualIsSame(s[i].1, t[i].1);
      }
      if ValuesEqual(a, b) { assert forall i :: 0 <= i < |s| ==> s[i] == t[i]; }
      if s == t { assert ValuesEqual(a, b); }
    }
  }

  // ---- Order, exactly ----

  /** `s` comes before `t` in a dictionary of bytes. */
  predicate Before(s: Text, t: Text) {
    exists k :: 0 <= k <= |s| && k <= |t| && s[..k] == t[..k] && (if k == |s| then k < |t| else k < |t| && s[k] < t[k])
  }

  lemma {:induction false} LexIsBefore(s: Text, t: Text)
    ensures LexLess(s, t) <==> Before(s, t)
  {
    if |s| > 0 && |t| > 0 && s[0] == t[0] {
      LexIsBefore(s[1..], t[1..]);
      BeforeTail(s, t);
    } else if |t| > 0 && (|s| == 0 || s[0] < t[0]) {
      assert s[..0] == t[..0];
    }
  }

  lemma BeforeTail(s: Text, t: Text)
    requires |s| > 0 && |t| > 0 && s[0] == t[0]
    ensures Before(s, t) <==> Before(s[1..], t[1..])
  {
    if k :| 0 <= k <= |s| && k <= |t| && s[..k] == t[..k] && (if k == |s| then k < |t| else k < |t| && s[k] < t[k]) {
      assert k > 0 && s[..k][1..] == s[1..][..k - 1] && t[..k][1..] == t[1..][..k - 1];
    }
    var a, b := s[1..], t[1..];
    if k :| 0 <= k <= |a| && k <= |b| && a[..k] == b[..k] && (if k == |a| then k < |b| else k < |b| && a[k] < b[k]) {
      assert s[..k + 1] == [s[0]] + a[..k] && t[..k + 1] == [t[0]] + b[..k];
    }
  }

  lemma StringsCompare(s: Utf8, t: Utf8)
    ensures CompareValues(String(s), String(t)) == Some(Less) <==> Before(s, t)
    ensures CompareValues(String(s), String(t)) == Some(Equal) <==> s == t
    ensures CompareValues(String(s), String(t)) == Some(Greater) <==> Before(t, s)
  {
    LexTotal(s, t);
    LexIsBefore(s, t);
    LexIsBefore(t, s);
    if LexLess(s, t) { LexAsymmetric(s, t); LexIrreflexive(s); }
    if LexLess(t, s) { LexIrreflexive(s); }
  }

  lemma NumbersCompare(a: ObeValue, b: ObeValue, x: real, y: real)
    requires Stands(a, x) && Stands(b, y)
    ensures CompareValues(a, b) == Some(Less) <==> x < y
    ensures CompareValues(a, b) == Some(Equal) <==> x == y
    ensures CompareValues(a, b) == Some(Greater) <==> x > y
  {
    StandsFor(a, x);
    StandsFor(b, y);
  }

  lemma OthersCompare(a: ObeValue, b: ObeValue)
    ensures a.Timestamp? && b.Timestamp? ==>
      (CompareValues(a, b) == Some(Less) <==> a.ts < b.ts) && (CompareValues(a, b) == Some(Equal) <==> a.ts == b.ts)
    ensures a.Bool? && b.Bool? ==>
      (CompareValues(a, b) == Some(Less) <==> !a.b && b.b) && (CompareValues(a, b) == Some(Equal) <==> a.b == b.b)
    ensures (a.Bool? || a.String? || a.Timestamp? || IsNumber(a)) && !SameKind(a, b) && !(a.Timestamp? && b.Timestamp?)
      ==> CompareValues(a, b).None?
    ensures a.Null? || a.Array? || a.Document? ==> CompareValues(a, b).None?
  {}

  // ---- The numbers that floats denote ----

  /** The sign bit, eleven bits of exponent and 52 of fraction. */
  lemma FloatParts(negative: bool, e: nat, f: nat)
    requires e < 2048 && f < TWO_52
    ensures var bits := (if negative then TWO_63 else 0) + e * TWO_52 + f;
      bits < TWO_64 && Denotes(bits) == FromParts(negative, e, f)
  {
    var bits := (if negative then TWO_63 else 0) + e * TWO_52 + f;
    assert bits / TWO_52 % 2048 == e && bits % TWO_52 == f;
  }

  function IntPower(n: nat): (p: nat)
    ensures p > 0
  {
    if n == 0 then 1 else 2 * IntPower(n - 1)
  }

  lemma {:induction false} PowerInverse(n: nat)
    ensures PowerOfTwo(0 - n) == 1.0 / IntPower(n) as real
  {
    if n > 0 {
      PowerInverse(n - 1);
      Halved(IntPower(n - 1) as real);
    }
  }

  lemma Halved(p: real)
    requires p > 0.0
    ensures 1.0 / p / 2.0 == 1.0 / (2.0 * p)
  {}

  lemma Doubled(a: real, b: real)
    ensures a * (2.0 * b) == 2.0 * (a * b)
  {}

  lemma OneAndRest(f: real, d: real)
    requires d > 0.0
    ensures (f + d) * (1.0 / d) == 1.0 + f / d
  {}

  /** With the exponent of one a float is one plus its fraction. */
  lemma FloatOne(one: nat, f: nat)
    requires one == 1023
    ensures FromParts(false, one, f) == Finite(1.0 + f as real / 4503599627370496.0)
  {
    var n: nat := 1075 - one;
    PowerInverse(n);
    PowerAt(n);
    OneAndRest(f as real, TWO_52 as real);
  }

  lemma PowerAt(n: nat)
    requires n == 52
    ensures IntPower(n) == TWO_52
  {
    var k: nat := n - 48;
    SmallPower(k);
    hide *;
    PowerStep(k, k, 16, 16);
    PowerStep(2 * k, 2 * k, 256, 256);
    PowerStep(4 * k, 4 * k, TWO_16, TWO_16);
    PowerStep(8 * k, 4 * k, TWO_32, TWO_16);
    PowerStep(12 * k, k, TWO_48, 16);
  }

  lemma SmallPower(k: nat)
    requires k == 4
    ensures IntPower(k) == 16
  {
    assert IntPower(k - 3) == 2 && IntPower(k - 2) == 4 && IntPower(k - 1) == 8;
  }

  lemma PowerStep(a: nat, b: nat, x: nat, y: nat)
    requires IntPower(a) == x && IntPower(b) == y
    ensures IntPower(a + b) == x * y
  {
    PowerSum(a, b);
  }

  lemma {:induction false} PowerSum(a: nat, b: nat)
    ensures IntPower(a + b) == IntPower(a) * IntPower(b)
  {
    if a > 0 { PowerSum(a - 1, b); }
  }

  /** The next exponent doubles it, the sign negates it. */
  lemma FloatScales(e: nat, f: nat)
    requires 1 <= e < 2046
    ensures FromParts(false, e, f).Finite?
    ensures FromParts(false, e + 1, f) == Finite(2.0 * FromParts(false, e, f).value)
    ensures FromParts(true, e, f) == Finite(0.0 - FromParts(false, e, f).value)
  {
    PowerPositive(e - 1075);
    Doubled((f + TWO_52) as real, PowerOfTwo(e - 1075));
  }

  /** Below the smallest exponent floats are as far apart as above it; the largest exponent is
      infinity and what is no number. */
  lemma FloatEnds(negative: bool, f: nat)
    ensures FromParts(false, 1, 0).Finite? && FromParts(false, 1, f).Finite?
    ensures FromParts(false, 0, f) == Finite(FromParts(false, 1, f).value - FromParts(false, 1, 0).value)
    ensures FromParts(negative, 2047, f) == if f == 0 then Infinite(negative) else NaN
  {
    Spread(f as real, TWO_52 as real, PowerOfTwo(-1074));
  }

  lemma Spread(a: real, b: real, p: real)
    ensures a * p == (a + b) * p - b * p
  {}

  // ---- Values from JSON ----

  /** Integers keep their value, in the smaller type if they fit. */
  lemma FromInteger(i: i64)
    ensures FromJson(JInt(i)) == if -2147483648 <= i <= 2147483647 then Int32(i) else Int64(i)
    ensures -9007199254740992 <= i <= 9007199254740992 ==> Stands(FromJson(JInt(i)), i as real)
  {}

  lemma FromArray(elems: seq<Json>, i: nat)
    requires i < |elems|
    ensures var v := FromJson(JArray(elems)); v.Array? && |v.elems| == |elems| && v.elems[i] == FromJson(elems[i])
  {}

  lemma {:induction false} FromSorted(json: Json, n: nat)
    requires json.JObject? && n <= |json.entries|
    ensures TextMap.Sorted(FromEntries(json, n))
  {
    if n > 0 {
      FromSorted(json, n - 1);
      TextMap.InsertSorted(FromEntries(json, n - 1), json.entries[n - 1].0, FromJson(json.entries[n - 1].1));
    }
  }

  /** The place of the last entry for `k` among the first `n`. */
  function LastEntry(entries: seq<(Text, Json)>, n: nat, k: Text): Option<nat>
    requires n <= |entries|
  {
    if n == 0 then None else if entries[n - 1].0 == k then Some(n - 1) else LastEntry(entries, n - 1, k)
  }

  lemma {:induction false} LastEntryAt(entries: seq<(Text, Json)>, n: nat, k: Text)
    requires n <= |entries|
    ensures match LastEntry(entries, n, k)
            case None => forall i :: 0 <= i < n ==> entries[i].0 != k
            case Some(i) => i < n && entries[i].0 == k && forall j :: i < j < n ==> entries[j].0 != k
  {
    if n > 0 && entries[n - 1].0 != k { LastEntryAt(entries, n - 1, k); }
  }

  lemma {:induction false} FromEntriesGet(json: Json, n: nat, k: Text)
    requires json.JObject? && n <= |json.entries|
    ensures match LastEntry(json.entries, n, k)
            case None => TextMap.Get(FromEntries(json, n), k) == None
            case Some(i) => i < n && TextMap.Get(FromEntries(json, n), k) == Some(FromJson(json.entries[i].1))
  {
    if n > 0 {
      FromEntriesGet(json, n - 1, k);
      TextMap.GetInsert(FromEntries(json, n - 1), json.entries[n - 1].0, FromJson(json.entries[n - 1].1), k);
    }
  }

  /** An object gives the map of its entries, the last one of a repeated key. */
  lemma FromObject(entries: seq<(Text, Json)>, k: Text)
    ensures var v := FromJson(JObject(entries));
      v.Document? && TextMap.Sorted(v.entries)
      && match LastEntry(entries, |entries|, k)
         case None => TextMap.Get(v.entries, k) == None
         case Some(i) => i < |entries| && TextMap.Get(v.entries, k) == Some(FromJson(entries[i].1))
  {
    FromSorted(JObject(entries), |entries|);
    LastEntryAt(entries, |entries|, k);
    FromEntriesGet(JObject(entries), |entries|, k);
  }
}
