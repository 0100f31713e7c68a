/** The accumulators of the `$group` stage. */
module Accumulators {
  import opened Bytes
  import opened ObeValue
  import opened Json
  import opened Rounding

  datatype Expr = FieldPath(path: Text) | Literal(value: ObeValue)

  /** The accumulators that do not add floats. */
  datatype Accumulator =
    | Min(expr: Expr)
    | Max(expr: Expr)
    | First(expr: Expr)
    | Last(expr: Expr)
    | Push(expr: Expr)
    | AddToSet(expr: Expr)
    | Count

  /** `resolve_expr_value`. */
  function Resolve(expr: Expr, d: ObeDocument): Option<ObeValue> {
    match expr
    case FieldPath(path) => GetPath(d.fields, path)
    case Literal(v) => Some(v)
  }

  function PushAll(expr: Expr, docs: seq<ObeDocument>): seq<ObeValue> {
    if |docs| == 0 then []
    else
      var last := |docs| - 1;
      var v := Resolve(expr, docs[last]);
      if v.Some? then PushAll(expr, docs[..last]) + [v.value] else PushAll(expr, docs[..last])
  }

  // ---- $min and $max ----

  const TWO_128: int := TWO_64 * TWO_64
  const TWO_256: int := TWO_128 * TWO_128
  const TWO_971: int := TWO_256 * TWO_256 * TWO_256 * TWO_128 * TWO_64 * 2048

  /** `f64::MAX` and `f64::MIN`, by which the code ranks what is not a number. */
  const LARGEST: F64 := Finite(((TWO_53 - 1) * TWO_971) as real)
  const LOWEST: F64 := Finite((0 - (TWO_53 - 1) * TWO_971) as real)

  function Rank(v: ObeValue, otherwise: F64): F64 {
    var x := AsF64(v);
    if x.Some? then x.value else otherwise
  }

  function Ranks(values: seq<ObeValue>, otherwise: F64): seq<F64> {
    seq(|values|, i requires 0 <= i < |values| => Rank(values[i], otherwise))
  }

  /** Whether the new rank takes the place of the best so far: `min_by` keeps the earlier of two
      that compare equal, as NaN does with everything; `max_by` takes the later. */
  predicate Below(best: F64, next: F64) { CompareF64(best, next) == Some(Greater) }

  /** Where `min_by` ends. */
  function MinAt(ranks: seq<F64>): (i: nat)
    requires |ranks| > 0
    ensures i < |ranks|
  {
    var last := |ranks| - 1;
    if last == 0 then 0
    else
      var best := MinAt(ranks[..last]);
      if Below(ranks[best], ranks[last]) then last else best
  }

  /** Where `max_by` ends. */
  function MaxAt(ranks: seq<F64>): (i: nat)
    requires |ranks| > 0
    ensures i < |ranks|
  {
    var last := |ranks| - 1;
    if last == 0 then 0
    else
      var best := MaxAt(ranks[..last]);
      if !Below(ranks[best], ranks[last]) then last else best
  }

  predicate AtMost(a: F64, b: F64) {
    var o := CompareF64(a, b);
    o == Some(Less) || o == Some(Equal)
  }

  /** No number among the ranks is below `r`, and it is a number if there is one. */
  predicate Least(r: F64, ranks: seq<F64>) {
    forall i :: 0 <= i < |ranks| && !ranks[i].NaN? ==> AtMost(r, ranks[i])
  }

  predicate Greatest(r: F64, ranks: seq<F64>) {
    forall i :: 0 <= i < |ranks| && !ranks[i].NaN? ==> AtMost(ranks[i], r)
  }

  lemma AtMostTotal(a: F64, b: F64)
    requires !a.NaN? && !b.NaN?
    ensures AtMost(a, a) && (Below(a, b) ==> AtMost(b, a)) && (!Below(a, b) ==> AtMost(a, b))
  {}

  lemma AtMostTransitive(a: F64, b: F64, c: F64)
    requires AtMost(a, b) && AtMost(b, c)
    ensures AtMost(a, c)
  {}

  /** `$min` gives a least value exactly when the first value is a number or there is none. */
  lemma {:induction false} MinExact(ranks: seq<F64>)
    requires |ranks| > 0
    ensures Least(ranks[MinAt(ranks)], ranks) <==> !ranks[0].NaN? || forall i :: 0 <= i < |ranks| ==> ranks[i].NaN?
    ensures ranks[0].NaN? <==> ranks[MinAt(ranks)].NaN?
  {
    var last := |ranks| - 1;
    var front := ranks[..last];
    if last == 0 {
      if !ranks[0].NaN? { AtMostTotal(ranks[0], ranks[0]); }
    } else {
      MinExact(front);
      var best := front[MinAt(front)];
      assert front[0] == ranks[0];
      if !best.NaN? {
        assert ranks == front + [ranks[last]];
      } else if i :| 0 <= i < |ranks| && !ranks[i].NaN? {
        assert !AtMost(best, ranks[i]);
      }
    }
  }

  /** Among numbers alone `$max` gives a greatest one. */
  lemma {:induction false} MaxOfNumbers(ranks: seq<F64>)
    requires |ranks| > 0 && forall i :: 0 <= i < |ranks| ==> !ranks[i].NaN?
    ensures Greatest(ranks[MaxAt(ranks)], ranks)
  {
    var last := |ranks| - 1;
    var front := ranks[..last];
    AtMostTotal(ranks[last], ranks[last]);
    if last > 0 {
      MaxOfNumbers(front);
      assert ranks == front + [ranks[last]];
    }
  }

  /** `$max` forgets everything before the last NaN. */
  lemma {:induction false} MaxAfterNaN(before: seq<F64>, after: seq<F64>)
    requires forall i :: 0 <= i < |after| ==> !after[i].NaN?
    ensures var ranks := before + [NaN] + after;
      MaxAt(ranks) == |before| + if |after| == 0 then 0 else 1 + MaxAt(after)
    decreases |after|
  {
    var ranks := before + [NaN] + after;
    if |after| > 0 {
      var last := |after| - 1;
      assert ranks[..|ranks| - 1] == before + [NaN] + after[..last];
      MaxAfterNaN(before, after[..last]);
    }
  }

  /** So it gives a greatest value exactly when some number after the last NaN is at least
      every number before it. */
  lemma MaxExact(before: seq<F64>, after: seq<F64>)
    requires forall i :: 0 <= i < |after| ==> !after[i].NaN?
    ensures var ranks := before + [NaN] + after;
      Greatest(ranks[MaxAt(ranks)], ranks)
      <==> forall i :: 0 <= i < |before| && !before[i].NaN? ==> exists j :: 0 <= j < |after| && AtMost(before[i], after[j])
  {
    var ranks := before + [NaN] + after;
    MaxAfterNaN(before, after);
    if |after| > 0 { MaxOfNumbers(after); }
    var best := ranks[MaxAt(ranks)];
    if Greatest(best, ranks) {
      forall i | 0 <= i < |before| && !before[i].NaN? ensures exists j :: 0 <= j < |after| && AtMost(before[i], after[j]) {
        assert ranks[i] == before[i];
        assert AtMost(before[i], best);
        assert after[MaxAt(after)] == best;
      }
    }
    if forall i :: 0 <= i < |before| && !before[i].NaN? ==> exists j :: 0 <= j < |after| && AtMost(before[i], after[j]) {
      forall i | 0 <= i < |ranks| && !ranks[i].NaN? ensures AtMost(ranks[i], best) {
        if i < |before| {
          assert before[i] == ranks[i];
          var j :| 0 <= j < |after| && AtMost(before[i], after[j]);
          AtMostTransitive(before[i], after[j], best);
        } else {
          assert ranks[i] == after[i - |before| - 1];
        }
      }
    }
  }

  /** One NaN hides a number: `$min` keeps a NaN that comes first, `$max` one that comes last. */
  lemma NaNHides()
    ensures !Least([NaN, Finite(0.0)][MinAt([NaN, Finite(0.0)])], [NaN, Finite(0.0)])
    ensures !Greatest([Finite(0.0), NaN][MaxAt([Finite(0.0), NaN])], [Finite(0.0), NaN])
  {
    var a, b := [NaN, Finite(0.0)], [Finite(0.0), NaN];
    assert a[..1] == [NaN] && b[..1] == [Finite(0.0)];
    assert !AtMost(a[0], a[1]) && !AtMost(b[0], b[1]);
  }

  // ---- $addToSet ----

  /** The equality that is derived for values: floats compare as numbers. */
  predicate Alike(a: ObeValue, b: ObeValue)
    decreases a
  {
    if a.Float64? && b.Float64? then AlikeF64(a.bits, b.bits)
    else if a.GeoPoint? && b.GeoPoint? then AlikeF64(a.lat, b.lat) && AlikeF64(a.lng, b.lng)
    else if a.Array? && b.Array? then
      |a.elems| == |b.elems| && forall i :: 0 <= i < |a.elems| ==> Alike(a.elems[i], b.elems[i])
    else if a.Document? && b.Document? then
      |a.entries| == |b.entries|
      && forall i :: 0 <= i < |a.entries| ==>
        a.entries[i].0 == b.entries[i].0 && Alike(a.entries[i].1, b.entries[i].1)
    else a == b
  }

  predicate AlikeF64(x: u64, y: u64) { CompareF64(Denotes(x), Denotes(y)) == Some(Equal) }

  predicate FloatFree(v: ObeValue) {
    match v
    case Array(elems) => forall i :: 0 <= i < |elems| ==> FloatFree(elems[i])
    case Document(entries) => forall i :: 0 <= i < |entries| ==> FloatFree(entries[i].1)
    case _ => !v.Float64? && !v.GeoPoint?
  }

  /** Without floats in it a value is like exactly itself; floats are alike when they denote one
      number or one infinity. */
  lemma {:induction false} AlikeExact(a: ObeValue, b: ObeValue)
    ensures FloatFree(a) ==> (Alike(a, b) <==> a == b)
    ensures a.Float64? && b.Float64? ==> (Alike(a, b) <==> !Denotes(a.bits).NaN? && Denotes(a.bits) == Denotes(b.bits))
    ensures a.Float64? != b.Float64? ==> !Alike(a, b)
    decreases a
  {
    if a.Array? && b.Array? {
      forall i | 0 <= i < |a.elems| && |a.elems| == |b.elems|
        ensures FloatFree(a.elems[i]) ==> (Alike(a.elems[i], b.elems[i]) <==> a.elems[i] == b.elems[i])
      {
        AlikeExact(a.elems[i], b.elems[i]);
      }
    } else if a.Document? && b.Document? {
      var s, t := a.entries, b.entries;
      forall i | 0 <= i < |s| && |s| == |t|
        ensures FloatFree(s[i].1) ==> (Alike(s[i].1, t[i].1) <==> s[i].1 == t[i].1)
      {
        AlikeExact(s[i].1, t[i].1);
      }
      if FloatFree(a) && Alike(a, b) { assert forall i :: 0 <= i < |s| ==> s[i] == t[i]; }
    }
  }

  lemma {:induction false} AlikeSymmetric(a: ObeValue, b: ObeValue)
    requires Alike(a, b)
    ensures Alike(b, a)
    decreases a
  {
    if a.Array? {
      forall i | 0 <= i < |a.elems| ensures Alike(b.elems[i], a.elems[i]) { AlikeSymmetric(a.elems[i], b.elems[i]); }
    } else if a.Document? {
      forall i | 0 <= i < |a.entries| ensures Alike(b.entries[i].1, a.entries[i].1) {
        AlikeSymmetric(a.entries[i].1, b.entries[i].1);
      }
    }
  }

  lemma {:induction false} AlikeTransitive(a: ObeValue, b: ObeValue, c: ObeValue)
    requires Alike(a, b) && Alike(b, c)
    ensures Alike(a, c)
    decreases a
  {
    if a.Array? {
      forall i | 0 <= i < |a.elems| ensures Alike(a.elems[i], c.elems[i]) {
        AlikeTransitive(a.elems[i], b.elems[i], c.elems[i]);
      }
    } else if a.Document? {
      forall i | 0 <= i < |a.entries| ensures Alike(a.entries[i].1, c.entries[i].1) {
        AlikeTransitive(a.entries[i].1, b.entries[i].1, c.entries[i].1);
      }
    }
  }

  predicate Has(found: seq<ObeValue>, v: ObeValue) { exists i :: 0 <= i < |found| && Alike(found[i], v) }

  /** The values that `$addToSet` collects, in the order in which they first appear. */
  function Collected(values: seq<ObeValue>): seq<ObeValue> {
    if |values| == 0 then []
    else
      var last := |values| - 1;
      var found := Collected(values[..last]);
      if Has(found, values[last]) then found else found + [values[last]]
  }

  /** How often `v` itself is in `s`. */
  function Times(s: seq<ObeValue>, v: ObeValue): nat { multiset(s)[v] }

  lemma {:induction false} CollectedApart(values: seq<ObeValue>, i: nat, j: nat)
    requires i < j < |Collected(values)|
    ensures !Alike(Collected(values)[i], Collected(values)[j])
  {
    var last := |values| - 1;
    if j < |Collected(values[..last])| { CollectedApart(values[..last], i, j); }
  }

  lemma {:induction false} CollectedHas(values: seq<ObeValue>, v: ObeValue)
    requires v in values && Alike(v, v)
    ensures Has(Collected(values), v)
  {
    var last := |values| - 1;
    var found, all := Collected(values[..last]), Collected(values);
    if v in values[..last] {
      CollectedHas(values[..last], v);
      var i :| 0 <= i < |found| && Alike(found[i], v);
      assert all[i] == found[i];
    } else if !Has(found, v) {
      assert all[|found|] == v;
    }
  }

  /** A value that equals itself is in the set exactly once. */
  lemma SetOnce(values: seq<ObeValue>, v: ObeValue) returns (i: nat)
    requires v in values && Alike(v, v)
    ensures i < |Collected(values)|
    ensures forall j :: 0 <= j < |Collected(values)| ==> (Alike(Collected(values)[j], v) <==> j == i)
  {
    var found := Collected(values);
    CollectedHas(values, v);
    i :| 0 <= i < |found| && Alike(found[i], v);
    forall j | 0 <= j < |found| && j != i ensures !Alike(found[j], v) {
      if Alike(found[j], v) {
        AlikeSymmetric(found[j], v);
        AlikeSymmetric(found[i], v);
        AlikeTransitive(found[i], v, found[j]);
        AlikeTransitive(found[j], v, found[i]);
        CollectedApart(values, if i < j then i else j, if i < j then j else i);
      }
    }
  }

  lemma NothingLike(found: seq<ObeValue>, v: ObeValue)
    requires !Alike(v, v)
    ensures !Has(found, v)
  {
    forall i | 0 <= i < |found| ensures !Alike(found[i], v) {
      if Alike(found[i], v) {
        AlikeSymmetric(found[i], v);
        AlikeTransitive(v, found[i], v);
      }
    }
  }

  /** A value with a NaN in it does not equal itself: it is in the set as often as it came. */
  lemma {:induction false} SetRepeats(values: seq<ObeValue>, v: ObeValue)
    requires !Alike(v, v)
    ensures Times(Collected(values), v) == Times(values, v)
  {
    if |values| > 0 {
      var front, x := values[..|values| - 1], values[|values| - 1];
      SetRepeats(front, v);
      assert values == front + [x];
      if x == v { NothingLike(Collected(front), v); }
    }
  }

  // ---- compute_accumulator ----

  function Accumulate(acc: Accumulator, docs: seq<ObeDocument>): ObeValue {
    match acc
    case Min(expr) =>
      var values := PushAll(expr, docs);
      if |values| == 0 then Null else values[MinAt(Ranks(values, LARGEST))]
    case Max(expr) =>
      var values := PushAll(expr, docs);
      if |values| == 0 then Null else values[MaxAt(Ranks(values, LOWEST))]
    case First(expr) => if |docs| == 0 then Null else OrNull(Resolve(expr, docs[0]))
    case Last(expr) => if |docs| == 0 then Null else OrNull(Resolve(expr, docs[|docs| - 1]))
    case Push(expr) => Array(PushAll(expr, docs))
    case AddToSet(expr) => Array(Collected(PushAll(expr, docs)))
    case Count => Int64(Signed(|docs| % TWO_64, TWO_63))
  }

  // ---- What the accumulators give ----

  /** The documents that have a value for `expr`, in order. */
  lemma {:induction false} PushAllAppend(expr: Expr, docs: seq<ObeDocument>, d: ObeDocument)
    ensures PushAll(expr, docs + [d])
         == match Resolve(expr, d) { case None => PushAll(expr, docs) case Some(v) => PushAll(expr, docs) + [v] }
  {
    assert (docs + [d])[..|docs|] == docs;
  }

  /** `v` ranks as the float `x`: as its number, or as `otherwise` if it is none. */
  predicate RanksAs(v: ObeValue, otherwise: F64, x: F64) {
    match v
    case Int32(i) => x == Finite(i as real)
    case Int64(l) => x == Finite(RoundedInt(l) as real)
    case Float64(bits) => x == Denotes(bits)
    case _ => x == otherwise
  }

  lemma RanksOf(values: seq<ObeValue>, otherwise: F64, i: nat)
    requires i < |values|
    ensures |Ranks(values, otherwise)| == |values| && RanksAs(values[i], otherwise, Ranks(values, otherwise)[i])
  {}

  /** `$min`: null for no values; else one of them, and none ranks below it if and only if the
      first is not NaN or all are. */
  lemma MinGives(expr: Expr, docs: seq<ObeDocument>) returns (i: nat)
    ensures var values := PushAll(expr, docs);
      |values| == 0 ==> Accumulate(Min(expr), docs) == Null
    ensures var values := PushAll(expr, docs); var ranks := Ranks(values, LARGEST);
      |values| > 0 ==>
        i < |values| && Accumulate(Min(expr), docs) == values[i]
        && (Least(ranks[i], ranks) <==> !ranks[0].NaN? || forall j :: 0 <= j < |ranks| ==> ranks[j].NaN?)
  {
    var ranks := Ranks(PushAll(expr, docs), LARGEST);
    i := 0;
    if |ranks| > 0 {
      i := MinAt(ranks);
      MinExact(ranks);
    }
  }

  /** `$max`: null for no values; else one of them, and if none is NaN none ranks above it. */
  lemma MaxGives(expr: Expr, docs: seq<ObeDocument>) returns (i: nat)
    ensures var values := PushAll(expr, docs);
      |values| == 0 ==> Accumulate(Max(expr), docs) == Null
    ensures var values := PushAll(expr, docs); var ranks := Ranks(values, LOWEST);
      |values| > 0 ==>
        i < |values| && Accumulate(Max(expr), docs) == values[i] && i == MaxAt(ranks)
        && ((forall j :: 0 <= j < |ranks| ==> !ranks[j].NaN?) ==> Greatest(ranks[i], ranks))
  {
    var ranks := Ranks(PushAll(expr, docs), LOWEST);
    i := 0;
    if |ranks| > 0 {
      i := MaxAt(ranks);
      if forall j :: 0 <= j < |ranks| ==> !ranks[j].NaN? { MaxOfNumbers(ranks); }
    }
  }

  /** With NaN among them, `before` the last one and numbers `after` it: none ranks above the
      result if and only if each number before has one after it that is at least as large. */
  lemma MaxGivesAfterNaN(expr: Expr, docs: seq<ObeDocument>, ranks: seq<F64>, before: seq<F64>, after: seq<F64>)
    returns (i: nat)
    requires ranks == Ranks(PushAll(expr, docs), LOWEST) && ranks == before + [NaN] + after
    requires forall i :: 0 <= i < |after| ==> !after[i].NaN?
    ensures i < |ranks| == |PushAll(expr, docs)| && Accumulate(Max(expr), docs) == PushAll(expr, docs)[i]
    ensures Greatest(ranks[i], ranks)
       <==> forall k :: 0 <= k < |before| && !before[k].NaN? ==> exists j :: 0 <= j < |after| && AtMost(before[k], after[j])
  {
    i := MaxGives(expr, docs);
    MaxExact(before, after);
  }

  /** Numbers alone: the smallest and the largest of the values. */
  lemma ExtremesOfIntegers(expr: Expr, docs: seq<ObeDocument>, x: i32, y: i32)
    requires PushAll(expr, docs) == [Int32(x), Int32(y)]
    ensures Accumulate(Min(expr), docs) == Int32(if x <= y then x else y)
    ensures Accumulate(Max(expr), docs) == Int32(if x <= y then y else x)
  {
    var i := MinGives(expr, docs);
    var j := MaxGives(expr, docs);
    var values := PushAll(expr, docs);
    RanksOf(values, LARGEST, 0);
    RanksOf(values, LARGEST, 1);
    RanksOf(values, LOWEST, 0);
    RanksOf(values, LOWEST, 1);
  }

  /** `$first` and `$last` look at one document each; `$count` at none. */
  lemma EndsGive(expr: Expr, docs: seq<ObeDocument>)
    ensures |docs| == 0 ==> Accumulate(First(expr), docs) == Null && Accumulate(Last(expr), docs) == Null
    ensures |docs| > 0 && Resolve(expr, docs[0]).Some? ==> Some(Accumulate(First(expr), docs)) == Resolve(expr, docs[0])
    ensures |docs| > 0 && Resolve(expr, docs[0]).None? ==> Accumulate(First(expr), docs) == Null
    ensures var last := |docs| - 1;
      |docs| > 0 && Resolve(expr, docs[last]).Some? ==> Some(Accumulate(Last(expr), docs)) == Resolve(expr, docs[last])
    ensures var last := |docs| - 1;
      |docs| > 0 && Resolve(expr, docs[last]).None? ==> Accumulate(Last(expr), docs) == Null
    ensures |docs| < TWO_63 ==> Accumulate(Count, docs) == Int64(|docs|)
  {}

  /** `$addToSet` gives nothing else than the values, and each that equals itself once, up to
      equality. */
  lemma SetGivesOnce(expr: Expr, docs: seq<ObeDocument>, v: ObeValue) returns (found: seq<ObeValue>, i: nat)
    requires v in PushAll(expr, docs) && Alike(v, v)
    ensures Accumulate(AddToSet(expr), docs) == Array(found)
    ensures i < |found| && forall j :: 0 <= j < |found| ==> (Alike(found[j], v) <==> j == i)
  {
    hide *;
    SetGives(expr, docs);
    found := Collected(PushAll(expr, docs));
    i := SetOnce(PushAll(expr, docs), v);
  }

  lemma SetGives(expr: Expr, docs: seq<ObeDocument>)
    ensures Accumulate(AddToSet(expr), docs) == Array(Collected(PushAll(expr, docs)))
  {}

  lemma SetGivesOthers(expr: Expr, docs: seq<ObeDocument>, v: ObeValue) returns (found: seq<ObeValue>)
    ensures Accumulate(AddToSet(expr), docs) == Array(found)
    ensures v in found ==> v in PushAll(expr, docs)
    ensures !Alike(v, v) ==> Times(found, v) == Times(PushAll(expr, docs), v)
  {
    found := Collected(PushAll(expr, docs));
    CollectedFrom(PushAll(expr, docs), v);
    if !Alike(v, v) { SetRepeats(PushAll(expr, docs), v); }
  }

  lemma {:induction false} CollectedFrom(values: seq<ObeValue>, v: ObeValue)
    ensures v in Collected(values) ==> v in values
  {
    if |values| > 0 { CollectedFrom(values[..|values| - 1], v); }
  }

  method ComputeAccumulator(acc: Accumulator, docs: seq<ObeDocument>) returns (v: ObeValue)
    ensures v == Accumulate(acc, docs)
  {
    match acc
    case Min(expr) =>
      var values := PushValues(expr, docs);
      if |values| == 0 { return Null; }
      var i := MinBy(Ranks(values, LARGEST));
      return values[i];
    case Max(expr) =>
      var values := PushValues(expr, docs);
      if |values| == 0 { return Null; }
      var i := MaxBy(Ranks(values, LOWEST));
      return values[i];
    case Push(expr) =>
      var values := PushValues(expr, docs);
      return Array(values);
    case AddToSet(expr) =>
      var values := AddValues(expr, docs);
      return Array(values);
    case _ => return Accumulate(acc, docs);
  }

  method PushValues(expr: Expr, docs: seq<ObeDocument>) returns (values: seq<ObeValue>)
    ensures values == PushAll(expr, docs)
  {
    values := [];
    for n := 0 to |docs|
      invariant values == PushAll(expr, docs[..n])
    {
      assert docs[..n + 1][..n] == docs[..n];
      var x := Resolve(expr, docs[n]);
      if x.Some? { values := values + [x.value]; }
    }
    assert docs[..|docs|] == docs;
  }

  method AddValues(expr: Expr, docs: seq<ObeDocument>) returns (values: seq<ObeValue>)
    ensures values == Collected(PushAll(expr, docs))
  {
    values := [];
    for n := 0 to |docs|
      invariant values == Collected(PushAll(expr, docs[..n]))
    {
      assert docs[..n + 1][..n] == docs[..n];
      var x := Resolve(expr, docs[n]);
      if x.Some? {
        var before := PushAll(expr, docs[..n]);
        assert (before + [x.value])[..|before|] == before;
        if !Has(values, x.value) { values := values + [x.value]; }
      }
    }
    assert docs[..|docs|] == docs;
  }

  method MinBy(ranks: seq<F64>) returns (best: nat)
    requires |ranks| > 0
    ensures best == MinAt(ranks)
  {
    best := 0;
    for n := 1 to |ranks|
      invariant best == MinAt(ranks[..n])
    {
      assert ranks[..n + 1][..n] == ranks[..n];
      if Below(ranks[best], ranks[n]) { best := n; }
    }
    assert ranks[..|ranks|] == ranks;
  }

  method MaxBy(ranks: seq<F64>) returns (best: nat)
    requires |ranks| > 0
    ensures best == MaxAt(ranks)
  {
    best := 0;
    for n := 1 to |ranks|
      invariant best == MaxAt(ranks[..n])
    {
      assert ranks[..n + 1][..n] == ranks[..n];
      if !Below(ranks[best], ranks[n]) { best := n; }
    }
    assert ranks[..|ranks|] == ranks;
  }
}
