/** WHERE clauses from tokens to answers: parsed to MQL, parsed to a filter, evaluated. */
module SqlPipeline {
  import opened Bytes
  import opened ObeValue
  import opened Json
  import opened Sql
  import opened SqlMeaning
  import opened SqlShapes
  import opened Rounding
  import opened ValueLaws
  import F = Filter

  // ---- The filter of an object ----

  predicate Parses(k: Text, v: Json) { F.ParseEntry(k, v).Ok? }

  predicate EntryTrue(k: Text, v: Json, doc: Fields, ext: F.External) {
    Parses(k, v) && F.EvaluateFilter(F.ParseEntry(k, v).value, doc, ext)
  }

  function LeafCount(f: F.Filter): nat
    decreases f
  {
    match f
    case MatchAll => 0
    case And(all) => LeafSum(all)
    case Or(any) => LeafSum(any)
    case Nor(none) => LeafSum(none)
    case Not(inner) => LeafCount(inner)
    case _ => 1
  }

  function LeafSum(fs: seq<F.Filter>): nat
    decreases fs
  {
    if |fs| == 0 then 0 else LeafCount(fs[0]) + LeafSum(fs[1..])
  }

  ghost function Unparsed(): Weight { (k, v) => if Parses(k, v) then 0 else 1 }

  ghost function Untrue(doc: Fields, ext: F.External): Weight { (k, v) => if EntryTrue(k, v, doc, ext) then 0 else 1 }

  ghost function Leaves(): Weight { (k, v) => if Parses(k, v) then LeafCount(F.ParseEntry(k, v).value) else 0 }

  lemma {:induction false} ObjectEntries(json: Json, i: nat, doc: Fields, ext: F.External)
    requires json.JObject? && i <= |json.entries|
    requires Sum(json.entries[i..], {}, Unparsed()) == 0
    ensures F.ParseEntries(json, i).Ok?
    ensures |F.ParseEntries(json, i).value| == |json.entries| - i
    ensures LeafSum(F.ParseEntries(json, i).value) == Sum(json.entries[i..], {}, Leaves())
    ensures (forall j :: 0 <= j < |F.ParseEntries(json, i).value| ==>
              F.EvaluateFilter(F.ParseEntries(json, i).value[j], doc, ext))
       <==> Sum(json.entries[i..], {}, Untrue(doc, ext)) == 0
    decreases |json.entries| - i
  {
    if i < |json.entries| {
      var e := json.entries[i];
      assert json.entries[i..][0] == e && json.entries[i..][1..] == json.entries[i + 1..];
      ObjectEntries(json, i + 1, doc, ext);
      var first, rest := F.ParseEntry(e.0, e.1).value, F.ParseEntries(json, i + 1).value;
      var all := F.ParseEntries(json, i).value;
      assert all == [first] + rest && all[1..] == rest;
      assert forall j :: 0 <= j < |rest| ==> rest[j] == all[j + 1];
    }
  }

  /** A filter object accepts a document when all its entries do. */
  lemma ObjectFilter(json: Json, doc: Fields, ext: F.External)
    requires json.JObject? && |json.entries| > 0
    requires Sum(json.entries, {}, Unparsed()) == 0
    ensures F.ParseFilter(json).Ok?
    ensures LeafCount(F.ParseFilter(json).value) == Sum(json.entries, {}, Leaves())
    ensures F.Accepts(json, doc, ext) <==> Sum(json.entries, {}, Untrue(doc, ext)) == 0
  {
    assert json.entries[0..] == json.entries;
    ObjectEntries(json, 0, doc, ext);
    var all := F.ParseEntries(json, 0).value;
    if |all| == 1 {
      assert all[1..] == [];
    }
  }

  lemma ParsesEither(left: Json, right: Json)
    requires F.ParseFilter(left).Ok? && F.ParseFilter(right).Ok?
    ensures F.ParseEntry(Ascii("$or"), JArray([left, right]))
         == F.Ok(F.Or([F.ParseFilter(left).value, F.ParseFilter(right).value]))
  {
    var elems := [left, right];
    var l, r := F.ParseFilter(left).value, F.ParseFilter(right).value;
    assert elems[1..] == [right] && [right][1..] == [];
    assert F.ParseAll([]) == F.Ok([]);
    assert F.ParseAll([right]) == F.Ok([r] + []);
    assert F.ParseAll(elems) == F.Ok([l] + ([r] + []));
    assert [l] + ([r] + []) == [l, r];
    assert Ascii("$and")[1] != Ascii("$or")[1];
  }

  lemma LeafPair(l: F.Filter, r: F.Filter)
    ensures LeafCount(F.Or([l, r])) == LeafCount(l) + LeafCount(r)
  {
    var any := [l, r];
    assert any[0] == l && any[1..] == [r];
    assert LeafSum([]) == 0;
    assert [r][0] == r && [r][1..] == [];
    assert LeafSum([r]) == LeafCount(r) + LeafSum([]);
    assert LeafSum(any) == LeafCount(l) + LeafSum([r]);
  }

  /** An `$or` of two filters. */
  lemma EitherFilter(left: Json, right: Json, doc: Fields, ext: F.External)
    requires F.ParseFilter(left).Ok? && F.ParseFilter(right).Ok?
    ensures Parses(Ascii("$or"), JArray([left, right]))
    ensures EntryTrue(Ascii("$or"), JArray([left, right]), doc, ext) == (F.Accepts(left, doc, ext) || F.Accepts(right, doc, ext))
    ensures Leaves()(Ascii("$or"), JArray([left, right]))
         == LeafCount(F.ParseFilter(left).value) + LeafCount(F.ParseFilter(right).value)
  {
    var l, r := F.ParseFilter(left).value, F.ParseFilter(right).value;
    ParsesEither(left, right);
    LeafPair(l, r);
    assert [l, r][0] == l && [l, r][1] == r;
  }

  // ---- Single comparisons ----

  function MqlComparison(op: Symbol): F.FilterOp {
    if op == NE then F.Ne
    else if op == GT then F.Gt
    else if op == GE then F.Gte
    else if op == LT then F.Lt
    else if op == LE then F.Lte
    else F.Eq
  }

  lemma SameRelation(op: Symbol, v: Option<ObeValue>, x: ObeValue, ext: F.External)
    ensures F.EvaluateComparison(v, MqlComparison(op), x, ext) == Related(op, v, x)
  {}

  lemma ParsesOp(op: Symbol)
    ensures F.ParseOp(MqlOp(op)) == Some(MqlComparison(op))
    ensures MqlOp(op) != Ascii("$exists") && MqlOp(op) != Ascii("$type")
  {
    assert Ascii("$eq")[1] == 'e' as int && Ascii("$ne")[1] == 'n' as int;
    assert Ascii("$gt")[1] == 'g' as int && Ascii("$lt")[1] == 'l' as int;
    assert Ascii("$gte")[1] == 'g' as int && Ascii("$lte")[1] == 'l' as int;
  }

  lemma ParsesField(field: Text, value: Json)
    requires PlainName(field)
    ensures F.ParseEntry(field, value) == F.ParseFieldFilter(field, value)
  {}

  lemma ParsesComparison(field: Text, op: Symbol, value: Json)
    requires PlainName(field)
    ensures F.ParseEntry(field, JObject([(MqlOp(op), value)])) == F.Ok(F.Comparison(field, MqlComparison(op), FromJson(value)))
  {
    var ops := [(MqlOp(op), value)];
    ParsesField(field, JObject(ops));
    ParsesOp(op);
    assert ops[1..] == [];
    assert F.ParseFieldOps(field, []) == F.Ok([]);
    var f := F.Comparison(field, MqlComparison(op), FromJson(value));
    assert F.ParseFieldOps(field, ops) == F.Ok([f] + []);
    assert [f] + [] == [f];
  }

  /** A comparison means the same in SQL and in MQL. */
  lemma CompareMeaning(field: Text, afterIs: bool, op: Symbol, value: Json, doc: Fields, ext: F.External)
    requires PlainName(field)
    ensures Parses(field, JObject([(MqlOp(op), value)]))
    ensures EntryTrue(field, JObject([(MqlOp(op), value)]), doc, ext) == AtomTruth(Compare(field, afterIs, op, value), doc)
    ensures Leaves()(field, JObject([(MqlOp(op), value)])) == 1
  {
    ParsesComparison(field, op, value);
    SameRelation(op, GetPath(doc, field), FromJson(value), ext);
  }

  lemma MissingMeaning(field: Text, doc: Fields, ext: F.External)
    requires PlainName(field)
    ensures Parses(field, JNull)
    ensures EntryTrue(field, JNull, doc, ext) == AtomTruth(Missing(field), doc)
    ensures Leaves()(field, JNull) == 1
  {
    ParsesField(field, JNull);
  }

  // ---- Whole conditions ----

  /** What a compiled condition weighs under each of the three weights. */
  lemma {:induction false} OrMeaning(c: OrCond, mask: set<Text>, doc: Fields, ext: F.External)
    requires OrPlain(c)
    ensures OrWeight(c, mask, Unparsed()) == 0
    ensures OrWeight(c, mask, Untrue(doc, ext)) == 0 <==> OrKept(c, mask, doc)
    ensures OrWeight(c, mask, Leaves()) == OrLeft(c, mask)
    decreases c, 0
  {
    match c
    case One(a) => AndMeaning(a, mask, doc, ext);
    case OrElse(a, rest) =>
      AndFilter(a, doc, ext);
      OrFilter(rest, doc, ext);
      EitherFilter(CompileAnd(a), CompileOr(rest), doc, ext);
  }

  lemma {:induction false} AndMeaning(c: AndCond, mask: set<Text>, doc: Fields, ext: F.External)
    requires AndPlain(c)
    ensures AndWeight(c, mask, Unparsed()) == 0
    ensures AndWeight(c, mask, Untrue(doc, ext)) == 0 <==> AndKept(c, mask, doc)
    ensures AndWeight(c, mask, Leaves()) == AndLeft(c, mask)
    decreases c, 0
  {
    match c
    case Single(a) => AtomMeaning(a, mask, doc, ext);
    case AndAlso(a, rest) =>
      AtomMeaning(a, mask + AndKeys(rest), doc, ext);
      AndMeaning(rest, mask, doc, ext);
  }

  lemma {:induction false} AtomMeaning(a: Atom, mask: set<Text>, doc: Fields, ext: F.External)
    requires AtomPlain(a)
    ensures AtomWeight(a, mask, Unparsed()) == 0
    ensures AtomWeight(a, mask, Untrue(doc, ext)) == 0 <==> AtomKept(a, mask, doc)
    ensures AtomWeight(a, mask, Leaves()) == AtomLeft(a, mask)
    decreases a, 0
  {
    match a
    case Compare(field, afterIs, op, value) => CompareMeaning(field, afterIs, op, value, doc, ext);
    case Missing(field) => MissingMeaning(field, doc, ext);
    case Paren(inner) => OrMeaning(inner, mask, doc, ext);
  }

  /** The filter of a condition accepts exactly the documents on which what survived holds. */
  lemma OrFilter(c: OrCond, doc: Fields, ext: F.External)
    requires OrPlain(c)
    ensures F.ParseFilter(CompileOr(c)).Ok?
    ensures F.Accepts(CompileOr(c), doc, ext) == OrKept(c, {}, doc)
    ensures LeafCount(F.ParseFilter(CompileOr(c)).value) == OrLeft(c, {})
    decreases c, 1
  {
    OrSum(c, {}, Unparsed());
    OrSum(c, {}, Untrue(doc, ext));
    OrSum(c, {}, Leaves());
    OrMeaning(c, {}, doc, ext);
    ObjectFilter(CompileOr(c), doc, ext);
  }

  lemma AndFilter(c: AndCond, doc: Fields, ext: F.External)
    requires AndPlain(c)
    ensures F.ParseFilter(CompileAnd(c)).Ok?
    ensures F.Accepts(CompileAnd(c), doc, ext) == AndKept(c, {}, doc)
    ensures LeafCount(F.ParseFilter(CompileAnd(c)).value) == AndLeft(c, {})
    decreases c, 1
  {
    AndSum(c, {}, Unparsed());
    AndSum(c, {}, Untrue(doc, ext));
    AndSum(c, {}, Leaves());
    AndMeaning(c, {}, doc, ext);
    ObjectFilter(CompileAnd(c), doc, ext);
  }

  // ---- The pipeline ----

  /** A WHERE clause without repeated keys means what it says, on every document. */
  lemma MeaningPreserved(c: OrCond, tokens: seq<Token>, pos: nat, doc: Fields, ext: F.External)
    requires StartsWith(tokens, pos, PrintOr(c)) && Ends(tokens, pos + |PrintOr(c)|)
    requires OrPlain(c) && OrDistinct(c)
    ensures ParseOr(tokens, pos).Ok?
    ensures F.Accepts(ParseOr(tokens, pos).value, doc, ext) == OrTruth(c, doc)
  {
    ParsePrintedOr(c, tokens, pos);
    OrFilter(c, doc, ext);
    OrKeptWeaker(c, {}, doc);
  }

  /** With repeated keys it never rejects a document that the condition accepts. */
  lemma NothingMissed(c: OrCond, tokens: seq<Token>, pos: nat, doc: Fields, ext: F.External)
    requires StartsWith(tokens, pos, PrintOr(c)) && Ends(tokens, pos + |PrintOr(c)|)
    requires OrPlain(c) && OrTruth(c, doc)
    ensures ParseOr(tokens, pos).Ok? && F.Accepts(ParseOr(tokens, pos).value, doc, ext)
  {
    ParsePrintedOr(c, tokens, pos);
    OrFilter(c, doc, ext);
    OrKeptWeaker(c, {}, doc);
  }

  /** The compiled filter has all of the condition's comparisons exactly when no AND repeats
      a key. */
  lemma NothingLost(c: OrCond)
    requires OrPlain(c)
    ensures F.ParseFilter(CompileOr(c)).Ok?
    ensures LeafCount(F.ParseFilter(CompileOr(c)).value) == OrAtoms(c) <==> OrDistinct(c)
  {
    var ext := F.External((_, _) => false, (_, _, _) => false);
    OrFilter(c, [], ext);
    OrLeftAll(c, {});
  }

  /** Every condition of this shape means on every document what its filter answers. */
  ghost predicate ShapeMeans(c: OrCond, ext: F.External) {
    forall d, doc :: OrShape(c, d) ==> F.Accepts(CompileOr(d), doc, ext) == OrTruth(d, doc)
  }

  /** The conditions of a shape all keep their meaning if and only if no AND repeats a key. */
  lemma MeaningExactly(c: OrCond, ext: F.External)
    requires OrPlain(c)
    ensures ShapeMeans(c, ext) <==> OrDistinct(c)
  {
    if OrDistinct(c) {
      forall d, doc | OrShape(c, d) ensures F.Accepts(CompileOr(d), doc, ext) == OrTruth(d, doc) {
        OrShapeKeys(c, d);
        OrFilter(d, doc, ext);
        OrKeptWeaker(d, {}, doc);
      }
    } else {
      var d := OrLoses(c, {});
      OrShapeKeys(c, d);
      OrFilter(d, [], ext);
    }
  }

  /** Of two comparisons of one field joined by AND only the second is applied. */
  lemma FirstComparisonLost(field: Text, op: Symbol, x: Json, op': Symbol, y: Json, doc: Fields, ext: F.External)
    requires PlainName(field)
    ensures var c := One(AndAlso(Compare(field, false, op, x), Single(Compare(field, false, op', y))));
      F.Accepts(CompileOr(c), doc, ext) == AtomTruth(Compare(field, false, op', y), doc)
  {
    var last := Compare(field, false, op', y);
    var both := AndAlso(Compare(field, false, op, x), Single(last));
    assert AndPlain(Single(last)) && AndPlain(both);
    assert AndKept(Single(last), {}, doc) == AtomTruth(last, doc);
    assert AndKept(both, {}, doc) == AtomTruth(last, doc) by {
      assert AndKeys(Single(last)) == {field};
    }
    OrFilter(One(both), doc, ext);
  }

  // ---- What single comparisons accept ----

  function Just(field: Text, op: Symbol, value: Json): OrCond { One(Single(Compare(field, false, op, value))) }

  lemma JustAccepts(field: Text, op: Symbol, value: Json, doc: Fields, ext: F.External)
    requires PlainName(field)
    ensures F.Accepts(CompileOr(Just(field, op, value)), doc, ext) == Related(op, GetPath(doc, field), FromJson(value))
  {
    var a := Compare(field, false, op, value);
    var c := One(Single(a));
    assert AtomPlain(a) && AndPlain(c.only);
    assert OrPlain(c);
    OrFilter(c, doc, ext);
    assert AtomKept(a, {}, doc) == AtomTruth(a, doc);
    assert OrKept(c, {}, doc) == AndKept(c.only, {}, doc) == AtomKept(a, {}, doc);
  }

  /** `field = 'text'` accepts exactly the documents with that string at the field, and
      `field != 'text'` all others. */
  lemma StringEquals(field: Text, text: Utf8, doc: Fields, ext: F.External)
    requires PlainName(field)
    ensures F.Accepts(CompileOr(Just(field, EQ, JString(text))), doc, ext) <==> GetPath(doc, field) == Some(String(text))
    ensures F.Accepts(CompileOr(Just(field, NE, JString(text))), doc, ext) <==> GetPath(doc, field) != Some(String(text))
  {
    hide *;
    JustAccepts(field, EQ, JString(text), doc, ext);
    JustAccepts(field, NE, JString(text), doc, ext);
    RelatedString(GetPath(doc, field), text);
  }

  lemma RelatedString(v: Option<ObeValue>, text: Utf8)
    ensures Related(EQ, v, FromJson(JString(text))) <==> v == Some(String(text))
    ensures Related(NE, v, FromJson(JString(text))) <==> v != Some(String(text))
  {
    if v.Some? {
      if v.value.String? { ScalarsEqual(v.value, String(text)); } else { OnlySameKind(v.value, String(text)); }
    }
  }

  /** Against a number the four orders accept exactly the documents with a number at the field
      that stands in that order to it. */
  lemma NumberOrders(field: Text, n: i64, doc: Fields, ext: F.External, x: real)
    requires PlainName(field) && 0 - TWO_53 <= n <= TWO_53
    requires GetPath(doc, field).Some? && Stands(GetPath(doc, field).value, x)
    ensures F.Accepts(CompileOr(Just(field, LT, JInt(n))), doc, ext) <==> x < n as real
    ensures F.Accepts(CompileOr(Just(field, LE, JInt(n))), doc, ext) <==> x <= n as real
    ensures F.Accepts(CompileOr(Just(field, GT, JInt(n))), doc, ext) <==> x > n as real
    ensures F.Accepts(CompileOr(Just(field, GE, JInt(n))), doc, ext) <==> x >= n as real
  {
    JustAccepts(field, LT, JInt(n), doc, ext);
    JustAccepts(field, LE, JInt(n), doc, ext);
    JustAccepts(field, GT, JInt(n), doc, ext);
    JustAccepts(field, GE, JInt(n), doc, ext);
    FromInteger(n);
    NumbersCompare(GetPath(doc, field).value, FromJson(JInt(n)), x, n as real);
  }

  lemma NoOrder(field: Text, op: Symbol, n: i64, doc: Fields, ext: F.External)
    requires PlainName(field) && op in {LT, LE, GT, GE}
    requires GetPath(doc, field).None? || !IsNumber(GetPath(doc, field).value)
    ensures !F.Accepts(CompileOr(Just(field, op, JInt(n))), doc, ext)
  {
    JustAccepts(field, op, JInt(n), doc, ext);
  }

  lemma ZeroOutside(field: Text, doc: Fields)
    requires GetPath(doc, field) == Some(Int32(0))
    ensures !AtomTruth(Compare(field, false, GT, JInt(1)), doc) && AtomTruth(Compare(field, false, LT, JInt(5)), doc)
  {}

  /** `a > 1 AND a < 5` accepts a document with `a = 0`. */
  lemma RangeAcceptsTooMuch(ext: F.External)
    ensures var a := Ascii("a");
      var c := One(AndAlso(Compare(a, false, GT, JInt(1)), Single(Compare(a, false, LT, JInt(5)))));
      var doc := [(a, Int32(0))];
      F.Accepts(CompileOr(c), doc, ext) && !OrTruth(c, doc)
  {
    var a := Ascii("a");
    var doc := [(a, Int32(0))];
    assert a[0] == 'a' as int;
    var first, last := Compare(a, false, GT, JInt(1)), Compare(a, false, LT, JInt(5));
    FirstComparisonLost(a, GT, JInt(1), LT, JInt(5), doc, ext);
    assert GetPath(doc, a) == Some(Int32(0)) by {
      assert DOT !in a;
      GetPathPlain(doc, a);
    }
    ZeroOutside(a, doc);
    assert !AndTruth(AndAlso(first, Single(last)), doc);
  }
}
