/** What filters accept, operator by operator, and laws of their comparisons. */
module FilterLaws {
  import opened Bytes
  import opened ObeValue
  import opened Json
  import opened Filter

  /** `$ne` and `$nin` are the opposites of `$eq` and `$in`. */
  lemma Negations(v: Option<ObeValue>, target: ObeValue, ext: External)
    ensures EvaluateComparison(v, Ne, target, ext) == !EvaluateComparison(v, Eq, target, ext)
    ensures EvaluateComparison(v, Nin, target, ext) == !EvaluateComparison(v, In, target, ext)
  {}

  /** `$gte` is the opposite of `$lt` exactly where the two values compare at all. */
  lemma OrderNegation(v: Option<ObeValue>, target: ObeValue, ext: External)
    ensures EvaluateComparison(v, Gte, target, ext) == !EvaluateComparison(v, Lt, target, ext)
       <==> v.Some? && CompareValues(v.value, target).Some?
  {}

  // ---- `$expr` ----

  predicate Reference(json: Json) { json.JString? && |json.s| > 0 && json.s[0] == DOLLAR }

  /** The operators that `$expr` knows. */
  predicate ExprKnows(op: FilterOp) { op.Gt? || op.Gte? || op.Lt? || op.Lte? || op.Eq? || op.Ne? }

  lemma OpNames()
    ensures Ascii("$gt")[1] == 'g' as int && |Ascii("$gt")| == 3 && Ascii("$gte")[1] == 'g' as int && |Ascii("$gte")| == 4
    ensures Ascii("$lt")[1] == 'l' as int && |Ascii("$lt")| == 3 && Ascii("$lte")[1] == 'l' as int && |Ascii("$lte")| == 4
    ensures Ascii("$eq")[1] == 'e' as int && |Ascii("$eq")| == 3 && Ascii("$ne")[1] == 'n' as int && |Ascii("$ne")| == 3
  {}

  lemma ExprOpValue(op: Text, f: FilterOp, left: ObeValue, right: ObeValue, ext: External)
    requires ParseOp(op) == Some(f) && ExprKnows(f)
    ensures EvaluateExprOp(op, left, right) == EvaluateComparison(Some(left), f, right, ext)
  {
    OpNames();
  }

  lemma MissingAsNull(f: FilterOp, x: ObeValue, ext: External)
    requires ExprKnows(f)
    ensures EvaluateComparison(Some(Null), f, x, ext) == EvaluateComparison(None, f, x, ext)
  {}

  /** `$expr` treats a missing field as null and a plain comparison does not; yet they agree
      on every document when a field is compared with a literal. */
  lemma ExprAgrees(field: Text, op: Text, x: Json, doc: Fields, ext: External)
    requires ParseOp(op).Some? && ExprKnows(ParseOp(op).value) && !Reference(x) && ValidUtf8([DOLLAR] + field)
    ensures EvaluateExpr(JObject([(op, JArray([JString([DOLLAR] + field), x]))]), doc)
         == EvaluateComparison(GetPath(doc, field), ParseOp(op).value, FromJson(x), ext)
  {
    var name: Utf8 := [DOLLAR] + field;
    assert name[1..] == field;
    var args := [JString(name), x];
    var entries := [(op, JArray(args))];
    assert entries[0].1.elems == args && args[0] == JString(name) && args[1] == x;
    var v := GetPath(doc, field);
    ExprOpValue(op, ParseOp(op).value, if v.Some? then v.value else Null, FromJson(x), ext);
    MissingAsNull(ParseOp(op).value, FromJson(x), ext);
  }

  /** With two references `$expr` compares two fields, missing ones as null. */
  lemma ExprOfFields(f: Text, g: Text, op: Text, doc: Fields, ext: External)
    requires ParseOp(op).Some? && ExprKnows(ParseOp(op).value) && ValidUtf8([DOLLAR] + f) && ValidUtf8([DOLLAR] + g)
    ensures EvaluateExpr(JObject([(op, JArray([JString([DOLLAR] + f), JString([DOLLAR] + g)]))]), doc)
         == EvaluateComparison(Some(OrNull(GetPath(doc, f))), ParseOp(op).value, OrNull(GetPath(doc, g)), ext)
  {
    var x: Utf8, y: Utf8 := [DOLLAR] + f, [DOLLAR] + g;
    assert x[1..] == f && y[1..] == g;
    var args := [JString(x), JString(y)];
    var entries := [(op, JArray(args))];
    assert entries[0].1.elems == args && args[0] == JString(x) && args[1] == JString(y);
    ExprOpValue(op, ParseOp(op).value, OrNull(GetPath(doc, f)), OrNull(GetPath(doc, g)), ext);
  }

  /** Several comparisons must all hold, and one that `$expr` does not know never does. */
  lemma ExprMeans(entries: seq<(Text, Json)>, op: Text, args: Json, doc: Fields)
    ensures EvaluateExpr(JObject(entries), doc)
       <==> forall i :: 0 <= i < |entries| ==> EvaluateExpr(JObject([entries[i]]), doc)
    ensures EvaluateExpr(JObject([(op, args)]), doc) ==> ParseOp(op).Some? && ExprKnows(ParseOp(op).value)
  {
    OpNames();
    forall i | 0 <= i < |entries|
      ensures EvaluateExpr(JObject([entries[i]]), doc)
         <==> var args := entries[i].1;
              args.JArray? && |args.elems| == 2
              && EvaluateExprOp(entries[i].0, Operand(args.elems[0], doc), Operand(args.elems[1], doc))
    {
      assert [entries[i]][0] == entries[i];
    }
    if EvaluateExpr(JObject([(op, args)]), doc) { assert [(op, args)][0] == (op, args); }
  }

  // ---- The operators, from JSON to the answer ----

  predicate FieldName(name: Text) { |name| > 0 ==> name[0] != DOLLAR }

  function Asks(field: Text, op: string, x: Json): Json
    requires forall i :: 0 <= i < |op| ==> op[i] < 128 as char
  {
    JObject([(field, JObject([(Ascii(op), x)]))])
  }

  lemma FieldOps(field: Text, op: Text, x: Json, f: Filter)
    requires FieldName(field) && ParseFieldOp(field, op, x) == Ok(f)
    ensures ParseFilter(JObject([(field, JObject([(op, x)]))])) == Ok(f)
  {
    var ops := [(op, x)];
    var json := JObject([(field, JObject(ops))]);
    assert ops[1..] == [] && ParseFieldOps(field, []) == Ok([]);
    assert ParseFieldOps(field, ops) == Ok([f] + []) && [f] + [] == [f];
    assert ParseEntry(field, JObject(ops)) == ParseFieldFilter(field, JObject(ops)) == Ok(f);
    assert ParseEntries(json, 1) == Ok([]);
    assert ParseEntries(json, 0) == Ok([f] + []);
  }

  lemma NoComparisons()
    ensures ParseOp(Ascii("$exists")).None? && ParseOp(Ascii("$type")).None?
  {
    OpNames();
    assert |Ascii("$exists")| == 7 && |Ascii("$type")| == 5 && Ascii("$type")[1] == 't' as int;
    assert Ascii("$size")[1] == 's' as int && Ascii("$near")[1] == 'n' as int;
  }

  lemma Compares(field: Text, op: Text, x: Json, o: FilterOp)
    requires FieldName(field) && ParseOp(op) == Some(o)
    ensures ParseFilter(JObject([(field, JObject([(op, x)]))])) == Ok(Comparison(field, o, FromJson(x)))
  {
    NoComparisons();
    FieldOps(field, op, x, Comparison(field, o, FromJson(x)));
  }

  lemma AcceptsOp(field: Text, op: string, x: Json, o: FilterOp, doc: Fields, ext: External)
    requires forall i :: 0 <= i < |op| ==> op[i] < 128 as char
    requires FieldName(field) && ParseOp(Ascii(op)) == Some(o)
    ensures Accepts(Asks(field, op, x), doc, ext) == EvaluateComparison(GetPath(doc, field), o, FromJson(x), ext)
  {
    Compares(field, Ascii(op), x, o);
  }

  lemma InNames()
    ensures ParseOp(Ascii("$in")) == Some(In) && ParseOp(Ascii("$nin")) == Some(Nin)
  {
    assert Ascii("$nin")[1] == 'n' as int && Ascii("$in")[1] == 'i' as int;
    OpNames();
  }

  lemma ArrayNames()
    ensures ParseOp(Ascii("$all")) == Some(All) && ParseOp(Ascii("$elemMatch")) == Some(ElemMatch)
  {
    assert Ascii("$nin")[1] == 'n' as int && Ascii("$all")[1] == 'a' as int;
    OpNames();
  }

  lemma OtherNames()
    ensures ParseOp(Ascii("$size")) == Some(Size) && ParseOp(Ascii("$regex")) == Some(Regex)
  {
    assert Ascii("$size")[1] == 's' as int && Ascii("$regex")[1] == 'r' as int;
    OpNames();
  }

  lemma GeoNames()
    ensures ParseOp(Ascii("$near")) == Some(Near) && ParseOp(Ascii("$geoNear")) == Some(Near)
    ensures ParseOp(Ascii("$geoWithin")) == Some(GeoWithin)
  {
    assert Ascii("$near")[1] == 'n' as int && Ascii("$geoNear")[1] == 'g' as int && |Ascii("$geoWithin")| == 10;
    OpNames();
    assert |Ascii("$geoNear")| == 8 && |Ascii("$elemMatch")| == 10 && Ascii("$geoWithin")[1] == 'g' as int;
    assert |Ascii("$near")| == 5 && |Ascii("$nin")| == 4;
  }

  /** `$in`: the field is there and equals one of the values; `$nin`: the opposite. */
  lemma InMeans(field: Text, xs: seq<Json>, doc: Fields, ext: External)
    requires FieldName(field)
    ensures Accepts(Asks(field, "$in", JArray(xs)), doc, ext)
       <==> GetPath(doc, field).Some? && exists i :: 0 <= i < |xs| && ValuesEqual(GetPath(doc, field).value, FromJson(xs[i]))
    ensures Accepts(Asks(field, "$nin", JArray(xs)), doc, ext) == !Accepts(Asks(field, "$in", JArray(xs)), doc, ext)
  {
    InNames();
    AcceptsOp(field, "$in", JArray(xs), In, doc, ext);
    AcceptsOp(field, "$nin", JArray(xs), Nin, doc, ext);
    InOf(GetPath(doc, field), xs, FromJson(JArray(xs)), ext);
  }

  lemma InOf(v: Option<ObeValue>, xs: seq<Json>, target: ObeValue, ext: External)
    requires target == FromJson(JArray(xs))
    ensures EvaluateComparison(v, In, target, ext)
       <==> v.Some? && exists i :: 0 <= i < |xs| && ValuesEqual(v.value, FromJson(xs[i]))
    ensures EvaluateComparison(v, Nin, target, ext) == !EvaluateComparison(v, In, target, ext)
  {
    ArrayElems(xs);
  }

  lemma ArrayElems(xs: seq<Json>)
    ensures var v := FromJson(JArray(xs));
      v.Array? && |v.elems| == |xs| && (forall i :: 0 <= i < |xs| ==> v.elems[i] == FromJson(xs[i]) && v.elems[i] in v.elems)
      && (forall t :: t in v.elems ==> exists i :: 0 <= i < |xs| && t == FromJson(xs[i]))
  {
    var v := FromJson(JArray(xs));
    forall t | t in v.elems ensures exists i :: 0 <= i < |xs| && t == FromJson(xs[i]) {
      var i :| 0 <= i < |v.elems| && v.elems[i] == t;
      assert t == FromJson(xs[i]);
    }
  }

  /** An equal of `x` is among the values. */
  predicate HasEqual(values: seq<ObeValue>, x: ObeValue) { exists d :: d in values && ValuesEqual(d, x) }

  /** `$all`: an array with an equal of each of the values. */
  lemma AllMeans(field: Text, xs: seq<Json>, doc: Fields, ext: External)
    requires FieldName(field)
    ensures Accepts(Asks(field, "$all", JArray(xs)), doc, ext)
       <==> GetPath(doc, field).Some? && GetPath(doc, field).value.Array?
            && forall i :: 0 <= i < |xs| ==> HasEqual(GetPath(doc, field).value.elems, FromJson(xs[i]))
  {
    ArrayNames();
    AcceptsOp(field, "$all", JArray(xs), All, doc, ext);
    AllOf(GetPath(doc, field), xs, FromJson(JArray(xs)), ext);
  }

  lemma AllOf(v: Option<ObeValue>, xs: seq<Json>, target: ObeValue, ext: External)
    requires target == FromJson(JArray(xs))
    ensures EvaluateComparison(v, All, target, ext)
       <==> v.Some? && v.value.Array? && forall i :: 0 <= i < |xs| ==> HasEqual(v.value.elems, FromJson(xs[i]))
  {
    ArrayElems(xs);
    if v.Some? && v.value.Array? {
      assert EvaluateComparison(v, All, target, ext) <==> forall t :: t in target.elems ==> HasEqual(v.value.elems, t);
      forall i | 0 <= i < |xs| ensures FromJson(xs[i]) in target.elems { assert target.elems[i] == FromJson(xs[i]); }
    }
  }

  /** `$elemMatch`: an array with an equal of the value. */
  lemma ElemMatchMeans(field: Text, x: Json, doc: Fields, ext: External)
    requires FieldName(field)
    ensures Accepts(Asks(field, "$elemMatch", x), doc, ext)
       <==> GetPath(doc, field).Some? && GetPath(doc, field).value.Array?
            && HasEqual(GetPath(doc, field).value.elems, FromJson(x))
  {
    ArrayNames();
    AcceptsOp(field, "$elemMatch", x, ElemMatch, doc, ext);
  }

  /** `$size`: an array of that length. */
  lemma SizeMeans(field: Text, n: i64, doc: Fields, ext: External)
    requires FieldName(field)
    ensures Accepts(Asks(field, "$size", JInt(n)), doc, ext)
       <==> GetPath(doc, field).Some? && GetPath(doc, field).value.Array? && |GetPath(doc, field).value.elems| == n
  {
    OtherNames();
    AcceptsOp(field, "$size", JInt(n), Size, doc, ext);
  }

  /** `$type` asks for a value of the named type; some types have two names. */
  lemma TypeMeans(field: Text, name: Utf8, doc: Fields, ext: External)
    requires FieldName(field)
    ensures Accepts(Asks(field, "$type", JString(name)), doc, ext)
       <==> GetPath(doc, field).Some? && MatchType(GetPath(doc, field).value, name)
  {
    FieldOps(field, Ascii("$type"), JString(name), Type(field, name));
  }

  lemma IntegerTypes(v: ObeValue)
    ensures MatchType(v, Ascii("int")) == MatchType(v, Ascii("int32")) == v.Int32?
    ensures MatchType(v, Ascii("long")) == MatchType(v, Ascii("int64")) == v.Int64?
  {
    assert Ascii("int32")[3] == '3' as int && Ascii("int64")[3] == '6' as int && Ascii("int32")[0] == 'i' as int;
    assert Ascii("long")[0] == 'l' as int && Ascii("bool")[0] == 'b' as int && Ascii("null")[0] == 'n' as int;
    assert Ascii("int64")[0] == 'i' as int && Ascii("array")[0] == 'a' as int;
  }

  lemma SimpleTypes(v: ObeValue)
    ensures MatchType(v, Ascii("null")) == v.Null?
    ensures MatchType(v, Ascii("bool")) == MatchType(v, Ascii("boolean")) == v.Bool?
  {
    assert Ascii("long")[0] == 'l' as int && Ascii("bool")[0] == 'b' as int && Ascii("null")[0] == 'n' as int;
    assert Ascii("float64")[0] == 'f' as int && Ascii("boolean")[2] == 'o' as int && Ascii("binData")[2] == 'n' as int;
  }

  lemma DoubleTypes(v: ObeValue)
    ensures MatchType(v, Ascii("double")) == MatchType(v, Ascii("float64")) == v.Float64?
  {
    assert Ascii("double")[0] == 'd' as int && Ascii("string")[0] == 's' as int && Ascii("object")[0] == 'o' as int;
    assert Ascii("float64")[0] == 'f' as int && Ascii("boolean")[0] == 'b' as int && Ascii("binData")[0] == 'b' as int;
    assert Ascii("binary")[0] == 'b' as int;
  }

  lemma TextTypes(v: ObeValue)
    ensures MatchType(v, Ascii("string")) == v.String? && MatchType(v, Ascii("array")) == v.Array?
  {
    assert Ascii("int32")[0] == 'i' as int && Ascii("int64")[0] == 'i' as int && Ascii("array")[0] == 'a' as int;
    assert Ascii("double")[0] == 'd' as int && Ascii("string")[0] == 's' as int && Ascii("object")[0] == 'o' as int;
    assert Ascii("binary")[0] == 'b' as int;
  }

  lemma DocumentTypes(v: ObeValue)
    ensures MatchType(v, Ascii("object")) == MatchType(v, Ascii("document")) == v.Document?
  {
    assert Ascii("double")[0] == 'd' as int && Ascii("string")[0] == 's' as int && Ascii("object")[0] == 'o' as int;
    assert Ascii("binary")[0] == 'b' as int && Ascii("document")[1] == 'o' as int && Ascii("objectId")[1] == 'b' as int;
  }

  lemma {:induction false} ContainsAt(s: Text, pattern: Text)
    ensures Contains(s, pattern) <==> exists k :: 0 <= k <= |s| && pattern <= s[k..]
  {
    if pattern <= s {
      assert s[0..] == s;
    } else if |s| > 0 {
      ContainsAt(s[1..], pattern);
      if k :| 0 <= k <= |s| - 1 && pattern <= s[1..][k..] { assert s[1..][k..] == s[k + 1..]; }
      if k :| 0 <= k <= |s| && pattern <= s[k..] {
        assert s[0..] == s;
        assert k > 0 && s[k..] == s[1..][k - 1..];
      }
    }
  }

  /** `$regex` looks for the text as it is. */
  lemma RegexMeans(field: Text, p: Utf8, doc: Fields, ext: External)
    requires FieldName(field)
    ensures Accepts(Asks(field, "$regex", JString(p)), doc, ext)
       <==> GetPath(doc, field).Some? && GetPath(doc, field).value.String?
            && exists k :: 0 <= k <= |GetPath(doc, field).value.s| && p <= GetPath(doc, field).value.s[k..]
  {
    OtherNames();
    AcceptsOp(field, "$regex", JString(p), Regex, doc, ext);
    var v := GetPath(doc, field);
    if v.Some? && v.value.String? { ContainsAt(v.value.s, p); }
  }

  /** `$exists`: whether the field is there; anything but `false` asks that it is. */
  lemma ExistsMeans(field: Text, x: Json, doc: Fields, ext: External)
    requires FieldName(field)
    ensures Accepts(Asks(field, "$exists", x), doc, ext) <==> GetPath(doc, field).Some? == (x != JBool(false))
  {
    FieldOps(field, Ascii("$exists"), x, Exists(field, x != JBool(false)));
  }

  /** The geographic operators leave the answer open. */
  lemma GeoMeans(field: Text, op: string, o: FilterOp, x: Json, doc: Fields, ext: External)
    requires forall i :: 0 <= i < |op| ==> op[i] < 128 as char
    requires FieldName(field) && ParseOp(Ascii(op)) == Some(o) && (o.Near? || o.GeoWithin?)
    ensures Accepts(Asks(field, op, x), doc, ext) == ext.geo(o, GetPath(doc, field), FromJson(x))
  {
    AcceptsOp(field, op, x, o, doc, ext);
  }

  lemma {:induction false} ParsesOps(field: Text, ops: seq<(Text, Json)>)
    requires forall i :: 0 <= i < |ops| ==> ParseFieldOp(field, ops[i].0, ops[i].1).Ok?
    ensures ParseFieldOps(field, ops).Ok? && |ParseFieldOps(field, ops).value| == |ops|
    ensures forall i :: 0 <= i < |ops| ==>
              ParseFieldOps(field, ops).value[i] == ParseFieldOp(field, ops[i].0, ops[i].1).value
  {
    if |ops| > 0 {
      ParsesOps(field, ops[1..]);
      var first, rest := ParseFieldOp(field, ops[0].0, ops[0].1).value, ParseFieldOps(field, ops[1..]).value;
      assert ParseFieldOps(field, ops) == Ok([first] + rest);
      assert forall i :: 0 < i < |ops| ==> ops[i] == ops[1..][i - 1] && ([first] + rest)[i] == rest[i - 1];
    }
  }

  /** A filter that asks one field about operators asks about them all. */
  lemma OpsMean(field: Text, ops: seq<(Text, Json)>, doc: Fields, ext: External)
    requires FieldName(field)
    requires forall i :: 0 <= i < |ops| ==> ParseFieldOp(field, ops[i].0, ops[i].1).Ok?
    ensures Accepts(JObject([(field, JObject(ops))]), doc, ext)
       <==> forall i :: 0 <= i < |ops| ==> Accepts(JObject([(field, JObject([ops[i]]))]), doc, ext)
  {
    ParsesOps(field, ops);
    var all := ParseFieldOps(field, ops).value;
    Logical(field, JObject(ops), Conjunction(all));
    forall i | 0 <= i < |ops|
      ensures Accepts(JObject([(field, JObject([ops[i]]))]), doc, ext) == EvaluateFilter(all[i], doc, ext)
    {
      FieldOps(field, ops[i].0, ops[i].1, all[i]);
      assert ops[i] == (ops[i].0, ops[i].1);
    }
  }

  /** `$text` looks for its words, or for the words of its `$search`. */
  lemma TextMeans(words: Utf8, doc: Fields, ext: External)
    ensures Accepts(JObject([(Ascii("$text"), JString(words))]), doc, ext) == ext.text(words, doc)
    ensures Accepts(JObject([(Ascii("$text"), JObject([(Ascii("$search"), JString(words))]))]), doc, ext)
         == ext.text(words, doc)
  {
    assert |Ascii("$text")| == 5;
    Logical(Ascii("$text"), JString(words), FullTextSearch(words));
    Logical(Ascii("$text"), JObject([(Ascii("$search"), JString(words))]), FullTextSearch(words));
  }

  lemma Logical(key: Text, value: Json, f: Filter)
    requires ParseEntry(key, value) == Ok(f)
    ensures ParseFilter(JObject([(key, value)])) == Ok(f)
  {
    var json := JObject([(key, value)]);
    assert ParseEntries(json, 1) == Ok([]);
    assert ParseEntries(json, 0) == Ok([f] + []) && [f] + [] == [f];
  }

  lemma {:induction false} ParsesAll(elems: seq<Json>)
    requires forall i :: 0 <= i < |elems| ==> ParseFilter(elems[i]).Ok?
    ensures ParseAll(elems).Ok? && |ParseAll(elems).value| == |elems|
    ensures forall i :: 0 <= i < |elems| ==> ParseAll(elems).value[i] == ParseFilter(elems[i]).value
  {
    if |elems| > 0 {
      ParsesAll(elems[1..]);
      var first, rest := ParseFilter(elems[0]).value, ParseAll(elems[1..]).value;
      assert ParseAll(elems) == Ok([first] + rest);
      assert forall i :: 0 < i < |elems| ==> elems[i] == elems[1..][i - 1] && ([first] + rest)[i] == rest[i - 1];
    }
  }

  lemma EmptyAccepts(doc: Fields, ext: External)
    ensures Accepts(JNull, doc, ext) && Accepts(JObject([]), doc, ext)
  {}

  /** `$expr` accepts what its expression holds of. */
  lemma ExprAccepts(expr: Json, doc: Fields, ext: External)
    ensures Accepts(JObject([(Ascii("$expr"), expr)]), doc, ext) == EvaluateExpr(expr, doc)
  {
    assert |Ascii("$expr")| == 5 && Ascii("$expr")[1] == 'e' as int && Ascii("$text")[1] == 't' as int;
    Logical(Ascii("$expr"), expr, Expr(expr));
  }

  lemma NotMeans(one: Json, doc: Fields, ext: External)
    requires ParseFilter(one).Ok?
    ensures Accepts(JObject([(Ascii("$not"), one)]), doc, ext) == !Accepts(one, doc, ext)
  {
    assert Ascii("$not")[3] == 't' as int && Ascii("$nor")[3] == 'r' as int;
    Logical(Ascii("$not"), one, Not(ParseFilter(one).value));
  }

  predicate AllParse(elems: seq<Json>) { forall i :: 0 <= i < |elems| ==> ParseFilter(elems[i]).Ok? }

  lemma AndMeans(elems: seq<Json>, doc: Fields, ext: External)
    requires AllParse(elems)
    ensures Accepts(JObject([(Ascii("$and"), JArray(elems))]), doc, ext)
       <==> forall i :: 0 <= i < |elems| ==> Accepts(elems[i], doc, ext)
  {
    ParsesAll(elems);
    Logical(Ascii("$and"), JArray(elems), And(ParseAll(elems).value));
  }

  lemma OrMeans(elems: seq<Json>, doc: Fields, ext: External)
    requires AllParse(elems)
    ensures Accepts(JObject([(Ascii("$or"), JArray(elems))]), doc, ext)
       <==> exists i :: 0 <= i < |elems| && Accepts(elems[i], doc, ext)
  {
    ParsesAll(elems);
    assert |Ascii("$or")| == 3;
    Logical(Ascii("$or"), JArray(elems), Or(ParseAll(elems).value));
  }

  lemma NorMeans(elems: seq<Json>, doc: Fields, ext: External)
    requires AllParse(elems)
    ensures Accepts(JObject([(Ascii("$nor"), JArray(elems))]), doc, ext)
       <==> forall i :: 0 <= i < |elems| ==> !Accepts(elems[i], doc, ext)
  {
    ParsesAll(elems);
    assert Ascii("$nor")[1] == 'n' as int && Ascii("$and")[1] == 'a' as int && |Ascii("$or")| == 3;
    Logical(Ascii("$nor"), JArray(elems), Nor(ParseAll(elems).value));
  }
}
