/** The MQL filter language: parsing a JSON filter into an AST and evaluating the AST on a
    document. */
module Filter {
  import opened Bytes
  import opened ObeValue
  import opened Json
  import TextMap

  datatype FilterOp = Eq | Ne | Gt | Gte | Lt | Lte | In | Nin | All | ElemMatch | Size | Regex | GeoWithin | Near

  datatype Filter =
    | MatchAll
    | Comparison(field: Text, op: FilterOp, target: ObeValue)
    | And(all: seq<Filter>)
    | Or(any: seq<Filter>)
    | Not(inner: Filter)
    | Nor(none: seq<Filter>)
    | Exists(field: Text, should: bool)
    | Type(field: Text, typeName: Text)
    | FullTextSearch(query: Text)
    | Expr(expr: Json)

  datatype FilterError = QuerySyntaxError | UnknownOperator(op: Text)
  datatype Parsed<T> = Ok(value: T) | Err(error: FilterError)

  // ---- Parsing ----

  /** `FilterOp::parse_op`. */
  function ParseOp(s: Text): Option<FilterOp> {
    if s == Ascii("$eq") then Some(Eq)
    else if s == Ascii("$ne") then Some(Ne)
    else if s == Ascii("$gt") then Some(Gt)
    else if s == Ascii("$gte") then Some(Gte)
    else if s == Ascii("$lt") then Some(Lt)
    else if s == Ascii("$lte") then Some(Lte)
    else if s == Ascii("$in") then Some(In)
    else if s == Ascii("$nin") then Some(Nin)
    else if s == Ascii("$all") then Some(All)
    else if s == Ascii("$elemMatch") then Some(ElemMatch)
    else if s == Ascii("$size") then Some(Size)
    else if s == Ascii("$regex") then Some(Regex)
    else if s == Ascii("$geoWithin") then Some(GeoWithin)
    else if s == Ascii("$near") || s == Ascii("$geoNear") then Some(Near)
    else None
  }

  function Conjunction(conditions: seq<Filter>): Filter {
    if |conditions| == 1 then conditions[0] else And(conditions)
  }

  /** One operator of a field's operator object. */
  function ParseFieldOp(field: Text, op: Text, value: Json): Parsed<Filter> {
    if op == Ascii("$exists") then Ok(Exists(field, if value.JBool? then value.b else true))
    else if op == Ascii("$type") then Ok(Type(field, if value.JString? then value.s else Ascii("string")))
    else
      match ParseOp(op)
      case Some(o) => Ok(Comparison(field, o, FromJson(value)))
      case None => Err(UnknownOperator(op))
  }

  function ParseFieldOps(field: Text, ops: seq<(Text, Json)>): Parsed<seq<Filter>> {
    if |ops| == 0 then Ok([])
    else
      match ParseFieldOp(field, ops[0].0, ops[0].1)
      case Err(e) => Err(e)
      case Ok(first) =>
        match ParseFieldOps(field, ops[1..])
        case Err(e) => Err(e)
        case Ok(rest) => Ok([first] + rest)
  }

  /** `parse_field_filter`. */
  function ParseFieldFilter(field: Text, value: Json): Parsed<Filter> {
    match value
    case JObject(ops) =>
      (match ParseFieldOps(field, ops)
       case Err(e) => Err(e)
       case Ok(conditions) => Ok(Conjunction(conditions)))
    case _ => Ok(Comparison(field, Eq, FromJson(value)))
  }

  function SearchQuery(value: Json): Text {
    match value
    case JObject(entries) =>
      var q := TextMap.Get(entries, Ascii("$search"));
      if q.Some? && q.value.JString? then q.value.s else []
    case JString(s) => s
    case _ => []
  }

  /** One entry of a filter object. */
  function ParseEntry(key: Text, value: Json): Parsed<Filter>
    decreases value, 2
  {
    if key == Ascii("$and") || key == Ascii("$or") || key == Ascii("$nor") then
      match value
      case JArray(elems) =>
        (match ParseAll(elems)
         case Err(e) => Err(e)
         case Ok(filters) =>
           Ok(if key == Ascii("$and") then And(filters) else if key == Ascii("$or") then Or(filters) else Nor(filters)))
      case _ => Err(QuerySyntaxError)
    else if key == Ascii("$not") then
      match ParseFilter(value)
      case Err(e) => Err(e)
      case Ok(inner) => Ok(Not(inner))
    else if key == Ascii("$text") then Ok(FullTextSearch(SearchQuery(value)))
    else if key == Ascii("$expr") then Ok(Expr(value))
    else ParseFieldFilter(key, value)
  }

  /** The entries of an object from the `i`-th on. */
  function ParseEntries(json: Json, i: nat): Parsed<seq<Filter>>
    requires json.JObject? && i <= |json.entries|
    decreases json, 0, |json.entries| - i
  {
    if i == |json.entries| then Ok([])
    else
      match json
      case JObject(entries) =>
        match ParseEntry(entries[i].0, entries[i].1)
        case Err(e) => Err(e)
        case Ok(first) =>
          match ParseEntries(json, i + 1)
          case Err(e) => Err(e)
          case Ok(rest) => Ok([first] + rest)
  }

  function ParseAll(elems: seq<Json>): Parsed<seq<Filter>>
    decreases elems
  {
    if |elems| == 0 then Ok([])
    else
      match ParseFilter(elems[0])
      case Err(e) => Err(e)
      case Ok(first) =>
        match ParseAll(elems[1..])
        case Err(e) => Err(e)
        case Ok(rest) => Ok([first] + rest)
  }

  /** `parse_filter`. */
  function ParseFilter(json: Json): Parsed<Filter>
    decreases json, 1
  {
    match json
    case JNull => Ok(MatchAll)
    case JObject(entries) =>
      if |entries| == 0 then Ok(MatchAll)
      else
        (match ParseEntries(json, 0)
         case Err(e) => Err(e)
         case Ok(conditions) => Ok(Conjunction(conditions)))
    case _ => Err(QuerySyntaxError)
  }

  // ---- Evaluation ----

  /** The parts of evaluation that are left open: full-text search and the geographic
      operators. */
  datatype External = External(
    text: (Text, Fields) -> bool,
    geo: (FilterOp, Option<ObeValue>, ObeValue) -> bool)

  predicate Contains(s: Text, pattern: Text) {
    pattern <= s || (|s| > 0 && Contains(s[1..], pattern))
  }

  predicate Ordered(v: Option<ObeValue>, target: ObeValue, wanted: set<Ordering>) {
    v.Some? && CompareValues(v.value, target).Some? && CompareValues(v.value, target).value in wanted
  }

  /** `evaluate_comparison`. */
  function EvaluateComparison(v: Option<ObeValue>, op: FilterOp, target: ObeValue, ext: External): bool {
    match op
    case Eq => if v.Some? then ValuesEqual(v.value, target) else target.Null?
    case Ne => if v.Some? then !ValuesEqual(v.value, target) else !target.Null?
    case Gt => Ordered(v, target, {Greater})
    case Gte => Ordered(v, target, {Greater, Equal})
    case Lt => Ordered(v, target, {Less})
    case Lte => Ordered(v, target, {Less, Equal})
    case In => target.Array? && v.Some? && exists t :: t in target.elems && ValuesEqual(v.value, t)
    case Nin => target.Array? && v.Some? ==> !exists t :: t in target.elems && ValuesEqual(v.value, t)
    case All =>
      v.Some? && v.value.Array? && target.Array?
      && forall t :: t in target.elems ==> exists d :: d in v.value.elems && ValuesEqual(d, t)
    case Size =>
      v.Some? && v.value.Array?
      && ((target.Int32? && |v.value.elems| == target.i) || (target.Int64? && |v.value.elems| == target.l))
    case Regex => v.Some? && v.value.String? && target.String? && Contains(v.value.s, target.s)
    case ElemMatch => v.Some? && v.value.Array? && exists d :: d in v.value.elems && ValuesEqual(d, target)
    case GeoWithin => ext.geo(op, v, target)
    case Near => ext.geo(op, v, target)
  }

  function MatchType(v: ObeValue, name: Text): bool {
    match v
    case Null => name == Ascii("null")
    case Bool(_) => name == Ascii("bool") || name == Ascii("boolean")
    case Int32(_) => name == Ascii("int") || name == Ascii("int32")
    case Int64(_) => name == Ascii("long") || name == Ascii("int64")
    case Float64(_) => name == Ascii("double") || name == Ascii("float64")
    case String(_) => name == Ascii("string")
    case Array(_) => name == Ascii("array")
    case Document(_) => name == Ascii("object") || name == Ascii("document")
    case Binary(_) => name == Ascii("binData") || name == Ascii("binary")
    case Timestamp(_) => name == Ascii("timestamp")
    case ObjectId(_) => name == Ascii("objectId")
    case _ => false
  }

  /** An operand of `$expr`: a reference to a field, or a literal. */
  function Operand(json: Json, doc: Fields): ObeValue {
    if json.JString? && |json.s| > 0 && json.s[0] == DOLLAR then
      var v := GetPath(doc, json.s[1..]);
      if v.Some? then v.value else Null
    else FromJson(json)
  }

  /** `evaluate_expr`. */
  function EvaluateExpr(expr: Json, doc: Fields): bool {
    expr.JObject?
    && forall i :: 0 <= i < |expr.entries| ==>
      var args := expr.entries[i].1;
      args.JArray? && |args.elems| == 2
      && EvaluateExprOp(expr.entries[i].0, Operand(args.elems[0], doc), Operand(args.elems[1], doc))
  }

  function EvaluateExprOp(op: Text, left: ObeValue, right: ObeValue): bool {
    if op == Ascii("$gt") then Ordered(Some(left), right, {Greater})
    else if op == Ascii("$gte") then Ordered(Some(left), right, {Greater, Equal})
    else if op == Ascii("$lt") then Ordered(Some(left), right, {Less})
    else if op == Ascii("$lte") then Ordered(Some(left), right, {Less, Equal})
    else if op == Ascii("$eq") then ValuesEqual(left, right)
    else if op == Ascii("$ne") then !ValuesEqual(left, right)
    else false
  }

  /** `evaluate_filter`. */
  function EvaluateFilter(f: Filter, doc: Fields, ext: External): bool
    decreases f
  {
    match f
    case MatchAll => true
    case Comparison(field, op, target) => EvaluateComparison(GetPath(doc, field), op, target, ext)
    case And(all) => forall i :: 0 <= i < |all| ==> EvaluateFilter(all[i], doc, ext)
    case Or(any) => exists i :: 0 <= i < |any| && EvaluateFilter(any[i], doc, ext)
    case Not(inner) => !EvaluateFilter(inner, doc, ext)
    case Nor(none) => !exists i :: 0 <= i < |none| && EvaluateFilter(none[i], doc, ext)
    case Exists(field, should) => GetPath(doc, field).Some? == should
    case Type(field, name) => GetPath(doc, field).Some? && MatchType(GetPath(doc, field).value, name)
    case FullTextSearch(query) => ext.text(query, doc)
    case Expr(expr) => EvaluateExpr(expr, doc)
  }

  /** What a JSON filter answers on a document. */
  predicate Accepts(json: Json, doc: Fields, ext: External) {
    ParseFilter(json).Ok? && EvaluateFilter(ParseFilter(json).value, doc, ext)
  }

  // ---- Parsing, as it runs ----

  /** `parse_filter`: the loop over a filter object's entries. */
  method BuildFilter(json: Json) returns (r: Parsed<Filter>)
    ensures r == ParseFilter(json)
    decreases json, 1
  {
    if json.JNull? { return Ok(MatchAll); }
    if !json.JObject? { return Err(QuerySyntaxError); }
    var entries := json.entries;
    if |entries| == 0 { return Ok(MatchAll); }
    var conditions, i := [], 0;
    PrependStep([], MatchAll, ParseEntries(json, 0));
    while i < |entries|
      invariant 0 <= i <= |entries|
      invariant ParseFilter(json) == Finish(Prepend(conditions, ParseEntries(json, i)))
    {
      var f := BuildEntry(entries[i].0, entries[i].1);
      if f.Err? { return Err(f.error); }
      PrependStep(conditions, f.value, ParseEntries(json, i + 1));
      conditions := conditions + [f.value];
      i := i + 1;
    }
    assert conditions + [] == conditions;
    return Ok(Conjunction(conditions));
  }

  function Finish(conditions: Parsed<seq<Filter>>): Parsed<Filter> {
    match conditions
    case Err(e) => Err(e)
    case Ok(all) => Ok(Conjunction(all))
  }

  function Prepend<T>(done: seq<T>, rest: Parsed<seq<T>>): Parsed<seq<T>> {
    match rest
    case Err(e) => Err(e)
    case Ok(r) => Ok(done + r)
  }

  lemma PrependStep<T>(done: seq<T>, first: T, rest: Parsed<seq<T>>)
    ensures Prepend([], rest) == rest
    ensures Prepend(done, Prepend([first], rest)) == Prepend(done + [first], rest)
  {
    match rest
    case Err(_) =>
    case Ok(r) =>
      assert [] + r == r;
      assert done + ([first] + r) == done + [first] + r;
  }

  method BuildEntry(key: Text, value: Json) returns (r: Parsed<Filter>)
    ensures r == ParseEntry(key, value)
    decreases value, 2
  {
    if key == Ascii("$and") || key == Ascii("$or") || key == Ascii("$nor") {
      if !value.JArray? { return Err(QuerySyntaxError); }
      var filters, i := [], 0;
      PrependStep([], MatchAll, ParseAll(value.elems));
      while i < |value.elems|
        invariant 0 <= i <= |value.elems|
        invariant ParseAll(value.elems) == Prepend(filters, ParseAll(value.elems[i..]))
      {
        assert value.elems[i..][0] == value.elems[i];
        assert value.elems[i..][1..] == value.elems[i + 1..];
        var f := BuildFilter(value.elems[i]);
        if f.Err? { return Err(f.error); }
        PrependStep(filters, f.value, ParseAll(value.elems[i + 1..]));
        filters := filters + [f.value];
        i := i + 1;
      }
      assert filters + [] == filters;
      return Ok(if key == Ascii("$and") then And(filters) else if key == Ascii("$or") then Or(filters) else Nor(filters));
    }
    if key == Ascii("$not") {
      var inner := BuildFilter(value);
      if inner.Err? { return Err(inner.error); }
      return Ok(Not(inner.value));
    }
    return ParseEntry(key, value);
  }

  // ---- Fields ----

  /** `extract_filter_fields`, as a set. */
  function FilterFields(f: Filter): set<Text>
    decreases f
  {
    match f
    case Comparison(field, _, _) => {field}
    case Exists(field, _) => {field}
    case Type(field, _) => {field}
    case And(all) => set g, x | g in all && x in FilterFields(g) :: x
    case Or(any) => set g, x | g in any && x in FilterFields(g) :: x
    case Nor(none) => set g, x | g in none && x in FilterFields(g) :: x
    case Not(inner) => FilterFields(inner)
    case _ => {}
  }

  /** Searches the whole document or is left open. */
  predicate LooksFurther(f: Filter)
    decreases f
  {
    match f
    case FullTextSearch(_) => true
    case Expr(_) => true
    case And(all) => exists g :: g in all && LooksFurther(g)
    case Or(any) => exists g :: g in any && LooksFurther(g)
    case Nor(none) => exists g :: g in none && LooksFurther(g)
    case Not(inner) => LooksFurther(inner)
    case _ => false
  }

  /** The extracted fields are all that a filter looks at: documents that agree on them get
      the same answer. */
  lemma {:induction false} FieldsSuffice(f: Filter, a: Fields, b: Fields, ext: External)
    requires !LooksFurther(f)
    requires forall x :: x in FilterFields(f) ==> GetPath(a, x) == GetPath(b, x)
    ensures EvaluateFilter(f, a, ext) == EvaluateFilter(f, b, ext)
    decreases f
  {
    match f
    case And(all) => AllFieldsSuffice(f, all, a, b, ext);
    case Or(any) => AllFieldsSuffice(f, any, a, b, ext);
    case Nor(none) => AllFieldsSuffice(f, none, a, b, ext);
    case Not(inner) => FieldsSuffice(inner, a, b, ext);
    case _ =>
  }

  lemma {:induction false} AllFieldsSuffice(f: Filter, parts: seq<Filter>, a: Fields, b: Fields, ext: External)
    requires f == And(parts) || f == Or(parts) || f == Nor(parts)
    requires !LooksFurther(f)
    requires forall x :: x in FilterFields(f) ==> GetPath(a, x) == GetPath(b, x)
    ensures forall i :: 0 <= i < |parts| ==> EvaluateFilter(parts[i], a, ext) == EvaluateFilter(parts[i], b, ext)
    decreases f, 0
  {
    forall i | 0 <= i < |parts| ensures EvaluateFilter(parts[i], a, ext) == EvaluateFilter(parts[i], b, ext) {
      assert parts[i] in parts;
      FieldsSuffice(parts[i], a, b, ext);
    }
  }
}
