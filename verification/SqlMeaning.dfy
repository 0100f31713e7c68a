/** What a WHERE condition means, and what the filter compiled from it means. Both agree
    unless one AND repeats a key: then the later conjunct overwrites the earlier one. */
module SqlMeaning {
  import opened Bytes
  import opened ObeValue
  import opened Json
  import opened Sql
  import TextMap

  // ---- The truth of a condition ----

  /** A missing field counts as null. */
  predicate Same(v: Option<ObeValue>, x: ObeValue) {
    match v
    case None => x.Null?
    case Some(y) => ValuesEqual(y, x)
  }

  function Order(v: Option<ObeValue>, x: ObeValue): Option<Ordering> {
    match v
    case None => None
    case Some(y) => CompareValues(y, x)
  }

  predicate Related(op: Symbol, v: Option<ObeValue>, x: ObeValue) {
    if op == NE then !Same(v, x)
    else if op == LT then Order(v, x) == Some(Less)
    else if op == GT then Order(v, x) == Some(Greater)
    else if op == LE then Order(v, x) == Some(Less) || Order(v, x) == Some(Equal)
    else if op == GE then Order(v, x) == Some(Greater) || Order(v, x) == Some(Equal)
    else Same(v, x)
  }

  predicate AtomTruth(a: Atom, doc: Fields) {
    match a
    case Compare(field, _, op, value) => Related(op, GetPath(doc, field), FromJson(value))
    case Missing(field) => GetPath(doc, field).None? || GetPath(doc, field) == Some(Null)
    case Paren(inner) => OrTruth(inner, doc)
  }

  predicate AndTruth(c: AndCond, doc: Fields) {
    match c
    case Single(a) => AtomTruth(a, doc)
    case AndAlso(a, rest) => AtomTruth(a, doc) && AndTruth(rest, doc)
  }

  predicate OrTruth(c: OrCond, doc: Fields) {
    match c
    case One(a) => AndTruth(a, doc)
    case OrElse(a, rest) => AndTruth(a, doc) || OrTruth(rest, doc)
  }

  // ---- The keys that conjuncts write ----

  function OrKeys(c: OrCond): set<Text> {
    match c
    case One(a) => AndKeys(a)
    case OrElse(_, _) => {Ascii("$or")}
  }

  function AndKeys(c: AndCond): set<Text> {
    match c
    case Single(a) => AtomKeys(a)
    case AndAlso(a, rest) => AtomKeys(a) + AndKeys(rest)
  }

  function AtomKeys(a: Atom): set<Text> {
    match a
    case Compare(field, _, _, _) => {field}
    case Missing(field) => {field}
    case Paren(inner) => OrKeys(inner)
  }

  /** No AND writes a key twice. Two parenthesised ORs do: both write `$or`. */
  predicate OrDistinct(c: OrCond) {
    match c
    case One(a) => AndDistinct(a)
    case OrElse(a, rest) => AndDistinct(a) && OrDistinct(rest)
  }

  predicate AndDistinct(c: AndCond) {
    match c
    case Single(a) => AtomDistinct(a)
    case AndAlso(a, rest) => AtomDistinct(a) && AndDistinct(rest) && AtomKeys(a) !! AndKeys(rest)
  }

  predicate AtomDistinct(a: Atom) { a.Paren? ==> OrDistinct(a.inner) }

  /** Field names that are not operators; the tokenizer makes no others. */
  predicate OrPlain(c: OrCond) {
    match c
    case One(a) => AndPlain(a)
    case OrElse(a, rest) => AndPlain(a) && OrPlain(rest)
  }

  predicate AndPlain(c: AndCond) {
    match c
    case Single(a) => AtomPlain(a)
    case AndAlso(a, rest) => AtomPlain(a) && AndPlain(rest)
  }

  predicate AtomPlain(a: Atom) {
    match a
    case Compare(field, _, _, _) => PlainName(field)
    case Missing(field) => PlainName(field)
    case Paren(inner) => OrPlain(inner)
  }

  predicate PlainName(name: Text) { |name| > 0 ==> name[0] != DOLLAR }

  // ---- What survives compilation ----

  /** The truth of a condition whose conjuncts are dropped when a later conjunct, or the
      surroundings (`mask`), write their key. */
  predicate OrKept(c: OrCond, mask: set<Text>, doc: Fields) {
    match c
    case One(a) => AndKept(a, mask, doc)
    case OrElse(a, rest) => Ascii("$or") in mask || AndKept(a, {}, doc) || OrKept(rest, {}, doc)
  }

  predicate AndKept(c: AndCond, mask: set<Text>, doc: Fields) {
    match c
    case Single(a) => AtomKept(a, mask, doc)
    case AndAlso(a, rest) => AtomKept(a, mask + AndKeys(rest), doc) && AndKept(rest, mask, doc)
  }

  predicate AtomKept(a: Atom, mask: set<Text>, doc: Fields) {
    match a
    case Compare(field, _, _, _) => field in mask || AtomTruth(a, doc)
    case Missing(field) => field in mask || AtomTruth(a, doc)
    case Paren(inner) => OrKept(inner, mask, doc)
  }

  function OrAtoms(c: OrCond): (n: nat)
    ensures n > 0
  {
    match c
    case One(a) => AndAtoms(a)
    case OrElse(a, rest) => AndAtoms(a) + OrAtoms(rest)
  }

  function AndAtoms(c: AndCond): (n: nat)
    ensures n > 0
  {
    match c
    case Single(a) => AtomAtoms(a)
    case AndAlso(a, rest) => AtomAtoms(a) + AndAtoms(rest)
  }

  function AtomAtoms(a: Atom): (n: nat)
    ensures n > 0
  {
    if a.Paren? then OrAtoms(a.inner) else 1
  }

  /** The comparisons that survive. */
  function OrLeft(c: OrCond, mask: set<Text>): nat {
    match c
    case One(a) => AndLeft(a, mask)
    case OrElse(a, rest) => if Ascii("$or") in mask then 0 else AndLeft(a, {}) + OrLeft(rest, {})
  }

  function AndLeft(c: AndCond, mask: set<Text>): nat {
    match c
    case Single(a) => AtomLeft(a, mask)
    case AndAlso(a, rest) => AtomLeft(a, mask + AndKeys(rest)) + AndLeft(rest, mask)
  }

  function AtomLeft(a: Atom, mask: set<Text>): nat {
    match a
    case Compare(field, _, _, _) => if field in mask then 0 else 1
    case Missing(field) => if field in mask then 0 else 1
    case Paren(inner) => OrLeft(inner, mask)
  }

  /** All comparisons survive exactly when no key is repeated. */
  lemma {:induction false} OrLeftAll(c: OrCond, mask: set<Text>)
    ensures OrLeft(c, mask) <= OrAtoms(c)
    ensures OrLeft(c, mask) == OrAtoms(c) <==> OrDistinct(c) && OrKeys(c) !! mask
  {
    match c
    case One(a) => AndLeftAll(a, mask);
    case OrElse(a, rest) =>
      AndLeftAll(a, {});
      OrLeftAll(rest, {});
  }

  lemma {:induction false} AndLeftAll(c: AndCond, mask: set<Text>)
    ensures AndLeft(c, mask) <= AndAtoms(c)
    ensures AndLeft(c, mask) == AndAtoms(c) <==> AndDistinct(c) && AndKeys(c) !! mask
  {
    match c
    case Single(a) => AtomLeftAll(a, mask);
    case AndAlso(a, rest) =>
      AtomLeftAll(a, mask + AndKeys(rest));
      AndLeftAll(rest, mask);
  }

  lemma {:induction false} AtomLeftAll(a: Atom, mask: set<Text>)
    ensures AtomLeft(a, mask) <= AtomAtoms(a)
    ensures AtomLeft(a, mask) == AtomAtoms(a) <==> AtomDistinct(a) && AtomKeys(a) !! mask
  {
    if a.Paren? { OrLeftAll(a.inner, mask); }
  }

  /** Dropping conjuncts can only make a condition easier to meet; dropping none changes
      nothing. */
  lemma {:induction false} OrKeptWeaker(c: OrCond, mask: set<Text>, doc: Fields)
    ensures OrTruth(c, doc) ==> OrKept(c, mask, doc)
    ensures OrDistinct(c) && OrKeys(c) !! mask ==> OrKept(c, mask, doc) == OrTruth(c, doc)
  {
    match c
    case One(a) => AndKeptWeaker(a, mask, doc);
    case OrElse(a, rest) =>
      AndKeptWeaker(a, {}, doc);
      OrKeptWeaker(rest, {}, doc);
  }

  lemma {:induction false} AndKeptWeaker(c: AndCond, mask: set<Text>, doc: Fields)
    ensures AndTruth(c, doc) ==> AndKept(c, mask, doc)
    ensures AndDistinct(c) && AndKeys(c) !! mask ==> AndKept(c, mask, doc) == AndTruth(c, doc)
  {
    match c
    case Single(a) => AtomKeptWeaker(a, mask, doc);
    case AndAlso(a, rest) =>
      AtomKeptWeaker(a, mask + AndKeys(rest), doc);
      AndKeptWeaker(rest, mask, doc);
  }

  lemma {:induction false} AtomKeptWeaker(a: Atom, mask: set<Text>, doc: Fields)
    ensures AtomTruth(a, doc) ==> AtomKept(a, mask, doc)
    ensures AtomDistinct(a) && AtomKeys(a) !! mask ==> AtomKept(a, mask, doc) == AtomTruth(a, doc)
  {
    if a.Paren? { OrKeptWeaker(a.inner, mask, doc); }
  }

  // ---- Weighing the entries of an object ----

  type Weight = (Text, Json) -> nat

  function KeysOf(m: seq<(Text, Json)>): set<Text> { set e | e in m :: e.0 }

  /** The weight of the entries whose key is not in `mask`. */
  function Sum(m: seq<(Text, Json)>, mask: set<Text>, w: Weight): nat {
    if |m| == 0 then 0
    else (if m[0].0 in mask then 0 else w(m[0].0, m[0].1)) + Sum(m[1..], mask, w)
  }

  lemma {:induction false} SumSameMask(m: seq<(Text, Json)>, mask: set<Text>, mask': set<Text>, w: Weight)
    requires forall e :: e in m ==> (e.0 in mask <==> e.0 in mask')
    ensures Sum(m, mask, w) == Sum(m, mask', w)
  {
    if |m| > 0 { SumSameMask(m[1..], mask, mask', w); }
  }

  lemma SortedTail(m: seq<(Text, Json)>)
    requires TextMap.Sorted(m) && |m| > 0
    ensures TextMap.Sorted(m[1..])
    ensures forall e :: e in m[1..] ==> LexLess(m[0].0, e.0) && e.0 != m[0].0
    ensures KeysOf(m) == {m[0].0} + KeysOf(m[1..])
  {
    forall e | e in m[1..] ensures LexLess(m[0].0, e.0) && e.0 != m[0].0 {
      LexIrreflexive(e.0);
    }
    assert forall e :: e in m <==> e == m[0] || e in m[1..];
  }

  lemma KeysFront(m: seq<(Text, Json)>)
    requires |m| > 0
    ensures KeysOf(m) == {m[0].0} + KeysOf(m[1..])
  {
    assert forall e :: e in m <==> e == m[0] || e in m[1..];
  }

  lemma {:induction false} SumInsert(m: seq<(Text, Json)>, k: Text, v: Json, mask: set<Text>, w: Weight)
    requires TextMap.Sorted(m)
    ensures Sum(TextMap.Insert(m, k, v), mask, w) == Sum(m, mask + {k}, w) + (if k in mask then 0 else w(k, v))
    ensures KeysOf(TextMap.Insert(m, k, v)) == KeysOf(m) + {k}
  {
    var r := TextMap.Insert(m, k, v);
    assert forall e :: e in [(k, v)] + m <==> e == (k, v) || e in m;
    if |m| > 0 {
      SortedTail(m);
      assert forall e :: e in [(k, v)] + m[1..] <==> e == (k, v) || e in m[1..];
      if m[0].0 == k {
        assert r[1..] == m[1..];
        SumSameMask(m[1..], mask, mask + {k}, w);
      } else if LexLess(k, m[0].0) {
        assert r[1..] == m;
        LexIrreflexive(k);
        forall e | e in m ensures e.0 != k {
          if e.0 == k && e in m[1..] { LexAsymmetric(m[0].0, e.0); }
        }
        SumSameMask(m, mask, mask + {k}, w);
      } else {
        SumInsert(m[1..], k, v, mask, w);
        assert r[1..] == TextMap.Insert(m[1..], k, v);
        KeysFront(r);
      }
    } else {
      assert r[1..] == [];
    }
  }

  /** Merging: an entry of the left survives unless the right writes its key. */
  lemma {:induction false} SumInsertAll(m: seq<(Text, Json)>, entries: seq<(Text, Json)>, mask: set<Text>, w: Weight)
    requires TextMap.Sorted(m) && TextMap.Sorted(entries)
    ensures Sum(InsertAll(m, entries), mask, w) == Sum(m, mask + KeysOf(entries), w) + Sum(entries, mask, w)
    ensures KeysOf(InsertAll(m, entries)) == KeysOf(m) + KeysOf(entries)
    ensures TextMap.Sorted(InsertAll(m, entries))
    decreases |entries|
  {
    if |entries| == 0 {
      assert mask + KeysOf(entries) == mask;
    } else {
      var k, v, rest := entries[0].0, entries[0].1, entries[1..];
      SortedTail(entries);
      TextMap.InsertSorted(m, k, v);
      SumInsertAll(TextMap.Insert(m, k, v), rest, mask, w);
      SumInsert(m, k, v, mask + KeysOf(rest), w);
      assert mask + KeysOf(rest) + {k} == mask + KeysOf(entries);
    }
  }

  lemma SumMerge(left: Json, right: Json, mask: set<Text>, w: Weight)
    requires TextMap.Sorted(Entries(left)) && TextMap.Sorted(Entries(right))
    ensures Merge(left, right).JObject? && TextMap.Sorted(Entries(Merge(left, right)))
    ensures KeysOf(Entries(Merge(left, right))) == KeysOf(Entries(left)) + KeysOf(Entries(right))
    ensures Sum(Entries(Merge(left, right)), mask, w)
         == Sum(Entries(left), mask + KeysOf(Entries(right)), w) + Sum(Entries(right), mask, w)
  {
    var l, r := Entries(left), Entries(right);
    SumInsertAll([], l, mask + KeysOf(r), w);
    SumInsertAll(InsertAll([], l), r, mask, w);
    assert KeysOf([]) == {};
  }

  function OrWeight(c: OrCond, mask: set<Text>, w: Weight): nat {
    match c
    case One(a) => AndWeight(a, mask, w)
    case OrElse(a, rest) =>
      if Ascii("$or") in mask then 0 else w(Ascii("$or"), JArray([CompileAnd(a), CompileOr(rest)]))
  }

  function AndWeight(c: AndCond, mask: set<Text>, w: Weight): nat {
    match c
    case Single(a) => AtomWeight(a, mask, w)
    case AndAlso(a, rest) => AtomWeight(a, mask + AndKeys(rest), w) + AndWeight(rest, mask, w)
  }

  function AtomWeight(a: Atom, mask: set<Text>, w: Weight): nat {
    match a
    case Compare(field, _, op, value) => if field in mask then 0 else w(field, JObject([(MqlOp(op), value)]))
    case Missing(field) => if field in mask then 0 else w(field, JNull)
    case Paren(inner) => OrWeight(inner, mask, w)
  }

  predicate Compiled(json: Json, keys: set<Text>) {
    json.JObject? && |json.entries| > 0 && TextMap.Sorted(json.entries) && KeysOf(json.entries) == keys
  }

  lemma SumOne(k: Text, v: Json, mask: set<Text>, w: Weight)
    ensures Compiled(JObject([(k, v)]), {k})
    ensures Sum([(k, v)], mask, w) == if k in mask then 0 else w(k, v)
  {}

  lemma {:induction false} OrSum(c: OrCond, mask: set<Text>, w: Weight)
    ensures Compiled(CompileOr(c), OrKeys(c))
    ensures Sum(Entries(CompileOr(c)), mask, w) == OrWeight(c, mask, w)
  {
    match c
    case One(a) => AndSum(a, mask, w);
    case OrElse(a, rest) => SumOne(Ascii("$or"), JArray([CompileAnd(a), CompileOr(rest)]), mask, w);
  }

  lemma {:induction false} AndSum(c: AndCond, mask: set<Text>, w: Weight)
    ensures Compiled(CompileAnd(c), AndKeys(c))
    ensures Sum(Entries(CompileAnd(c)), mask, w) == AndWeight(c, mask, w)
  {
    match c
    case Single(a) => AtomSum(a, mask, w);
    case AndAlso(a, rest) =>
      AtomSum(a, mask + AndKeys(rest), w);
      AndSum(rest, mask, w);
      SumMerge(CompileAtom(a), CompileAnd(rest), mask, w);
      assert Entries(CompileAtom(a))[0].0 in KeysOf(Entries(CompileAtom(a)));
      assert Entries(CompileAtom(a))[0].0 in KeysOf(Entries(CompileAnd(c)));
  }

  lemma {:induction false} AtomSum(a: Atom, mask: set<Text>, w: Weight)
    ensures Compiled(CompileAtom(a), AtomKeys(a))
    ensures Sum(Entries(CompileAtom(a)), mask, w) == AtomWeight(a, mask, w)
  {
    match a
    case Compare(field, _, op, value) => SumOne(field, JObject([(MqlOp(op), value)]), mask, w);
    case Missing(field) => SumOne(field, JNull, mask, w);
    case Paren(inner) => OrSum(inner, mask, w);
  }
}
