/** Which conditions keep their meaning: exactly those in which no AND repeats a key. A repeated
    key may be harmless for the operators and literals that a condition has (`a = 1 AND a = 1`),
    so the statement is about all conditions with one tree and the same fields. */
module SqlShapes {
  import opened Bytes
  import opened Json
  import opened Sql
  import opened SqlMeaning

  // ---- Conditions of one shape ----

  predicate OrShape(c: OrCond, d: OrCond) {
    match c
    case One(a) => d.One? && AndShape(a, d.only)
    case OrElse(a, rest) => d.OrElse? && AndShape(a, d.first) && OrShape(rest, d.rest)
  }

  predicate AndShape(c: AndCond, d: AndCond) {
    match c
    case Single(a) => d.Single? && AtomShape(a, d.atom)
    case AndAlso(a, rest) => d.AndAlso? && AtomShape(a, d.head) && AndShape(rest, d.tail)
  }

  /** The same field, whatever the operator and the literal. */
  predicate AtomShape(a: Atom, b: Atom) {
    if a.Paren? then b.Paren? && OrShape(a.inner, b.inner) else !b.Paren? && a.field == b.field
  }

  lemma {:induction false} OrShapeKeys(c: OrCond, d: OrCond)
    requires OrShape(c, d)
    ensures OrKeys(c) == OrKeys(d) && OrDistinct(c) == OrDistinct(d) && OrPlain(c) == OrPlain(d)
  {
    match c
    case One(a) => AndShapeKeys(a, d.only);
    case OrElse(a, rest) =>
      AndShapeKeys(a, d.first);
      OrShapeKeys(rest, d.rest);
  }

  lemma {:induction false} AndShapeKeys(c: AndCond, d: AndCond)
    requires AndShape(c, d)
    ensures AndKeys(c) == AndKeys(d) && AndDistinct(c) == AndDistinct(d) && AndPlain(c) == AndPlain(d)
  {
    match c
    case Single(a) => AtomShapeKeys(a, d.atom);
    case AndAlso(a, rest) =>
      AtomShapeKeys(a, d.head);
      AndShapeKeys(rest, d.tail);
  }

  lemma {:induction false} AtomShapeKeys(a: Atom, b: Atom)
    requires AtomShape(a, b)
    ensures AtomKeys(a) == AtomKeys(b) && AtomDistinct(a) == AtomDistinct(b) && AtomPlain(a) == AtomPlain(b)
  {
    if a.Paren? { OrShapeKeys(a.inner, b.inner); }
  }

  // ---- Every leaf the same ----

  /** On the empty document `= NULL` holds and `!= NULL` does not. */
  function Leaf(field: Text, truth: bool): Atom { Compare(field, false, if truth then EQ else NE, JNull) }

  function OrAll(c: OrCond, truth: bool): OrCond {
    match c
    case One(a) => One(AndAll(a, truth))
    case OrElse(a, rest) => OrElse(AndAll(a, truth), OrAll(rest, truth))
  }

  function AndAll(c: AndCond, truth: bool): AndCond {
    match c
    case Single(a) => Single(AtomAll(a, truth))
    case AndAlso(a, rest) => AndAlso(AtomAll(a, truth), AndAll(rest, truth))
  }

  function AtomAll(a: Atom, truth: bool): Atom {
    if a.Paren? then Paren(OrAll(a.inner, truth)) else Leaf(a.field, truth)
  }

  lemma LeafTruth(field: Text, truth: bool)
    ensures AtomTruth(Leaf(field, truth), []) == truth
  {}

  lemma {:induction false} OrAllTruth(c: OrCond, truth: bool)
    ensures OrShape(c, OrAll(c, truth)) && OrTruth(OrAll(c, truth), []) == truth
  {
    match c
    case One(a) => AndAllTruth(a, truth);
    case OrElse(a, rest) =>
      AndAllTruth(a, truth);
      OrAllTruth(rest, truth);
  }

  lemma {:induction false} AndAllTruth(c: AndCond, truth: bool)
    ensures AndShape(c, AndAll(c, truth)) && AndTruth(AndAll(c, truth), []) == truth
  {
    match c
    case Single(a) => AtomAllTruth(a, truth);
    case AndAlso(a, rest) =>
      AtomAllTruth(a, truth);
      AndAllTruth(rest, truth);
  }

  lemma {:induction false} AtomAllTruth(a: Atom, truth: bool)
    ensures AtomShape(a, AtomAll(a, truth)) && AtomTruth(AtomAll(a, truth), []) == truth
  {
    if a.Paren? { OrAllTruth(a.inner, truth); } else { LeafTruth(a.field, truth); }
  }

  // ---- What the filter accepts although the condition is false ----

  /** False on the empty document, and yet true once the entry for `key` is overwritten. */
  function OrDrop(c: OrCond, key: Text): OrCond {
    match c
    case One(a) => One(AndDrop(a, key))
    case OrElse(_, _) => OrAll(c, false)
  }

  function AndDrop(c: AndCond, key: Text): AndCond {
    match c
    case Single(a) => Single(AtomDrop(a, key))
    case AndAlso(a, rest) =>
      if key in AtomKeys(a) then AndAlso(AtomDrop(a, key), AndAll(rest, true))
      else AndAlso(AtomAll(a, true), AndDrop(rest, key))
  }

  function AtomDrop(a: Atom, key: Text): Atom {
    if a.Paren? then Paren(OrDrop(a.inner, key)) else AtomAll(a, false)
  }

  lemma {:induction false} OrDropFails(c: OrCond, key: Text, mask: set<Text>)
    requires key in OrKeys(c) && key in mask
    ensures OrShape(c, OrDrop(c, key)) && OrKept(OrDrop(c, key), mask, []) && !OrTruth(OrDrop(c, key), [])
  {
    match c
    case One(a) => AndDropFails(a, key, mask);
    case OrElse(_, _) => OrAllTruth(c, false);
  }

  lemma {:induction false} AndDropFails(c: AndCond, key: Text, mask: set<Text>)
    requires key in AndKeys(c) && key in mask
    ensures AndShape(c, AndDrop(c, key)) && AndKept(AndDrop(c, key), mask, []) && !AndTruth(AndDrop(c, key), [])
  {
    match c
    case Single(a) => AtomDropFails(a, key, mask);
    case AndAlso(a, rest) =>
      if key in AtomKeys(a) {
        AtomDropFails(a, key, mask + AndKeys(AndAll(rest, true)));
        AllKept(rest, mask);
      } else {
        AtomAllTruth(a, true);
        AtomKeptWeaker(AtomAll(a, true), mask + AndKeys(AndDrop(rest, key)), []);
        AndDropFails(rest, key, mask);
      }
  }

  lemma {:induction false} AtomDropFails(a: Atom, key: Text, mask: set<Text>)
    requires key in AtomKeys(a) && key in mask
    ensures AtomShape(a, AtomDrop(a, key)) && AtomKept(AtomDrop(a, key), mask, []) && !AtomTruth(AtomDrop(a, key), [])
  {
    if a.Paren? { OrDropFails(a.inner, key, mask); } else { AtomAllTruth(a, false); }
  }

  lemma AllKept(c: AndCond, mask: set<Text>)
    ensures AndShape(c, AndAll(c, true)) && AndKept(AndAll(c, true), mask, [])
  {
    AndAllTruth(c, true);
    AndKeptWeaker(AndAll(c, true), mask, []);
  }

  /** A condition of the same shape that its filter gets wrong on the empty document. */
  lemma {:induction false} OrLoses(c: OrCond, mask: set<Text>) returns (d: OrCond)
    requires !OrDistinct(c)
    ensures OrShape(c, d) && OrKept(d, mask, []) && !OrTruth(d, [])
  {
    match c
    case One(a) =>
      var b := AndLoses(a, mask);
      d := One(b);
    case OrElse(a, rest) =>
      AndAllTruth(a, false);
      OrAllTruth(rest, false);
      if AndDistinct(a) {
        var r := OrLoses(rest, {});
        d := OrElse(AndAll(a, false), r);
      } else {
        var b := AndLoses(a, {});
        d := OrElse(b, OrAll(rest, false));
      }
  }

  lemma {:induction false} AndLoses(c: AndCond, mask: set<Text>) returns (d: AndCond)
    requires !AndDistinct(c)
    ensures AndShape(c, d) && AndKept(d, mask, []) && !AndTruth(d, [])
  {
    match c
    case Single(a) =>
      var b := OrLoses(a.inner, mask);
      d := Single(Paren(b));
    case AndAlso(a, rest) =>
      var others := AndAll(rest, true);
      AllKept(rest, mask);
      AndShapeKeys(rest, others);
      if !AtomDistinct(a) {
        var b := OrLoses(a.inner, mask + AndKeys(others));
        d := AndAlso(Paren(b), others);
      } else if !AndDistinct(rest) {
        var r := AndLoses(rest, mask);
        AtomAllTruth(a, true);
        AtomKeptWeaker(AtomAll(a, true), mask + AndKeys(r), []);
        d := AndAlso(AtomAll(a, true), r);
      } else {
        var key :| key in AtomKeys(a) && key in AndKeys(rest);
        AtomDropFails(a, key, mask + AndKeys(others));
        d := AndAlso(AtomDrop(a, key), others);
      }
  }
}
