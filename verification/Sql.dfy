/** WHERE conditions: the recursive-descent parser that turns tokens into an MQL filter. */
module Sql {
  import opened Bytes
  import opened Json
  import TextMap

  /** The words that the tokenizer turns into keywords. */
  datatype Word =
    | SELECT | FROM | WHERE | ORDER | BY | LIMIT | SKIP | INSERT | INTO | VALUES | UPDATE | SET | DELETE
    | GROUP | JOIN | ON | AND | OR | NOT | IN | IS | NULL | ASC | DESC | AS

  /** An operator: one of `=`, `>`, `<` and `!`, and whether another `=` follows. */
  datatype Symbol = Symbol(ch: char, eq: bool)

  const EQ: Symbol := Symbol('=', false)
  const NE: Symbol := Symbol('!', true)
  const GT: Symbol := Symbol('>', false)
  const GE: Symbol := Symbol('>', true)
  const LT: Symbol := Symbol('<', false)
  const LE: Symbol := Symbol('<', true)

  datatype Token =
    | Keyword(word: Word)
    | Identifier(name: Text)
    | Literal(value: Json)
    | Operator(op: Symbol)
    | Punctuation(ch: char)
    | Star

  /** A parsed value and the position after it, or the position of a syntax error. */
  datatype Answer<T> = Ok(value: T, pos: nat) | SyntaxError(pos: nat)

  predicate At(tokens: seq<Token>, pos: nat, t: Token) { pos < |tokens| && tokens[pos] == t }

  // ---- The parser ----

  function MqlOp(op: Symbol): Text {
    if op == NE then Ascii("$ne")
    else if op == GT then Ascii("$gt")
    else if op == GE then Ascii("$gte")
    else if op == LT then Ascii("$lt")
    else if op == LE then Ascii("$lte")
    else Ascii("$eq")
  }

  function Comparison(field: Text, op: Symbol, value: Json): Json {
    JObject([(field, JObject([(MqlOp(op), value)]))])
  }

  function IsNull(field: Text): Json { JObject([(field, JNull)]) }

  function Either(left: Json, right: Json): Json { JObject([(Ascii("$or"), JArray([left, right]))]) }

  function InsertAll(m: seq<(Text, Json)>, entries: seq<(Text, Json)>): seq<(Text, Json)>
    decreases |entries|
  {
    if |entries| == 0 then m
    else InsertAll(TextMap.Insert(m, entries[0].0, entries[0].1), entries[1..])
  }

  function Entries(json: Json): seq<(Text, Json)> { if json.JObject? then json.entries else [] }

  /** AND: both objects copied into one map, the right one last. */
  function Merge(left: Json, right: Json): Json {
    JObject(InsertAll(InsertAll([], Entries(left)), Entries(right)))
  }

  /** `parse_or_condition`. */
  function ParseOr(tokens: seq<Token>, pos: nat): (r: Answer<Json>)
    requires pos <= |tokens|
    ensures r.pos <= |tokens| && (r.Ok? ==> pos < r.pos)
    decreases |tokens| - pos, 2
  {
    match ParseAnd(tokens, pos)
    case SyntaxError(p) => SyntaxError(p)
    case Ok(left, p) =>
      if !At(tokens, p, Keyword(OR)) then Ok(left, p)
      else
        match ParseOr(tokens, p + 1)
        case SyntaxError(q) => SyntaxError(q)
        case Ok(right, q) => Ok(Either(left, right), q)
  }

  /** `parse_and_condition`. */
  function ParseAnd(tokens: seq<Token>, pos: nat): (r: Answer<Json>)
    requires pos <= |tokens|
    ensures r.pos <= |tokens| && (r.Ok? ==> pos < r.pos)
    decreases |tokens| - pos, 1
  {
    match ParseAtom(tokens, pos)
    case SyntaxError(p) => SyntaxError(p)
    case Ok(left, p) =>
      if !At(tokens, p, Keyword(AND)) then Ok(left, p)
      else
        match ParseAnd(tokens, p + 1)
        case SyntaxError(q) => SyntaxError(q)
        case Ok(right, q) => Ok(Merge(left, right), q)
  }

  /** `parse_atom`. An IS that no NULL follows is skipped. */
  function ParseAtom(tokens: seq<Token>, pos: nat): (r: Answer<Json>)
    requires pos <= |tokens|
    ensures r.pos <= |tokens| && (r.Ok? ==> pos < r.pos)
    decreases |tokens| - pos, 0
  {
    if At(tokens, pos, Punctuation('(')) then
      match ParseOr(tokens, pos + 1)
      case SyntaxError(p) => SyntaxError(p)
      case Ok(inner, p) => if At(tokens, p, Punctuation(')')) then Ok(inner, p + 1) else SyntaxError(p)
    else if pos < |tokens| && tokens[pos].Identifier? then
      var field := tokens[pos].name;
      var skipped := At(tokens, pos + 1, Keyword(IS));
      if skipped && At(tokens, pos + 2, Keyword(NULL)) then Ok(IsNull(field), pos + 3)
      else
        var at := if skipped then pos + 2 else pos + 1;
        if at >= |tokens| || !tokens[at].Operator? then SyntaxError(at)
        else if at + 1 >= |tokens| || !tokens[at + 1].Literal? then SyntaxError(at + 1)
        else Ok(Comparison(field, tokens[at].op, tokens[at + 1].value), at + 2)
    else SyntaxError(pos)
  }

  /** One level of a disjunction. */
  lemma OrTurn(tokens: seq<Token>, pos: nat)
    requires pos <= |tokens|
    ensures var left := ParseAnd(tokens, pos);
      left.SyntaxError? || !At(tokens, left.pos, Keyword(OR)) ==> ParseOr(tokens, pos) == left
    ensures var left := ParseAnd(tokens, pos);
      left.Ok? && At(tokens, left.pos, Keyword(OR)) ==>
        var right := ParseOr(tokens, left.pos + 1);
        ParseOr(tokens, pos) == if right.Ok? then Ok(Either(left.value, right.value), right.pos) else right
  {}

  /** The parser as it runs: a position that the methods move over the tokens. */
  class SqlParser {
    const tokens: seq<Token>
    var pos: nat

    constructor (tokens: seq<Token>)
      ensures this.tokens == tokens && pos == 0
    {
      this.tokens := tokens;
      pos := 0;
    }

    method ParseOrCondition() returns (r: Answer<Json>)
      requires pos <= |tokens|
      modifies this`pos
      ensures r == ParseOr(tokens, old(pos)) && pos == r.pos
      decreases |tokens| - pos, 2
    {
      ghost var start := pos;
      var left := ParseAndCondition();
      OrTurn(tokens, start);
      if left.SyntaxError? || !At(tokens, pos, Keyword(OR)) { return left; }
      pos := pos + 1;
      var right := ParseOrCondition();
      if right.SyntaxError? { return right; }
      return Ok(Either(left.value, right.value), pos);
    }

    method ParseAndCondition() returns (r: Answer<Json>)
      requires pos <= |tokens|
      modifies this`pos
      ensures r == ParseAnd(tokens, old(pos)) && pos == r.pos
      decreases |tokens| - pos, 1
    {
      var left := ParseAtomicCondition();
      if left.SyntaxError? || !At(tokens, pos, Keyword(AND)) { return left; }
      pos := pos + 1;
      var right := ParseAndCondition();
      if right.SyntaxError? { return right; }
      var merged := CopyInto([], Entries(left.value));
      merged := CopyInto(merged, Entries(right.value));
      return Ok(JObject(merged), pos);
    }

    method ParseAtomicCondition() returns (r: Answer<Json>)
      requires pos <= |tokens|
      modifies this`pos
      ensures r == ParseAtom(tokens, old(pos)) && pos == r.pos
      decreases |tokens| - pos, 0
    {
      if At(tokens, pos, Punctuation('(')) {
        pos := pos + 1;
        r := ParseOrCondition();
        if r.Ok? {
          if !At(tokens, pos, Punctuation(')')) { return SyntaxError(pos); }
          pos := pos + 1;
          r := Ok(r.value, pos);
        }
        return;
      }
      if pos < |tokens| && tokens[pos].Identifier? {
        var field := tokens[pos].name;
        pos := pos + 1;
        if At(tokens, pos, Keyword(IS)) {
          pos := pos + 1;
          if At(tokens, pos, Keyword(NULL)) {
            pos := pos + 1;
            return Ok(IsNull(field), pos);
          }
        }
        if pos < |tokens| && tokens[pos].Operator? {
          var op := tokens[pos].op;
          pos := pos + 1;
          if pos < |tokens| && tokens[pos].Literal? {
            var value := tokens[pos].value;
            pos := pos + 1;
            return Ok(Comparison(field, op, value), pos);
          }
        }
      }
      return SyntaxError(pos);
    }
  }

  method CopyInto(m: seq<(Text, Json)>, entries: seq<(Text, Json)>) returns (merged: seq<(Text, Json)>)
    ensures merged == InsertAll(m, entries)
  {
    merged := m;
    var rest := entries;
    while |rest| > 0
      invariant InsertAll(merged, rest) == InsertAll(m, entries)
    {
      merged := TextMap.Insert(merged, rest[0].0, rest[0].1);
      rest := rest[1..];
    }
  }

  // ---- The grammar ----

  datatype OrCond = One(only: AndCond) | OrElse(first: AndCond, rest: OrCond)
  datatype AndCond = Single(atom: Atom) | AndAlso(head: Atom, tail: AndCond)
  datatype Atom =
    | Compare(field: Text, afterIs: bool, op: Symbol, value: Json)
    | Missing(field: Text)
    | Paren(inner: OrCond)

  function PrintOr(c: OrCond): seq<Token> {
    match c
    case One(a) => PrintAnd(a)
    case OrElse(a, rest) => PrintAnd(a) + ([Keyword(OR)] + PrintOr(rest))
  }

  function PrintAnd(c: AndCond): seq<Token> {
    match c
    case Single(a) => PrintAtom(a)
    case AndAlso(a, rest) => PrintAtom(a) + ([Keyword(AND)] + PrintAnd(rest))
  }

  function PrintAtom(a: Atom): seq<Token> {
    match a
    case Compare(field, afterIs, op, value) =>
      if afterIs then [Identifier(field), Keyword(IS), Operator(op), Literal(value)]
      else [Identifier(field), Operator(op), Literal(value)]
    case Missing(field) => [Identifier(field), Keyword(IS), Keyword(NULL)]
    case Paren(inner) => [Punctuation('(')] + (PrintOr(inner) + [Punctuation(')')])
  }

  /** The MQL filter of a condition: OR and AND associate to the right. */
  function CompileOr(c: OrCond): Json {
    match c
    case One(a) => CompileAnd(a)
    case OrElse(a, rest) => Either(CompileAnd(a), CompileOr(rest))
  }

  function CompileAnd(c: AndCond): Json {
    match c
    case Single(a) => CompileAtom(a)
    case AndAlso(a, rest) => Merge(CompileAtom(a), CompileAnd(rest))
  }

  function CompileAtom(a: Atom): Json {
    match a
    case Compare(field, _, op, value) => Comparison(field, op, value)
    case Missing(field) => IsNull(field)
    case Paren(inner) => CompileOr(inner)
  }

  // ---- The parser accepts exactly the grammar ----

  predicate StartsWith(tokens: seq<Token>, pos: nat, s: seq<Token>) {
    pos + |s| <= |tokens| && forall i {:trigger s[i]} :: 0 <= i < |s| ==> tokens[pos + i] == s[i]
  }

  lemma SplitStart(tokens: seq<Token>, pos: nat, a: seq<Token>, b: seq<Token>)
    ensures StartsWith(tokens, pos, a + b) <==> StartsWith(tokens, pos, a) && StartsWith(tokens, pos + |a|, b)
  {
    if StartsWith(tokens, pos, a + b) {
      forall i | 0 <= i < |a| ensures tokens[pos + i] == a[i] { assert (a + b)[i] == a[i]; }
      forall i | 0 <= i < |b| ensures tokens[pos + |a| + i] == b[i] { assert (a + b)[|a| + i] == b[i]; }
    }
    if StartsWith(tokens, pos, a) && StartsWith(tokens, pos + |a|, b) {
      forall i | 0 <= i < |a + b| ensures tokens[pos + i] == (a + b)[i] {
        if i >= |a| { assert tokens[pos + |a| + (i - |a|)] == b[i - |a|]; }
      }
    }
  }

  /** One token, then the rest. */
  lemma SplitToken(tokens: seq<Token>, pos: nat, t: Token, s: seq<Token>)
    ensures StartsWith(tokens, pos, [t] + s) <==> At(tokens, pos, t) && StartsWith(tokens, pos + 1, s)
  {
    SplitStart(tokens, pos, [t], s);
    if At(tokens, pos, t) { assert StartsWith(tokens, pos, [t]); }
    if StartsWith(tokens, pos, [t]) { assert [t][0] == t && tokens[pos + 0] == t; }
  }

  /** No OR or AND continues a condition here. */
  predicate Ends(tokens: seq<Token>, pos: nat) {
    !At(tokens, pos, Keyword(OR)) && !At(tokens, pos, Keyword(AND))
  }

  lemma SplitOrElse(tokens: seq<Token>, pos: nat, a: AndCond, rest: OrCond) returns (p: nat)
    requires StartsWith(tokens, pos, PrintOr(OrElse(a, rest)))
    ensures p == pos + |PrintAnd(a)| && pos + |PrintOr(OrElse(a, rest))| == p + 1 + |PrintOr(rest)|
    ensures StartsWith(tokens, pos, PrintAnd(a)) && At(tokens, p, Keyword(OR)) && StartsWith(tokens, p + 1, PrintOr(rest))
  {
    p := pos + |PrintAnd(a)|;
    SplitStart(tokens, pos, PrintAnd(a), [Keyword(OR)] + PrintOr(rest));
    SplitToken(tokens, p, Keyword(OR), PrintOr(rest));
  }

  lemma SplitAndAlso(tokens: seq<Token>, pos: nat, a: Atom, rest: AndCond) returns (p: nat)
    requires StartsWith(tokens, pos, PrintAnd(AndAlso(a, rest)))
    ensures p == pos + |PrintAtom(a)| && pos + |PrintAnd(AndAlso(a, rest))| == p + 1 + |PrintAnd(rest)|
    ensures StartsWith(tokens, pos, PrintAtom(a)) && At(tokens, p, Keyword(AND)) && StartsWith(tokens, p + 1, PrintAnd(rest))
  {
    p := pos + |PrintAtom(a)|;
    SplitStart(tokens, pos, PrintAtom(a), [Keyword(AND)] + PrintAnd(rest));
    SplitToken(tokens, p, Keyword(AND), PrintAnd(rest));
  }

  /** A printed condition that no OR or AND continues parses to its filter. */
  lemma {:induction false} ParsePrintedOr(c: OrCond, tokens: seq<Token>, pos: nat)
    requires StartsWith(tokens, pos, PrintOr(c))
    requires Ends(tokens, pos + |PrintOr(c)|)
    ensures ParseOr(tokens, pos) == Ok(CompileOr(c), pos + |PrintOr(c)|)
  {
    match c
    case One(a) => ParsePrintedAnd(a, tokens, pos);
    case OrElse(a, rest) =>
      var p := SplitOrElse(tokens, pos, a, rest);
      ParsePrintedAnd(a, tokens, pos);
      ParsePrintedOr(rest, tokens, p + 1);
      OrParses(tokens, pos, a, rest, p, p + 1 + |PrintOr(rest)|);
  }

  lemma OrStep(tokens: seq<Token>, pos: nat, left: Json, p: nat, right: Json, q: nat)
    requires pos <= |tokens| && ParseAnd(tokens, pos) == Ok(left, p)
    requires At(tokens, p, Keyword(OR)) && ParseOr(tokens, p + 1) == Ok(right, q)
    ensures ParseOr(tokens, pos) == Ok(Either(left, right), q)
  {}

  lemma {:induction false} ParsePrintedAnd(c: AndCond, tokens: seq<Token>, pos: nat)
    requires StartsWith(tokens, pos, PrintAnd(c))
    requires !At(tokens, pos + |PrintAnd(c)|, Keyword(AND))
    ensures ParseAnd(tokens, pos) == Ok(CompileAnd(c), pos + |PrintAnd(c)|)
  {
    match c
    case Single(a) =>
      ParsePrintedAtom(a, tokens, pos);
      AndEnd(tokens, pos, a, pos + |PrintAtom(a)|);
    case AndAlso(a, rest) =>
      var p := SplitAndAlso(tokens, pos, a, rest);
      ParsePrintedAtom(a, tokens, pos);
      ParsePrintedAnd(rest, tokens, p + 1);
      AndParses(tokens, pos, a, rest, p, p + 1 + |PrintAnd(rest)|);
  }

  lemma AndStep(tokens: seq<Token>, pos: nat, left: Json, p: nat, right: Json, q: nat)
    requires pos <= |tokens| && ParseAtom(tokens, pos) == Ok(left, p)
    requires At(tokens, p, Keyword(AND)) && ParseAnd(tokens, p + 1) == Ok(right, q)
    ensures ParseAnd(tokens, pos) == Ok(Merge(left, right), q)
  {}

  lemma {:induction false} ParsePrintedAtom(a: Atom, tokens: seq<Token>, pos: nat)
    requires StartsWith(tokens, pos, PrintAtom(a))
    ensures ParseAtom(tokens, pos) == Ok(CompileAtom(a), pos + |PrintAtom(a)|)
  {
    var s := PrintAtom(a);
    match a
    case Paren(inner) =>
      SplitToken(tokens, pos, Punctuation('('), PrintOr(inner) + [Punctuation(')')]);
      SplitStart(tokens, pos + 1, PrintOr(inner), [Punctuation(')')]);
      assert [Punctuation(')')] == [Punctuation(')')] + [];
      SplitToken(tokens, pos + 1 + |PrintOr(inner)|, Punctuation(')'), []);
      ParsePrintedOr(inner, tokens, pos + 1);
    case Missing(_) =>
      assert s[0] == tokens[pos + 0] && s[1] == tokens[pos + 1] && s[2] == tokens[pos + 2];
    case Compare(_, afterIs, _, _) =>
      assert s[0] == tokens[pos + 0] && s[1] == tokens[pos + 1] && s[2] == tokens[pos + 2];
      if afterIs { assert s[3] == tokens[pos + 3]; }
  }

  lemma JoinStarts(tokens: seq<Token>, pos: nat, a: seq<Token>, t: Token, b: seq<Token>)
    requires StartsWith(tokens, pos, a) && At(tokens, pos + |a|, t) && StartsWith(tokens, pos + |a| + 1, b)
    ensures StartsWith(tokens, pos, a + ([t] + b))
  {
    SplitToken(tokens, pos + |a|, t, b);
    SplitStart(tokens, pos, a, [t] + b);
  }

  /** What the parser accepts is a printed condition, compiled. */
  lemma {:induction false} ParsedOrIsPrinted(tokens: seq<Token>, pos: nat) returns (c: OrCond)
    requires pos <= |tokens| && ParseOr(tokens, pos).Ok?
    ensures PrintedOr(c, tokens, pos)
    ensures ParseOr(tokens, pos) == Ok(CompileOr(c), pos + |PrintOr(c)|)
    decreases |tokens| - pos, 2
  {
    hide *;
    var p := OrHead(tokens, pos);
    var a := ParsedAndIsPrinted(tokens, pos);
    if At(tokens, p, Keyword(OR)) {
      var rest := ParsedOrIsPrinted(tokens, p + 1);
      c := OrElse(a, rest);
      OrMore(tokens, pos, a, rest, p);
    } else {
      c := One(a);
      OrEnd(tokens, pos, a, p);
    }
  }

  /** A printed condition that no OR or AND continues. */
  predicate PrintedOr(c: OrCond, tokens: seq<Token>, pos: nat) {
    StartsWith(tokens, pos, PrintOr(c)) && Ends(tokens, pos + |PrintOr(c)|)
  }

  lemma OrEnd(tokens: seq<Token>, pos: nat, a: AndCond, p: nat)
    requires pos <= |tokens| && PrintedAnd(a, tokens, pos) && p == pos + |PrintAnd(a)|
    requires ParseAnd(tokens, pos) == Ok(CompileAnd(a), p) && !At(tokens, p, Keyword(OR))
    ensures PrintedOr(One(a), tokens, pos) && ParseOr(tokens, pos) == Ok(CompileOr(One(a)), pos + |PrintOr(One(a))|)
  {}

  lemma OrMore(tokens: seq<Token>, pos: nat, a: AndCond, rest: OrCond, p: nat)
    requires pos <= |tokens| && PrintedAnd(a, tokens, pos) && p == pos + |PrintAnd(a)|
    requires ParseAnd(tokens, pos) == Ok(CompileAnd(a), p) && At(tokens, p, Keyword(OR))
    requires PrintedOr(rest, tokens, p + 1) && ParseOr(tokens, p + 1) == Ok(CompileOr(rest), p + 1 + |PrintOr(rest)|)
    ensures PrintedOr(OrElse(a, rest), tokens, pos)
    ensures ParseOr(tokens, pos) == Ok(CompileOr(OrElse(a, rest)), pos + |PrintOr(OrElse(a, rest))|)
  {
    hide *;
    PrintsOrElse(tokens, pos, a, rest, p);
    OrParses(tokens, pos, a, rest, p, p + 1 + |PrintOr(rest)|);
  }

  /** A parsed condition begins with a conjunction, and goes on after OR. */
  lemma OrHead(tokens: seq<Token>, pos: nat) returns (p: nat)
    requires pos <= |tokens| && ParseOr(tokens, pos).Ok?
    ensures ParseAnd(tokens, pos).Ok? && p == ParseAnd(tokens, pos).pos && pos < p <= |tokens|
    ensures At(tokens, p, Keyword(OR)) ==> ParseOr(tokens, p + 1).Ok?
  {
    p := ParseAnd(tokens, pos).pos;
  }

  lemma PrintsOrElse(tokens: seq<Token>, pos: nat, a: AndCond, rest: OrCond, p: nat)
    requires PrintedAnd(a, tokens, pos) && p == pos + |PrintAnd(a)|
    requires At(tokens, p, Keyword(OR)) && PrintedOr(rest, tokens, p + 1)
    ensures PrintedOr(OrElse(a, rest), tokens, pos)
    ensures pos + |PrintOr(OrElse(a, rest))| == p + 1 + |PrintOr(rest)|
  {
    JoinStarts(tokens, pos, PrintAnd(a), Keyword(OR), PrintOr(rest));
  }

  lemma {:induction false} ParsedAndIsPrinted(tokens: seq<Token>, pos: nat) returns (c: AndCond)
    requires pos <= |tokens| && ParseAnd(tokens, pos).Ok?
    ensures PrintedAnd(c, tokens, pos)
    ensures ParseAnd(tokens, pos) == Ok(CompileAnd(c), pos + |PrintAnd(c)|)
    decreases |tokens| - pos, 1
  {
    hide *;
    var p := AndHead(tokens, pos);
    var a := ParsedAtomIsPrinted(tokens, pos);
    if At(tokens, p, Keyword(AND)) {
      var rest := ParsedAndIsPrinted(tokens, p + 1);
      c := AndAlso(a, rest);
      AndMore(tokens, pos, a, rest, p);
    } else {
      c := Single(a);
      AndEnd(tokens, pos, a, p);
    }
  }

  /** A printed conjunction that no AND continues. */
  predicate PrintedAnd(c: AndCond, tokens: seq<Token>, pos: nat) {
    StartsWith(tokens, pos, PrintAnd(c)) && !At(tokens, pos + |PrintAnd(c)|, Keyword(AND))
  }

  lemma AndEnd(tokens: seq<Token>, pos: nat, a: Atom, p: nat)
    requires pos <= |tokens| && StartsWith(tokens, pos, PrintAtom(a)) && p == pos + |PrintAtom(a)|
    requires ParseAtom(tokens, pos) == Ok(CompileAtom(a), p) && !At(tokens, p, Keyword(AND))
    ensures PrintedAnd(Single(a), tokens, pos)
    ensures ParseAnd(tokens, pos) == Ok(CompileAnd(Single(a)), pos + |PrintAnd(Single(a))|)
  {}

  lemma AndMore(tokens: seq<Token>, pos: nat, a: Atom, rest: AndCond, p: nat)
    requires pos <= |tokens| && StartsWith(tokens, pos, PrintAtom(a)) && p == pos + |PrintAtom(a)|
    requires ParseAtom(tokens, pos) == Ok(CompileAtom(a), p) && At(tokens, p, Keyword(AND))
    requires PrintedAnd(rest, tokens, p + 1)
    requires ParseAnd(tokens, p + 1) == Ok(CompileAnd(rest), p + 1 + |PrintAnd(rest)|)
    ensures PrintedAnd(AndAlso(a, rest), tokens, pos)
    ensures ParseAnd(tokens, pos) == Ok(CompileAnd(AndAlso(a, rest)), pos + |PrintAnd(AndAlso(a, rest))|)
  {
    hide *;
    PrintsAndAlso(tokens, pos, a, rest, p);
    AndParses(tokens, pos, a, rest, p, p + 1 + |PrintAnd(rest)|);
  }

  lemma AndParses(tokens: seq<Token>, pos: nat, a: Atom, rest: AndCond, p: nat, q: nat)
    requires pos <= |tokens| && ParseAtom(tokens, pos) == Ok(CompileAtom(a), p)
    requires At(tokens, p, Keyword(AND)) && ParseAnd(tokens, p + 1) == Ok(CompileAnd(rest), q)
    ensures ParseAnd(tokens, pos) == Ok(CompileAnd(AndAlso(a, rest)), q)
  {
    AndStep(tokens, pos, CompileAtom(a), p, CompileAnd(rest), q);
  }

  lemma OrParses(tokens: seq<Token>, pos: nat, a: AndCond, rest: OrCond, p: nat, q: nat)
    requires pos <= |tokens| && ParseAnd(tokens, pos) == Ok(CompileAnd(a), p)
    requires At(tokens, p, Keyword(OR)) && ParseOr(tokens, p + 1) == Ok(CompileOr(rest), q)
    ensures ParseOr(tokens, pos) == Ok(CompileOr(OrElse(a, rest)), q)
  {
    OrStep(tokens, pos, CompileAnd(a), p, CompileOr(rest), q);
  }

  /** A parsed conjunction begins with an atom, and goes on after AND. */
  lemma AndHead(tokens: seq<Token>, pos: nat) returns (p: nat)
    requires pos <= |tokens| && ParseAnd(tokens, pos).Ok?
    ensures ParseAtom(tokens, pos).Ok? && p == ParseAtom(tokens, pos).pos && pos < p <= |tokens|
    ensures At(tokens, p, Keyword(AND)) ==> ParseAnd(tokens, p + 1).Ok?
  {
    p := ParseAtom(tokens, pos).pos;
  }

  lemma PrintsAndAlso(tokens: seq<Token>, pos: nat, a: Atom, rest: AndCond, p: nat)
    requires StartsWith(tokens, pos, PrintAtom(a)) && p == pos + |PrintAtom(a)|
    requires At(tokens, p, Keyword(AND)) && PrintedAnd(rest, tokens, p + 1)
    ensures PrintedAnd(AndAlso(a, rest), tokens, pos)
    ensures pos + |PrintAnd(AndAlso(a, rest))| == p + 1 + |PrintAnd(rest)|
  {
    JoinStarts(tokens, pos, PrintAtom(a), Keyword(AND), PrintAnd(rest));
  }

  lemma {:induction false} ParsedAtomIsPrinted(tokens: seq<Token>, pos: nat) returns (a: Atom)
    requires pos <= |tokens| && ParseAtom(tokens, pos).Ok?
    ensures StartsWith(tokens, pos, PrintAtom(a))
    ensures ParseAtom(tokens, pos) == Ok(CompileAtom(a), pos + |PrintAtom(a)|)
    decreases |tokens| - pos, 0
  {
    hide *;
    if At(tokens, pos, Punctuation('(')) {
      ParenHead(tokens, pos);
      var inner := ParsedOrIsPrinted(tokens, pos + 1);
      a := Paren(inner);
      ParenEnd(tokens, pos, inner);
    } else {
      a := LeafIsPrinted(tokens, pos);
    }
  }

  lemma ParenHead(tokens: seq<Token>, pos: nat)
    requires pos <= |tokens| && ParseAtom(tokens, pos).Ok? && At(tokens, pos, Punctuation('('))
    ensures pos + 1 <= |tokens| && ParseOr(tokens, pos + 1).Ok?
  {}

  lemma ParenEnd(tokens: seq<Token>, pos: nat, inner: OrCond)
    requires pos < |tokens| && ParseAtom(tokens, pos).Ok? && At(tokens, pos, Punctuation('('))
    requires PrintedOr(inner, tokens, pos + 1)
    requires ParseOr(tokens, pos + 1) == Ok(CompileOr(inner), pos + 1 + |PrintOr(inner)|)
    ensures StartsWith(tokens, pos, PrintAtom(Paren(inner)))
    ensures ParseAtom(tokens, pos) == Ok(CompileAtom(Paren(inner)), pos + |PrintAtom(Paren(inner))|)
  {
    PrintsParen(tokens, pos, PrintOr(inner));
  }

  lemma PrintsParen(tokens: seq<Token>, pos: nat, inner: seq<Token>)
    requires At(tokens, pos, Punctuation('(')) && StartsWith(tokens, pos + 1, inner)
    requires At(tokens, pos + 1 + |inner|, Punctuation(')'))
    ensures StartsWith(tokens, pos, [Punctuation('(')] + (inner + [Punctuation(')')]))
  {
    assert [Punctuation(')')] == [Punctuation(')')] + [];
    SplitToken(tokens, pos + 1 + |inner|, Punctuation(')'), []);
    SplitStart(tokens, pos + 1, inner, [Punctuation(')')]);
    SplitToken(tokens, pos, Punctuation('('), inner + [Punctuation(')')]);
  }

  lemma LeafIsPrinted(tokens: seq<Token>, pos: nat) returns (a: Atom)
    requires pos <= |tokens| && ParseAtom(tokens, pos).Ok? && !At(tokens, pos, Punctuation('('))
    ensures StartsWith(tokens, pos, PrintAtom(a))
    ensures ParseAtom(tokens, pos) == Ok(CompileAtom(a), pos + |PrintAtom(a)|)
  {
    var field := tokens[pos].name;
    var skipped := At(tokens, pos + 1, Keyword(IS));
    if skipped && At(tokens, pos + 2, Keyword(NULL)) {
      a := Missing(field);
    } else {
      var at := if skipped then pos + 2 else pos + 1;
      a := Compare(field, skipped, tokens[at].op, tokens[at + 1].value);
    }
  }

  predicate Prints(c: OrCond, tokens: seq<Token>, pos: nat, json: Json, end: nat) {
    StartsWith(tokens, pos, PrintOr(c)) && end == pos + |PrintOr(c)| && Ends(tokens, end) && json == CompileOr(c)
  }

  /** The parser succeeds exactly on what the grammar derives, and gives its filter. */
  lemma ParserIsGrammar(tokens: seq<Token>, pos: nat, json: Json, end: nat)
    requires pos <= |tokens|
    ensures ParseOr(tokens, pos) == Ok(json, end) <==> exists c :: Prints(c, tokens, pos, json, end)
  {
    if ParseOr(tokens, pos) == Ok(json, end) {
      var c := ParsedOrIsPrinted(tokens, pos);
      assert Prints(c, tokens, pos, json, end);
    }
    if c :| Prints(c, tokens, pos, json, end) {
      ParsePrintedOr(c, tokens, pos);
    }
  }
}
