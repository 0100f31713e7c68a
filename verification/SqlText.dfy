/** WHERE conditions from their text to their answers. */
module SqlText {
  import opened Bytes
  import opened ObeValue
  import opened Json
  import opened Sql
  import opened SqlLexer
  import opened SqlMeaning
  import opened SqlPipeline
  import opened Utf8Text
  import F = Filter

  /** Identifiers are no operators. */
  predicate PlainToken(t: Token) { t.Identifier? ==> PlainName(t.name) }

  predicate PlainTokens(tokens: seq<Token>) { forall i :: 0 <= i < |tokens| ==> PlainToken(tokens[i]) }

  /** Whatever the text, the tokenizer makes no identifier that starts with `$`. */
  lemma {:induction false} TokenizePlain(s: string, cl: Classes)
    requires Sane(cl)
    ensures PlainTokens(Tokenize(s, cl))
    decreases |s|
  {
    if |s| > 0 {
      TokenizePlain(s[Step(s, cl).1..], cl);
    }
  }

  lemma PlainSplit(a: seq<Token>, b: seq<Token>)
    requires PlainTokens(a + b)
    ensures PlainTokens(a) && PlainTokens(b)
  {
    assert forall i :: 0 <= i < |a| ==> (a + b)[i] == a[i];
    assert forall i :: 0 <= i < |b| ==> (a + b)[|a| + i] == b[i];
  }

  lemma {:induction false} OrPlainOf(c: OrCond)
    requires PlainTokens(PrintOr(c))
    ensures OrPlain(c)
  {
    match c
    case One(a) => AndPlainOf(a);
    case OrElse(a, rest) =>
      PlainSplit(PrintAnd(a), [Keyword(OR)] + PrintOr(rest));
      PlainSplit([Keyword(OR)], PrintOr(rest));
      AndPlainOf(a);
      OrPlainOf(rest);
  }

  lemma {:induction false} AndPlainOf(c: AndCond)
    requires PlainTokens(PrintAnd(c))
    ensures AndPlain(c)
  {
    match c
    case Single(a) => AtomPlainOf(a);
    case AndAlso(a, rest) =>
      PlainSplit(PrintAtom(a), [Keyword(AND)] + PrintAnd(rest));
      PlainSplit([Keyword(AND)], PrintAnd(rest));
      AtomPlainOf(a);
      AndPlainOf(rest);
  }

  lemma {:induction false} AtomPlainOf(a: Atom)
    requires PlainTokens(PrintAtom(a))
    ensures AtomPlain(a)
  {
    match a
    case Paren(inner) =>
      PlainSplit([Punctuation('(')], PrintOr(inner) + [Punctuation(')')]);
      PlainSplit(PrintOr(inner), [Punctuation(')')]);
      OrPlainOf(inner);
    case _ => assert PlainToken(PrintAtom(a)[0]);
  }

  /** Wherever a condition parses in whatever text, the text has a condition there, and its
      filter accepts exactly the documents on which what survives of that condition holds:
      all of it, if no AND repeats a key. */
  lemma AnyTextMeaning(s: string, pos: nat, cl: Classes, doc: Fields, ext: F.External) returns (c: OrCond)
    requires Sane(cl) && pos <= |Tokenize(s, cl)| && ParseOr(Tokenize(s, cl), pos).Ok?
    ensures var tokens := Tokenize(s, cl); var end := ParseOr(tokens, pos).pos;
      pos <= end <= |tokens| && tokens[pos..end] == PrintOr(c)
    ensures F.Accepts(ParseOr(Tokenize(s, cl), pos).value, doc, ext) == OrKept(c, {}, doc)
    ensures OrDistinct(c) ==> F.Accepts(ParseOr(Tokenize(s, cl), pos).value, doc, ext) == OrTruth(c, doc)
  {
    var tokens := Tokenize(s, cl);
    c := ParsedOrIsPrinted(tokens, pos);
    var printed := PrintOr(c);
    var end := pos + |printed|;
    assert forall i :: 0 <= i < |printed| ==> tokens[pos + i] == printed[i];
    assert tokens[pos..end] == printed;
    TokenizePlain(s, cl);
    assert PlainTokens(printed);
    OrPlainOf(c);
    OrFilter(c, doc, ext);
    OrKeptWeaker(c, {}, doc);
  }

  /** A condition that is written out with blanks between its tokens is parsed to the end and
      means what it says, if no AND repeats a key. */
  lemma WrittenMeaning(c: OrCond, spelling: Spelling, blank: char, cl: Classes, doc: Fields, ext: F.External)
    requires Sane(cl) && cl.space(blank) && AllSpelled(spelling, cl) && TokensOf(spelling) == PrintOr(c)
    requires OrDistinct(c)
    ensures var tokens := Tokenize(Written(spelling, blank), cl);
      ParseOr(tokens, 0).Ok? && ParseOr(tokens, 0).pos == |tokens|
      && F.Accepts(ParseOr(tokens, 0).value, doc, ext) == OrTruth(c, doc)
  {
    var tokens := Tokenize(Written(spelling, blank), cl);
    TokenizeWritten(spelling, blank, cl);
    TokenizePlain(Written(spelling, blank), cl);
    OrPlainOf(c);
    ParsePrintedOr(c, tokens, 0);
    OrFilter(c, doc, ext);
    OrKeptWeaker(c, {}, doc);
  }

  /** From text to answer: `field = 'words'`, with blanks between, accepts exactly the documents
      that have at the field the string with those characters. */
  lemma StringText(field: string, words: string, quote: char, blank: char, cl: Classes, doc: Fields, ext: F.External,
                   name: Text, text: Utf8)
    requires Sane(cl) && cl.space(blank) && Quote(quote) && All(words, c => c != quote)
    requires Spells(field, Identifier(name), cl) && Means(text, words)
    ensures Means(name, field)
    ensures var s := field + ([blank] + ("=" + ([blank] + ([quote] + words + [quote] + ([blank] + "")))));
      ParseOr(Tokenize(s, cl), 0).Ok? && ParseOr(Tokenize(s, cl), 0).pos == |Tokenize(s, cl)|
      && (F.Accepts(ParseOr(Tokenize(s, cl), 0).value, doc, ext) <==> GetPath(doc, name) == Some(String(text)))
  {
    var quoted := [quote] + words + [quote];
    var spelling := [(field, Identifier(name)), ("=", Operator(EQ)), (quoted, Literal(JString(text)))];
    StringSpelled(words, text, quote, cl);
    SpellingOfThree(spelling, blank);
    ThreeTokens(spelling, name, JString(text));
    assert AllSpelled(spelling, cl);
    JustText(Just(name, EQ, JString(text)), spelling, blank, cl);
    TokenizePlain(Written(spelling, blank), cl);
    assert PlainToken(TokensOf(spelling)[0]);
    StringEquals(name, text, doc, ext);
  }

  lemma ThreeTokens(spelling: Spelling, name: Text, value: Json)
    requires |spelling| == 3 && spelling[0].1 == Identifier(name)
    requires spelling[1].1 == Operator(EQ) && spelling[2].1 == Literal(value)
    ensures TokensOf(spelling) == PrintOr(Just(name, EQ, value)) && TokensOf(spelling)[0] == Identifier(name)
  {
    var a := Compare(name, false, EQ, value);
    assert PrintOr(One(Single(a))) == PrintAnd(Single(a)) == PrintAtom(a);
    assert TokensOf(spelling) == [Identifier(name), Operator(EQ), Literal(value)];
  }

  lemma JustText(c: OrCond, spelling: Spelling, blank: char, cl: Classes)
    requires Sane(cl) && cl.space(blank) && AllSpelled(spelling, cl) && TokensOf(spelling) == PrintOr(c)
    ensures Tokenize(Written(spelling, blank), cl) == TokensOf(spelling)
    ensures ParseOr(TokensOf(spelling), 0) == Ok(CompileOr(c), |TokensOf(spelling)|)
  {
    TokenizeWritten(spelling, blank, cl);
    ParsePrintedOr(c, TokensOf(spelling), 0);
  }

  lemma SpellingOfThree(spelling: Spelling, blank: char)
    requires |spelling| == 3
    ensures Written(spelling, blank)
         == spelling[0].0 + ([blank] + (spelling[1].0 + ([blank] + (spelling[2].0 + ([blank] + "")))))
  {
    assert spelling[1..][1..] == [spelling[2]] && [spelling[2]][1..] == [];
    assert Written([spelling[2]], blank) == spelling[2].0 + ([blank] + "");
    assert Written(spelling[1..], blank) == spelling[1].0 + ([blank] + Written(spelling[1..][1..], blank));
  }
}
