/** The SQL tokenizer, and what it makes of text in which blanks separate the tokens. */
module SqlLexer {
  import opened Bytes
  import opened ObeValue
  import opened Json
  import opened Sql
  import opened Utf8Text

  // ---- The tokenizer ----

  /** The character classes of Unicode and the number syntax of floats. */
  datatype Classes = Classes(
    space: char -> bool,
    alphabetic: char -> bool,
    numeric: char -> bool,
    upper: string -> string,
    float: string -> Option<u64>)

  predicate Digit(c: char) { '0' <= c <= '9' }
  predicate NumberChar(c: char) { Digit(c) || c == '.' }
  predicate WordStart(c: char, cl: Classes) { cl.alphabetic(c) || c == '_' }
  predicate WordChar(c: char, cl: Classes) { cl.alphabetic(c) || cl.numeric(c) || c == '_' || c == '.' }
  predicate Quote(c: char) { c == '\'' || c == '"' }
  predicate Relation(c: char) { c == '=' || c == '>' || c == '<' || c == '!' }
  predicate Mark(c: char) { c == ',' || c == '(' || c == ')' }

  /** How many characters at the front satisfy `p`. */
  function Span(s: string, p: char -> bool): (n: nat)
    ensures n <= |s| && (forall i :: 0 <= i < n ==> p(s[i])) && (n < |s| ==> !p(s[n]))
  {
    if |s| > 0 && p(s[0]) then 1 + Span(s[1..], p) else 0
  }

  function Decimal(s: string, acc: nat): Option<nat>
    decreases |s|
  {
    if |s| == 0 then Some(acc)
    else if Digit(s[0]) then Decimal(s[1..], 10 * acc + (s[0] as int - '0' as int))
    else None
  }

  /** `parse::<i64>()` on an optional minus sign and digits. */
  function Integer(s: string): Option<i64> {
    var negative := |s| > 0 && s[0] == '-';
    var digits := if negative then s[1..] else s;
    if |digits| == 0 then None
    else
      match Decimal(digits, 0)
      case None => None
      case Some(n) =>
        var v := if negative then 0 - n else n;
        if 0 - TWO_63 <= v < TWO_63 then Some(v) else None
  }

  /** The literal of a number; none if it does not parse, and null if it is too large for a
      finite float (`serde_json` has no infinity). */
  function Number(s: string, cl: Classes): seq<Token> {
    if '.' in s then
      match cl.float(s)
      case None => []
      case Some(bits) => [Literal(if Denotes(bits).Finite? then JFloat(bits) else JNull)]
    else
      match Integer(s)
      case None => []
      case Some(i) => [Literal(JInt(i))]
  }

  function Name(w: Word): string {
    match w
    case SELECT => "SELECT" case FROM => "FROM" case WHERE => "WHERE" case ORDER => "ORDER" case BY => "BY"
    case LIMIT => "LIMIT" case SKIP => "SKIP" case INSERT => "INSERT" case INTO => "INTO" case VALUES => "VALUES"
    case UPDATE => "UPDATE" case SET => "SET" case DELETE => "DELETE" case GROUP => "GROUP" case JOIN => "JOIN"
    case ON => "ON" case AND => "AND" case OR => "OR" case NOT => "NOT" case IN => "IN" case IS => "IS"
    case NULL => "NULL" case ASC => "ASC" case DESC => "DESC" case AS => "AS"
  }

  const WORDS: seq<Word> := [SELECT, FROM, WHERE, ORDER, BY, LIMIT, SKIP, INSERT, INTO, VALUES, UPDATE, SET, DELETE,
                             GROUP, JOIN, ON, AND, OR, NOT, IN, IS, NULL, ASC, DESC, AS]

  function Lookup(words: seq<Word>, name: string): Option<Word>
    decreases |words|
  {
    if |words| == 0 then None
    else if Name(words[0]) == name then Some(words[0])
    else Lookup(words[1..], name)
  }

  function WordToken(word: string, cl: Classes): Token {
    match Lookup(WORDS, cl.upper(word))
    case Some(w) => Keyword(w)
    case None => Identifier(Utf8Of(word))
  }

  /** One step of `tokenize`: what is pushed, and how many characters are taken. */
  function Step(s: string, cl: Classes): (r: (seq<Token>, nat))
    requires |s| > 0
    ensures 0 < r.1 <= |s|
  {
    var ch := s[0];
    if cl.space(ch) then ([], 1)
    else if ch == '*' then ([Star], 1)
    else if Mark(ch) then ([Punctuation(ch)], 1)
    else if Relation(ch) then
      if |s| > 1 && s[1] == '=' then ([Operator(Symbol(ch, true))], 2) else ([Operator(Symbol(ch, false))], 1)
    else if Quote(ch) then
      var n := Span(s[1..], c => c != ch);
      ([Literal(JString(Utf8Of(s[1..1 + n])))], if 1 + n < |s| then n + 2 else n + 1)
    else if Digit(ch) || ch == '-' then
      var start := if ch == '-' then 1 else 0;
      var n := start + Span(s[start..], NumberChar);
      (Number(s[..n], cl), n)
    else if WordStart(ch, cl) then
      var n := Span(s, c => WordChar(c, cl));
      ([WordToken(s[..n], cl)], n)
    else ([], 1)
  }

  /** `tokenize`. */
  function Tokenize(s: string, cl: Classes): seq<Token>
    decreases |s|
  {
    if |s| == 0 then []
    else
      var (tokens, n) := Step(s, cl);
      tokens + Tokenize(s[n..], cl)
  }

  // ---- The tokenizer as it runs ----

  /** The inner loops, over the characters of a string, a number or a word. */
  method TakeWhile(s: string, p: char -> bool) returns (n: nat)
    ensures n == Span(s, p)
  {
    n := 0;
    while n < |s| && p(s[n])
      invariant n <= |s| && Span(s, p) == n + Span(s[n..], p)
    {
      assert s[n..][0] == s[n] && s[n..][1..] == s[n + 1..];
      n := n + 1;
    }
  }

  method TakeToken(s: string, cl: Classes) returns (pushed: seq<Token>, n: nat)
    requires |s| > 0
    ensures (pushed, n) == Step(s, cl)
  {
    var ch := s[0];
    if cl.space(ch) { return [], 1; }
    if ch == '*' { return [Star], 1; }
    if Mark(ch) { return [Punctuation(ch)], 1; }
    if Relation(ch) {
      if |s| > 1 && s[1] == '=' { return [Operator(Symbol(ch, true))], 2; }
      return [Operator(Symbol(ch, false))], 1;
    }
    if Quote(ch) {
      n := TakeWhile(s[1..], c => c != ch);
      return [Literal(JString(Utf8Of(s[1..1 + n])))], if 1 + n < |s| then n + 2 else n + 1;
    }
    if Digit(ch) || ch == '-' {
      var start := if ch == '-' then 1 else 0;
      n := TakeWhile(s[start..], NumberChar);
      return Number(s[..start + n], cl), start + n;
    }
    if WordStart(ch, cl) {
      n := TakeWhile(s, c => WordChar(c, cl));
      return [WordToken(s[..n], cl)], n;
    }
    return [], 1;
  }

  method TakeNext(s: string, cl: Classes) returns (pushed: seq<Token>, n: nat)
    requires |s| > 0
    ensures 0 < n <= |s| && Tokenize(s, cl) == pushed + Tokenize(s[n..], cl)
  {
    pushed, n := TakeToken(s, cl);
  }

  method RunTokenizer(input: string, cl: Classes) returns (tokens: seq<Token>)
    ensures tokens == Tokenize(input, cl)
  {
    tokens := [];
    var rest := input;
    while |rest| > 0
      invariant tokens + Tokenize(rest, cl) == Tokenize(input, cl)
    {
      var pushed, n := TakeNext(rest, cl);
      ghost var tail := Tokenize(rest[n..], cl);
      assert tokens + (pushed + tail) == tokens + pushed + tail;
      tokens := tokens + pushed;
      rest := rest[n..];
    }
  }

  // ---- Spelling tokens ----

  /** The classes agree with ASCII. */
  ghost predicate Sane(cl: Classes) {
    !cl.alphabetic('$')
    && forall c: char :: cl.space(c) ==>
      !WordChar(c, cl) && !NumberChar(c) && c != '-' && c != '*' && c != '=' && !Mark(c) && !Relation(c) && !Quote(c)
  }

  predicate All(s: string, p: char -> bool) { forall i :: 0 <= i < |s| ==> p(s[i]) }

  /** The characters that the tokens are told apart by. */
  lemma Characters(c: char, cl: Classes)
    ensures NumberChar(c) <==> c in "0123456789."
    ensures Quote(c) <==> c in ['\'', '"']
    ensures Relation(c) <==> c in "=<>!"
    ensures Mark(c) <==> c in ",()"
    ensures WordStart(c, cl) <==> cl.alphabetic(c) || c in "_"
    ensures WordChar(c, cl) <==> cl.alphabetic(c) || cl.numeric(c) || c in "_."
  {
    if Digit(c) { assert "0123456789."[c as int - '0' as int] == c; }
  }

  /** `s` is a way to write the token. */
  predicate Spells(s: string, t: Token, cl: Classes) {
    |s| > 0 && !cl.space(s[0])
    && match t
       case Star => s == "*"
       case Punctuation(ch) => Mark(ch) && s == [ch]
       case Operator(op) => Relation(op.ch) && s == if op.eq then [op.ch, '='] else [op.ch]
       case Literal(JString(text)) =>
         |s| > 1 && Quote(s[0]) && s[|s| - 1] == s[0] && All(s[1..|s| - 1], c => c != s[0]) && Means(text, s[1..|s| - 1])
       case Literal(_) =>
         (Digit(s[0]) || s[0] == '-') && All(s[1..], NumberChar) && Number(s, cl) == [t]
       case Keyword(w) => WordLike(s, cl) && cl.upper(s) == Name(w)
       case Identifier(name) => WordLike(s, cl) && Means(name, s) && forall w :: cl.upper(s) != Name(w)
  }

  predicate WordLike(s: string, cl: Classes) {
    |s| > 0 && WordStart(s[0], cl) && All(s, c => WordChar(c, cl))
    && s[0] != '*' && s[0] != '-' && !Digit(s[0]) && !Mark(s[0]) && !Relation(s[0]) && !Quote(s[0])
  }

  predicate Blank(s: string, cl: Classes) { |s| > 0 && cl.space(s[0]) }

  lemma {:induction false} SpanOf(a: string, b: string, p: char -> bool)
    requires All(a, p) && (|b| > 0 ==> !p(b[0]))
    ensures Span(a + b, p) == |a|
  {
    if |a| > 0 {
      assert (a + b)[1..] == a[1..] + b;
      SpanOf(a[1..], b, p);
    } else {
      assert a + b == b;
    }
  }

  lemma StepString(s: string, rest: string, cl: Classes)
    requires |s| > 1 && Quote(s[0]) && s[|s| - 1] == s[0] && All(s[1..|s| - 1], c => c != s[0]) && !cl.space(s[0])
    ensures Step(s + rest, cl) == ([Literal(JString(Utf8Of(s[1..|s| - 1])))], |s|)
  {
    var body, tail := s[1..|s| - 1], [s[|s| - 1]] + rest;
    assert (s + rest)[1..] == body + tail;
    SpanOf(body, tail, c => c != s[0]);
    assert (s + rest)[1..1 + |body|] == body;
  }

  lemma StepNumber(s: string, rest: string, cl: Classes)
    requires Sane(cl) && Blank(rest, cl) && |s| > 0 && (Digit(s[0]) || s[0] == '-') && All(s[1..], NumberChar) && !cl.space(s[0])
    ensures Step(s + rest, cl) == (Number(s, cl), |s|)
  {
    var start := if s[0] == '-' then 1 else 0;
    assert (s + rest)[start..] == s[start..] + rest;
    assert All(s[start..], NumberChar) by {
      if start == 0 { assert forall i :: 0 < i < |s| ==> s[i] == s[1..][i - 1]; }
    }
    SpanOf(s[start..], rest, NumberChar);
    assert (s + rest)[..|s|] == s;
  }

  lemma StepWord(s: string, rest: string, cl: Classes)
    requires Sane(cl) && Blank(rest, cl) && WordLike(s, cl) && !cl.space(s[0])
    ensures Step(s + rest, cl) == ([WordToken(s, cl)], |s|)
  {
    SpanOf(s, rest, c => WordChar(c, cl));
    assert (s + rest)[..|s|] == s;
  }

  lemma {:induction false} LookupFinds(words: seq<Word>, name: string)
    ensures match Lookup(words, name)
            case Some(w) => w in words && Name(w) == name
            case None => forall w :: w in words ==> Name(w) != name
    decreases |words|
  {
    if |words| > 0 { LookupFinds(words[1..], name); }
  }

  lemma EveryWord(w: Word)
    ensures w in WORDS
  {
    match w
    case SELECT => assert WORDS[0] == w; case FROM => assert WORDS[1] == w; case WHERE => assert WORDS[2] == w;
    case ORDER => assert WORDS[3] == w; case BY => assert WORDS[4] == w; case LIMIT => assert WORDS[5] == w;
    case SKIP => assert WORDS[6] == w; case INSERT => assert WORDS[7] == w; case INTO => assert WORDS[8] == w;
    case VALUES => assert WORDS[9] == w; case UPDATE => assert WORDS[10] == w; case SET => assert WORDS[11] == w;
    case DELETE => assert WORDS[12] == w; case GROUP => assert WORDS[13] == w; case JOIN => assert WORDS[14] == w;
    case ON => assert WORDS[15] == w; case AND => assert WORDS[16] == w; case OR => assert WORDS[17] == w;
    case NOT => assert WORDS[18] == w; case IN => assert WORDS[19] == w; case IS => assert WORDS[20] == w;
    case NULL => assert WORDS[21] == w; case ASC => assert WORDS[22] == w; case DESC => assert WORDS[23] == w;
    case AS => assert WORDS[24] == w;
  }

  lemma NameOnce(w: Word, v: Word)
    requires Name(w) == Name(v)
    ensures w == v
  {
    assert |Name(w)| == |Name(v)| && Name(w)[0] == Name(v)[0] && Name(w)[1] == Name(v)[1];
    assert |Name(w)| > 2 ==> Name(w)[2] == Name(v)[2];
    assert |Name(w)| > 3 ==> Name(w)[3] == Name(v)[3];
  }

  /** A word is the keyword whose letters it has in upper case, or else an identifier. */
  lemma WordTokenExact(s: string, t: Token, cl: Classes)
    requires WordLike(s, cl) && !cl.space(s[0]) && (t.Keyword? || t.Identifier?)
    ensures WordToken(s, cl) == t <==> Spells(s, t, cl)
  {
    LookupFinds(WORDS, cl.upper(s));
    forall w ensures w in WORDS { EveryWord(w); }
    if t.Keyword? {
      var found := Lookup(WORDS, cl.upper(s));
      if found.Some? && cl.upper(s) == Name(t.word) { NameOnce(found.value, t.word); }
    } else {
      EncodingExact(s, t.name);
    }
  }

  /** The words that the parser of conditions knows, letter by letter. */
  lemma ConditionWords(s: string, cl: Classes)
    requires WordLike(s, cl) && !cl.space(s[0])
    ensures Spells(s, Keyword(AND), cl) <==> cl.upper(s) == "AND"
    ensures Spells(s, Keyword(OR), cl) <==> cl.upper(s) == "OR"
    ensures Spells(s, Keyword(IS), cl) <==> cl.upper(s) == "IS"
    ensures Spells(s, Keyword(NULL), cl) <==> cl.upper(s) == "NULL"
  {}

  lemma StepSign(s: string, t: Token, rest: string, cl: Classes)
    requires Sane(cl) && Spells(s, t, cl) && Blank(rest, cl) && (t.Star? || t.Punctuation? || t.Operator?)
    ensures Step(s + rest, cl) == ([t], |s|)
  {
    assert (s + rest)[0] == s[0];
    if t.Operator? { assert (s + rest)[1] == if t.op.eq then '=' else rest[0]; }
  }

  /** A spelled token before a blank is read as that token. */
  lemma StepSpelled(s: string, t: Token, rest: string, cl: Classes)
    requires Sane(cl) && Spells(s, t, cl) && Blank(rest, cl)
    ensures Step(s + rest, cl) == ([t], |s|)
  {
    match t
    case Literal(JString(text)) =>
      EncodingExact(s[1..|s| - 1], text);
      StepString(s, rest, cl);
    case Literal(_) => StepNumber(s, rest, cl);
    case Keyword(_) =>
      WordTokenExact(s, t, cl);
      StepWord(s, rest, cl);
    case Identifier(_) =>
      WordTokenExact(s, t, cl);
      StepWord(s, rest, cl);
    case _ => StepSign(s, t, rest, cl);
  }

  /** A string that its quote does not close before the end of the text. */
  predicate OpenString(s: string, t: Token) {
    |s| > 0 && Quote(s[0]) && All(s[1..], c => c != s[0])
    && t.Literal? && t.value.JString? && Means(t.value.s, s[1..])
  }

  /** And in any text at all, what one step takes spells the token that it pushes. */
  lemma StepSpells(s: string, cl: Classes)
    requires |s| > 0
    ensures var (tokens, n) := Step(s, cl);
      |tokens| <= 1 && (|tokens| == 1 ==> Spells(s[..n], tokens[0], cl) || (n == |s| && OpenString(s, tokens[0])))
  {
    var ch := s[0];
    var (tokens, n) := Step(s, cl);
    if cl.space(ch) || ch == '*' || Mark(ch) || Relation(ch) {
    } else if Quote(ch) {
      StringSpells(s, cl);
    } else if Digit(ch) || ch == '-' {
      NumberSpells(s, cl);
    } else if WordStart(ch, cl) {
      WordSpells(s, cl);
    }
  }

  lemma StringSpells(s: string, cl: Classes)
    requires |s| > 0 && Quote(s[0]) && !cl.space(s[0])
    ensures var k := Span(s[1..], c => c != s[0]);
      var t := Literal(JString(Utf8Of(s[1..1 + k])));
      if 1 + k < |s| then Spells(s[..k + 2], t, cl) else OpenString(s, t)
  {
    var k := Span(s[1..], c => c != s[0]);
    var body := s[1..1 + k];
    EncodingMeans(body);
    forall i | 0 <= i < k ensures body[i] != s[0] { assert body[i] == s[1..][i]; }
    if 1 + k < |s| {
      assert s[1..][k] == s[k + 1] == s[0];
      assert s[..k + 2][1..k + 1] == body;
    } else {
      assert body == s[1..];
    }
  }

  lemma NumberSpells(s: string, cl: Classes)
    requires |s| > 0 && (Digit(s[0]) || s[0] == '-') && !cl.space(s[0])
    ensures var start := if s[0] == '-' then 1 else 0;
      var n := start + Span(s[start..], NumberChar);
      |Number(s[..n], cl)| == 1 ==> Spells(s[..n], Number(s[..n], cl)[0], cl)
  {
    var start := if s[0] == '-' then 1 else 0;
    var n := start + Span(s[start..], NumberChar);
    forall i | 0 <= i < n - 1 ensures NumberChar(s[..n][1..][i]) {
      assert s[start..][i + 1 - start] == s[i + 1];
    }
  }

  lemma WordSpells(s: string, cl: Classes)
    requires |s| > 0 && !cl.space(s[0]) && s[0] != '*' && !Mark(s[0]) && !Relation(s[0]) && !Quote(s[0])
    requires !Digit(s[0]) && s[0] != '-' && WordStart(s[0], cl)
    ensures var word := s[..Span(s, c => WordChar(c, cl))]; |word| > 0 && Spells(word, WordToken(word, cl), cl)
  {
    var word := s[..Span(s, c => WordChar(c, cl))];
    WordTokenExact(word, WordToken(word, cl), cl);
  }

  type Spelling = seq<(string, Token)>

  predicate AllSpelled(spelling: Spelling, cl: Classes) {
    forall i :: 0 <= i < |spelling| ==> Spells(spelling[i].0, spelling[i].1, cl)
  }

  /** The spelled tokens, each followed by a blank. */
  function Written(spelling: Spelling, blank: char): string {
    if |spelling| == 0 then "" else spelling[0].0 + ([blank] + Written(spelling[1..], blank))
  }

  function TokensOf(spelling: Spelling): seq<Token> {
    seq(|spelling|, i requires 0 <= i < |spelling| => spelling[i].1)
  }

  lemma TokensFront(spelling: Spelling)
    requires |spelling| > 0
    ensures TokensOf(spelling) == [spelling[0].1] + TokensOf(spelling[1..])
  {}

  lemma SpelledFront(spelling: Spelling, cl: Classes)
    requires AllSpelled(spelling, cl) && |spelling| > 0
    ensures Spells(spelling[0].0, spelling[0].1, cl) && AllSpelled(spelling[1..], cl)
  {}

  /** Tokens that are written out with blanks between them are read back as they were. */
  lemma {:induction false} TokenizeWritten(spelling: Spelling, blank: char, cl: Classes)
    requires Sane(cl) && cl.space(blank) && AllSpelled(spelling, cl)
    ensures Tokenize(Written(spelling, blank), cl) == TokensOf(spelling)
  {
    if |spelling| > 0 {
      var s, t, more := spelling[0].0, spelling[0].1, spelling[1..];
      SpelledFront(spelling, cl);
      TokenizeFirst(s, t, blank, Written(more, blank), cl);
      TokenizeWritten(more, blank, cl);
      TokensFront(spelling);
    }
  }

  lemma TokenizeSpelled(s: string, t: Token, rest: string, all: string, cl: Classes)
    requires Sane(cl) && Spells(s, t, cl) && Blank(rest, cl) && all == s + rest
    ensures Tokenize(all, cl) == [t] + Tokenize(rest, cl)
  {
    StepSpelled(s, t, rest, cl);
    assert all[|s|..] == rest;
  }

  lemma TokenizeFirst(s: string, t: Token, blank: char, tail: string, cl: Classes)
    requires Sane(cl) && cl.space(blank) && Spells(s, t, cl)
    ensures Tokenize(s + ([blank] + tail), cl) == [t] + Tokenize(tail, cl)
  {
    var rest := [blank] + tail;
    TokenizeSpelled(s, t, rest, s + rest, cl);
  }

  // ---- Every integer can be written ----

  function ShowNat(n: nat): (s: string)
    ensures |s| > 0 && All(s, Digit)
  {
    var last := [('0' as int + n % 10) as char];
    if n < 10 then last else ShowNat(n / 10) + last
  }

  function Show(i: int): string { if i < 0 then ['-'] + ShowNat(0 - i) else ShowNat(i) }

  lemma {:induction false} DecimalAppend(a: string, c: char, acc: nat)
    requires All(a, Digit) && Digit(c)
    ensures Decimal(a, acc).Some?
    ensures Decimal(a + [c], acc) == Some(10 * Decimal(a, acc).value + (c as int - '0' as int))
    decreases |a|
  {
    if |a| == 0 {
      assert a + [c] == [c] && [c][1..] == [];
    } else {
      assert (a + [c])[1..] == a[1..] + [c];
      DecimalAppend(a[1..], c, 10 * acc + (a[0] as int - '0' as int));
    }
  }

  /** The number that decimal digits write. */
  function Worth(digits: string): nat
    requires All(digits, Digit)
  {
    if |digits| == 0 then 0
    else
      var last := |digits| - 1;
      10 * Worth(digits[..last]) + (digits[last] as int - '0' as int)
  }

  lemma {:induction false} DecimalWorth(digits: string)
    requires All(digits, Digit)
    ensures Decimal(digits, 0) == Some(Worth(digits))
  {
    if |digits| > 0 {
      var last := |digits| - 1;
      DecimalWorth(digits[..last]);
      DecimalAppend(digits[..last], digits[last], 0);
      assert digits[..last] + [digits[last]] == digits;
    }
  }

  /** Digits with or without a minus sign are the integer they write, if that has 64 bits, and
      else no literal; with a point they are the float that they parse to. */
  lemma NumberMeans(digits: string, negative: bool, cl: Classes)
    requires All(digits, Digit) && |digits| > 0
    ensures var s := if negative then ['-'] + digits else digits;
      var v := if negative then 0 - Worth(digits) else Worth(digits);
      Number(s, cl) == if -9223372036854775808 <= v <= 9223372036854775807 then [Literal(JInt(v))] else []
  {
    hide Decimal, Worth;
    DecimalWorth(digits);
    assert Digit(digits[0]);
    var s := if negative then ['-'] + digits else digits;
    IntegerOf(s, digits, negative, Worth(digits));
    assert '.' !in s by { assert forall i :: 0 <= i < |digits| ==> Digit(digits[i]); }
  }

  lemma IntegerOf(s: string, digits: string, negative: bool, n: nat)
    requires |digits| > 0 && Decimal(digits, 0) == Some(n) && digits[0] != '-'
    requires s == if negative then ['-'] + digits else digits
    ensures var v := if negative then 0 - n else n;
      Integer(s) == if -9223372036854775808 <= v <= 9223372036854775807 then Some(v) else None
  {
    hide Decimal;
    assert (if negative then s[1..] else s) == digits;
  }

  lemma FloatMeans(s: string, cl: Classes)
    requires '.' in s
    ensures match cl.float(s)
            case None => Number(s, cl) == []
            case Some(bits) => Number(s, cl) == [Literal(if Denotes(bits).Finite? then JFloat(bits) else JNull)]
  {}

  lemma {:induction false} DecimalShow(n: nat)
    ensures Decimal(ShowNat(n), 0) == Some(n)
  {
    if n < 10 {
      assert ShowNat(n)[1..] == [];
    } else {
      DecimalShow(n / 10);
      DecimalAppend(ShowNat(n / 10), ('0' as int + n % 10) as char, 0);
    }
  }

  /** The decimal form of an integer spells its literal. */
  lemma IntegerSpelled(i: i64, cl: Classes)
    requires Sane(cl)
    ensures Spells(Show(i), Literal(JInt(i)), cl)
  {
    var s := Show(i);
    DecimalShow(if i < 0 then 0 - i else i);
    if i < 0 { assert s[1..] == ShowNat(0 - i); }
    assert forall k :: 0 < k < |s| ==> Digit(s[k]);
    assert '.' !in s;
    assert Integer(s) == Some(i);
  }

  /** So does a string between quotes of a kind it does not contain; there is no escape. */
  lemma StringSpelled(w: string, text: Utf8, quote: char, cl: Classes)
    requires Sane(cl) && Quote(quote) && All(w, c => c != quote) && Means(text, w)
    ensures Spells([quote] + w + [quote], Literal(JString(text)), cl)
  {
    var s := [quote] + w + [quote];
    assert s[1..|s| - 1] == w;
  }
}
