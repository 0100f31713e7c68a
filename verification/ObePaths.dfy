/** What a dotted path finds in a document, one segment after the other. */
module ObePaths {
  import opened Bytes
  import opened ObeValue
  import TextMap

  /** Segments `rest` with a character in front. */
  function Extended(c: byte, rest: seq<Text>): seq<Text>
    requires |rest| > 0
  {
    if c == DOT then [[]] + rest else [[c] + rest[0]] + rest[1..]
  }

  lemma ExtendedJoined(c: byte, a: seq<Text>, b: seq<Text>)
    requires |a| > 0
    ensures Extended(c, a + b) == Extended(c, a) + b
  {
    assert (a + b)[0] == a[0] && (a + b)[1..] == a[1..] + b;
  }

  lemma {:induction false} SplitJoined(p: Text, q: Text)
    ensures Split(p + [DOT] + q) == Split(p) + Split(q)
  {
    var all := p + [DOT] + q;
    if |p| == 0 {
      assert all[1..] == q && all[0] == DOT;
      assert Extended(DOT, Split(q)) == [[]] + Split(q);
    } else {
      assert all[0] == p[0] && all[1..] == p[1..] + [DOT] + q;
      SplitJoined(p[1..], q);
      ExtendedJoined(p[0], Split(p[1..]), Split(q));
      assert Split(all) == Extended(p[0], Split(all[1..]));
    }
  }

  lemma {:induction false} WalkJoined(v: ObeValue, a: seq<Text>, b: seq<Text>)
    ensures Walk(v, a + b) == match Walk(v, a) { case None => None case Some(u) => Walk(u, b) }
    decreases |a|
  {
    if |a| == 0 {
      assert a + b == b;
    } else {
      assert (a + b)[0] == a[0] && (a + b)[1..] == a[1..] + b;
      match v
      case Document(entries) =>
        var next: Option<ObeValue> := TextMap.Get(entries, a[0]);
        if next.Some? { WalkJoined(next.value, a[1..], b); }
      case Array(elems) =>
        var i := ParseIndex(a[0]);
        if i.Some? && i.value < |elems| { WalkJoined(elems[i.value], a[1..], b); }
      case _ =>
    }
  }

  /** What the path `p.q` finds: what `q` finds in the document that `p` finds; the element that
      `q` counts, if `p` finds an array and `q` is one segment; nothing in any other value. */
  lemma PathThrough(fields: Fields, p: Text, q: Text)
    ensures var through := GetPath(fields, p + [DOT] + q);
      match GetPath(fields, p)
      case None => through == None
      case Some(Document(entries)) => through == GetPath(entries, q)
      case Some(Array(elems)) =>
        DOT !in q ==>
          through == (match ParseIndex(q)
                      case None => None
                      case Some(i) => if i < |elems| then Some(elems[i]) else None)
      case Some(_) => through == None
  {
    SplitJoined(p, q);
    var a, b := Split(p), Split(q);
    assert (a + b)[0] == a[0] && (a + b)[1..] == a[1..] + b;
    var first: Option<ObeValue> := TextMap.Get(fields, a[0]);
    if first.Some? { WalkJoined(first.value, a[1..], b); }
    if DOT !in q {
      SplitPlain(q);
      assert b[1..] == [];
    }
  }

  // ---- Array indices ----

  function Shown(n: nat): (s: Text)
    ensures |s| > 0
  {
    if n < 10 then [0x30 + n] else Shown(n / 10) + [0x30 + n % 10]
  }

  lemma {:induction false} DigitsAppend(a: Text, d: byte, acc: nat)
    requires 0x30 <= d <= 0x39
    ensures Digits(a + [d], acc) == match Digits(a, acc) { case None => None case Some(n) => Some(10 * n + (d - 0x30)) }
    decreases |a|
  {
    if |a| == 0 {
      assert a + [d] == [d] && [d][1..] == [];
    } else {
      assert (a + [d])[0] == a[0] && (a + [d])[1..] == a[1..] + [d];
      if 0x30 <= a[0] <= 0x39 { DigitsAppend(a[1..], d, 10 * acc + (a[0] - 0x30)); }
    }
  }

  lemma {:induction false} DigitsShown(n: nat)
    ensures Digits(Shown(n), 0) == Some(n) && Shown(n)[0] != PLUS
  {
    if n < 10 {
      assert Shown(n)[1..] == [];
    } else {
      DigitsShown(n / 10);
      DigitsAppend(Shown(n / 10), 0x30 + n % 10, 0);
    }
  }

  predicate AllDigits(s: Text) { forall i :: 0 <= i < |s| ==> 0x30 <= s[i] <= 0x39 }

  lemma {:induction false} DigitsAre(s: Text, acc: nat)
    ensures Digits(s, acc).Some? <==> AllDigits(s)
    decreases |s|
  {
    if |s| > 0 && 0x30 <= s[0] <= 0x39 {
      DigitsAre(s[1..], 10 * acc + (s[0] - 0x30));
      assert forall i :: 0 < i < |s| ==> s[i] == s[1..][i - 1];
    }
  }

  /** An index is read from its decimal form, with or without a plus sign; a segment counts
      nothing unless it is digits after at most one plus sign. */
  lemma IndexRead(n: nat, s: Text)
    ensures ParseIndex(Shown(n)) == Some(n) && ParseIndex([PLUS] + Shown(n)) == Some(n)
    ensures ParseIndex(s).Some? <==> (|s| > 0 && AllDigits(s)) || (|s| > 1 && s[0] == PLUS && AllDigits(s[1..]))
  {
    DigitsShown(n);
    assert ([PLUS] + Shown(n))[1..] == Shown(n);
    DigitsAre(s, 0);
    if |s| > 0 { DigitsAre(s[1..], 0); }
  }
}
