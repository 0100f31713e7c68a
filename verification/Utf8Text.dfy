/** Text as UTF-8: an encoder of characters, and a decoder that undoes it. */
module Utf8Text {
  import opened Bytes
  import opened ObeValue
  import opened Json

  // ---- Encoding (Table 3-6 of the Unicode Standard) ----

  function Tail(code: nat): byte { 0x80 + code % 64 }

  function Utf8Char(c: char): (s: Text)
    ensures |s| > 0
  {
    var code := c as int;
    if code < 0x80 then [code]
    else if code < 0x800 then [0xC0 + code / 64, Tail(code)]
    else if code < 0x1_0000 then [0xE0 + code / 4096, Tail(code / 64), Tail(code)]
    else [0xF0 + code / 262144, Tail(code / 4096), Tail(code / 64), Tail(code)]
  }

  lemma CharWidth(c: char, rest: Text)
    ensures Utf8Width(Utf8Char(c) + rest) == |Utf8Char(c)|
  {
    var code := c as int;
    if 0x800 <= code < 0x1_0000 {
      assert code / 64 % 64 == code / 64 - 64 * (code / 4096);
    } else if code >= 0x1_0000 {
      assert code / 4096 % 64 == code / 4096 - 64 * (code / 262144);
    }
  }

  function Utf8Of(s: string): (t: Text)
    ensures ValidUtf8(t)
  {
    if |s| == 0 then []
    else
      var t := Utf8Char(s[0]) + Utf8Of(s[1..]);
      CharWidth(s[0], Utf8Of(s[1..]));
      assert t[|Utf8Char(s[0])|..] == Utf8Of(s[1..]);
      t
  }

  // ---- Decoding ----

  /** The scalar value that the first `n` bytes hold: the low bits of the first byte, then six
      bits of each other byte. */
  function Scalar(t: Text, n: nat): int
    requires 1 <= n <= 4 && n <= |t|
  {
    if n == 1 then t[0]
    else if n == 2 then Joined(Low(t[0], 0xC0), Low(t[1], 0x80))
    else if n == 3 then Joined(Joined(Low(t[0], 0xE0), Low(t[1], 0x80)), Low(t[2], 0x80))
    else Joined(Joined(Joined(Low(t[0], 0xF0), Low(t[1], 0x80)), Low(t[2], 0x80)), Low(t[3], 0x80))
  }

  function Low(b: int, mark: int): int { b - mark }

  function Joined(high: int, low: int): int { 64 * high + low }

  /** The scalar values of a text, up to where it stops being UTF-8. */
  function Scalars(t: Text): seq<int> {
    var n := Utf8Width(t);
    if n == 0 then [] else [Scalar(t, n)] + Scalars(t[n..])
  }

  function Codes(s: string): seq<int> { seq(|s|, i requires 0 <= i < |s| => s[i] as int) }

  /** `t` is UTF-8 for exactly the characters of `s`. */
  predicate Means(t: Text, s: string) { ValidUtf8(t) && Scalars(t) == Codes(s) }

  lemma CharScalar(c: char, rest: Text)
    ensures Utf8Width(Utf8Char(c) + rest) == |Utf8Char(c)| <= 4
    ensures Scalar(Utf8Char(c) + rest, |Utf8Char(c)|) == c as int
  {
    CharWidth(c, rest);
    var code := c as int;
    assert code / 4096 == code / 64 / 64 && code / 262144 == code / 4096 / 64;
  }

  /** Every string is decoded from its encoding. */
  lemma {:induction false} EncodingMeans(s: string)
    ensures Means(Utf8Of(s), s)
  {
    if |s| > 0 {
      var first, rest := Utf8Char(s[0]), Utf8Of(s[1..]);
      EncodingMeans(s[1..]);
      CharScalar(s[0], rest);
      assert (first + rest)[|first|..] == rest;
      assert Codes(s) == [s[0] as int] + Codes(s[1..]);
    } else {
      assert Codes(s) == [];
    }
  }

  lemma WidthOfScalar(t: Text)
    requires Utf8Width(t) > 0
    ensures var n := Utf8Width(t); var code := Scalar(t, n);
      (code < 0x80 <==> n == 1) && (0x80 <= code < 0x800 <==> n == 2)
      && (0x800 <= code < 0x1_0000 <==> n == 3) && (0x1_0000 <= code <==> n == 4)
  {}

  lemma JoinedOnce(high: int, low: int, high': int, low': int)
    requires 0 <= low < 64 && 0 <= low' < 64 && Joined(high, low) == Joined(high', low')
    ensures high == high' && low == low'
  {}

  /** A scalar value has one encoding. */
  lemma SameScalar(a: Text, b: Text)
    requires Utf8Width(a) > 0 && Utf8Width(b) > 0 && Scalar(a, Utf8Width(a)) == Scalar(b, Utf8Width(b))
    ensures var n := Utf8Width(a); n == Utf8Width(b) && a[..n] == b[..n]
  {
    WidthOfScalar(a);
    WidthOfScalar(b);
    var n := Utf8Width(a);
    if n == 2 {
      JoinedOnce(Low(a[0], 0xC0), Low(a[1], 0x80), Low(b[0], 0xC0), Low(b[1], 0x80));
    } else if n == 3 {
      JoinedOnce(Joined(Low(a[0], 0xE0), Low(a[1], 0x80)), Low(a[2], 0x80),
                 Joined(Low(b[0], 0xE0), Low(b[1], 0x80)), Low(b[2], 0x80));
      JoinedOnce(Low(a[0], 0xE0), Low(a[1], 0x80), Low(b[0], 0xE0), Low(b[1], 0x80));
    } else if n == 4 {
      JoinedOnce(Joined(Joined(Low(a[0], 0xF0), Low(a[1], 0x80)), Low(a[2], 0x80)), Low(a[3], 0x80),
                 Joined(Joined(Low(b[0], 0xF0), Low(b[1], 0x80)), Low(b[2], 0x80)), Low(b[3], 0x80));
      JoinedOnce(Joined(Low(a[0], 0xF0), Low(a[1], 0x80)), Low(a[2], 0x80),
                 Joined(Low(b[0], 0xF0), Low(b[1], 0x80)), Low(b[2], 0x80));
      JoinedOnce(Low(a[0], 0xF0), Low(a[1], 0x80), Low(b[0], 0xF0), Low(b[1], 0x80));
    }
  }

  /** A text is determined by its characters. */
  lemma {:induction false} MeansOnce(a: Text, b: Text)
    requires ValidUtf8(a) && ValidUtf8(b) && Scalars(a) == Scalars(b)
    ensures a == b
    decreases |a|
  {
    if |a| > 0 && |b| > 0 {
      var m, n := Utf8Width(a), Utf8Width(b);
      assert Scalars(a)[0] == Scalar(a, m) && Scalars(b)[0] == Scalar(b, n);
      assert Scalars(a)[1..] == Scalars(a[m..]) && Scalars(b)[1..] == Scalars(b[n..]);
      SameScalar(a, b);
      MeansOnce(a[m..], b[n..]);
      assert a == a[..m] + a[m..] && b == b[..n] + b[n..];
    }
  }

  /** So the encoding is the only text that means a string, and different strings have
      different encodings. */
  lemma EncodingExact(s: string, t: Text)
    ensures Means(t, s) <==> t == Utf8Of(s)
  {
    EncodingMeans(s);
    if Means(t, s) { MeansOnce(t, Utf8Of(s)); }
  }

  lemma EncodingInjective(s: string, t: string)
    requires Utf8Of(s) == Utf8Of(t)
    ensures s == t
  {
    EncodingMeans(s);
    EncodingMeans(t);
    assert |Codes(s)| == |s| && |Codes(t)| == |t|;
    forall i | 0 <= i < |s| ensures s[i] == t[i] { assert Codes(s)[i] == Codes(t)[i]; }
  }

  /** ASCII is encoded as it is. */
  lemma {:induction false} EncodingOfAscii(s: string)
    requires forall i :: 0 <= i < |s| ==> s[i] < 128 as char
    ensures Utf8Of(s) == Ascii(s)
  {
    if |s| > 0 {
      EncodingOfAscii(s[1..]);
      assert Ascii(s) == [s[0] as int] + Ascii(s[1..]);
    }
  }
}
