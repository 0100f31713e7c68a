/** Bytes, their lexicographic order (the order of Rust's `Vec<u8>` and `String`), and
    fixed-width integers in little- and big-endian form. */
module Bytes {
  type byte = n: int | 0 <= n < 256
  /** A byte string. UTF-8 text is a byte string too. */
  type Text = seq<byte>

  const TWO_16: int := 0x1_0000
  const TWO_31: int := 0x8000_0000
  const TWO_32: int := 0x1_0000_0000
  const TWO_48: int := 0x1_0000_0000_0000
  const TWO_63: int := 0x8000_0000_0000_0000
  const TWO_64: int := 0x1_0000_0000_0000_0000

  type u16 = n: int | 0 <= n < TWO_16
  type u32 = n: int | 0 <= n < TWO_32
  type u64 = n: int | 0 <= n < TWO_64
  type i32 = n: int | -TWO_31 <= n < TWO_31
  type i64 = n: int | -TWO_63 <= n < TWO_63

  datatype Option<+T> = None | Some(value: T)

  function Zeros(n: nat): (z: Text)
    ensures |z| == n && forall i :: 0 <= i < n ==> z[i] == 0
  {
    seq(n, _ => 0)
  }

  // ---- Lexicographic order ----

  predicate LexLess(a: Text, b: Text) {
    |b| > 0 && (|a| == 0 || a[0] < b[0] || (a[0] == b[0] && LexLess(a[1..], b[1..])))
  }

  lemma {:induction false} LexIrreflexive(a: Text)
    ensures !LexLess(a, a)
  {
    if |a| > 0 { LexIrreflexive(a[1..]); }
  }

  lemma {:induction false} LexTransitive(a: Text, b: Text, c: Text)
    requires LexLess(a, b) && LexLess(b, c)
    ensures LexLess(a, c)
  {
    if |a| > 0 && a[0] == b[0] && b[0] == c[0] { LexTransitive(a[1..], b[1..], c[1..]); }
  }

  lemma {:induction false} LexTotal(a: Text, b: Text)
    ensures LexLess(a, b) || a == b || LexLess(b, a)
  {
    if |a| > 0 && |b| > 0 && a[0] == b[0] {
      LexTotal(a[1..], b[1..]);
      assert a == [a[0]] + a[1..] && b == [b[0]] + b[1..];
    }
  }

  lemma LexAsymmetric(a: Text, b: Text)
    requires LexLess(a, b)
    ensures a != b && !LexLess(b, a)
  {}

  /** A shared prefix does not affect the order. */
  lemma {:induction false} LexPrefix(p: Text, a: Text, b: Text)
    ensures LexLess(p + a, p + b) == LexLess(a, b)
  {
    if |p| == 0 {
      assert p + a == a && p + b == b;
    } else {
      assert (p + a)[1..] == p[1..] + a && (p + b)[1..] == p[1..] + b;
      LexPrefix(p[1..], a, b);
    }
  }

  /** Fronts of equal length come off equal strings. */
  lemma SplitFront(a: Text, b: Text, s: Text, t: Text)
    requires |a| == |b| && a + s == b + t
    ensures a == b && s == t
  {
    assert a == (a + s)[..|a|] && b == (b + t)[..|a|];
    assert s == (a + s)[|a|..] && t == (b + t)[|a|..];
  }

  // ---- Fixed-width integers ----

  function Pow256(n: nat): (p: nat)
    ensures p > 0
  {
    if n == 0 then 1 else 256 * Pow256(n - 1)
  }

  function Pow2(n: nat): (p: nat)
    ensures p > 0
  {
    if n == 0 then 1 else 2 * Pow2(n - 1)
  }

  lemma Pow256Values()
    ensures Pow256(4) == TWO_32 && Pow256(8) == TWO_64
  {}

  /** `v` in `n` bytes, least significant first (`to_le_bytes`). */
  function Le(v: nat, n: nat): (s: Text)
    ensures |s| == n
    decreases n, v
  {
    if n == 0 then [] else [v % 256] + Le(v / 256, n - 1)
  }

  lemma DivTwice(v: nat, a: nat, b: nat)
    requires a > 0 && b > 0
    ensures a * b > 0 && v / a / b == v / (a * b)
  {
    var q, r := v / a / b, v / a % b;
    assert v == (q * b + r) * a + v % a;
    RestBelow(r, v % a, a, b);
    assert v == q * (a * b) + (r * a + v % a);
    Quotient(v, a * b, q, r * a + v % a);
  }

  lemma RestBelow(r: nat, s: nat, a: nat, b: nat)
    requires r < b && s < a
    ensures r * a + s < a * b
  {
    MulMonotone(r + 1, b, a);
  }

  lemma Quotient(v: nat, p: nat, q: nat, rest: nat)
    requires p > 0 && v == q * p + rest && rest < p
    ensures v / p == q
  {
    if v / p < q { MulMonotone(v / p + 1, q, p); }
    if q < v / p { MulMonotone(q + 1, v / p, p); }
  }

  /** Byte `i` of a fixed-width number is its digit worth `256^i`. */
  lemma {:induction false} LeDigits(v: nat, n: nat, i: nat)
    requires i < n
    ensures Le(v, n)[i] == v / Pow256(i) % 256
    decreases n
  {
    if i > 0 {
      assert Le(v, n)[i] == Le(v / 256, n - 1)[i - 1];
      LeDigits(v / 256, n - 1, i - 1);
      DivTwice(v, 256, Pow256(i - 1));
    }
  }

  function FromLe(s: Text): nat {
    if |s| == 0 then 0 else s[0] + 256 * FromLe(s[1..])
  }

  lemma {:induction false} FromLeLe(v: nat, n: nat)
    requires v < Pow256(n)
    ensures FromLe(Le(v, n)) == v
    decreases n
  {
    if n > 0 {
      FromLeLe(v / 256, n - 1);
      assert Le(v, n)[1..] == Le(v / 256, n - 1);
    }
  }

  lemma {:induction false} FromLeBound(s: Text)
    ensures FromLe(s) < Pow256(|s|)
  {
    if |s| > 0 { FromLeBound(s[1..]); }
  }

  lemma MulMonotone(a: nat, b: nat, p: nat)
    requires a <= b
    ensures a * p <= b * p
  {}

  lemma DivBound(v: nat, p: nat)
    requires p > 0 && v < 256 * p
    ensures 0 <= v / p < 256
    ensures v == v / p * p + v % p && 0 <= v % p < p
  {}

  /** `v` in `n` bytes, most significant first (`to_be_bytes`). */
  function Be(v: nat, n: nat): (s: Text)
    requires v < Pow256(n)
    ensures |s| == n
    decreases n, v
  {
    if n == 0 then []
    else
      var p := Pow256(n - 1);
      DivBound(v, p);
      [v / p] + Be(v % p, n - 1)
  }

  lemma QuotientOrder(a: nat, b: nat, p: nat, qa: nat, qb: nat, ra: nat, rb: nat)
    requires a == qa * p + ra && b == qb * p + rb && ra < p && rb < p
    ensures a < b <==> qa < qb || (qa == qb && ra < rb)
  {
    if qa < qb { MulMonotone(qa + 1, qb, p); } else if qb < qa { MulMonotone(qb + 1, qa, p); }
  }

  /** Big-endian order is numeric order. */
  lemma {:induction false} BeOrder(a: nat, b: nat, n: nat)
    requires a < Pow256(n) && b < Pow256(n)
    ensures LexLess(Be(a, n), Be(b, n)) <==> a < b
    decreases n
  {
    if n > 0 {
      var p := Pow256(n - 1);
      DivBound(a, p);
      DivBound(b, p);
      QuotientOrder(a, b, p, a / p, b / p, a % p, b % p);
      BeOrder(a % p, b % p, n - 1);
      assert Be(a, n)[1..] == Be(a % p, n - 1) && Be(b, n)[1..] == Be(b % p, n - 1);
    }
  }

  // ---- Two's complement ----

  /** The bit pattern of `v`, as a number below `2 * half` (`v as u32`, `v as u64`). */
  function Wrap(v: int, half: nat): (u: nat)
    requires 0 - half <= v < half
    ensures u < 2 * half
  {
    if v < 0 then v + 2 * half else v
  }

  /** The bit pattern `u` read as a signed number (`u as i32`, `u as i64`). */
  function Signed(u: nat, half: nat): (v: int)
    requires u < 2 * half
    ensures 0 - half <= v < half && Wrap(v, half) == u
  {
    if u < half then u else u - 2 * half
  }
}
