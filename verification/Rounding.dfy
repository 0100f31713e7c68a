/** Integers as 64-bit floats hold them: rounded to 53 significant bits, ties to even
    (section 4.3.1 of IEEE 754-2019). */
module Rounding {
  import opened Bytes

  const TWO_52: int := 0x10_0000_0000_0000
  const TWO_53: int := 0x20_0000_0000_0000

  /** The multiple of `ulp` nearest to `q * ulp + rest`; of two, the even multiple. */
  function Nearest(q: nat, rest: nat, ulp: nat): nat {
    if 2 * rest < ulp || (2 * rest == ulp && q % 2 == 0) then q * ulp else (q + 1) * ulp
  }

  function RoundTo(u: nat, ulp: nat): nat
    requires ulp > 0
  {
    Nearest(u / ulp, u % ulp, ulp)
  }

  /** Rounding to 53 significant bits, when the last of them is worth `ulp` or more. */
  function RoundFrom(u: nat, ulp: nat): nat
    requires ulp > 0
    decreases if ulp <= u then u - ulp else 0
  {
    if u < TWO_53 * ulp then RoundTo(u, ulp) else RoundFrom(u, 2 * ulp)
  }

  lemma DivMod(u: nat, ulp: nat)
    requires ulp > 0
    ensures u == u / ulp * ulp + u % ulp && 0 <= u % ulp < ulp
  {}

  lemma RoundToBounds(u: nat, ulp: nat)
    requires ulp > 0
    ensures u / ulp * ulp <= RoundTo(u, ulp) <= (u / ulp + 1) * ulp
  {}

  lemma QuotientBounds(u: nat, ulp: nat, low: nat, high: nat)
    requires ulp > 0 && low * ulp <= u < high * ulp
    ensures low <= u / ulp < high
  {
    DivMod(u, ulp);
    if u / ulp < low { MulMonotone(u / ulp + 1, low, ulp); }
    if high <= u / ulp { MulMonotone(high, u / ulp, ulp); }
  }

  lemma NearestMonotone(q: nat, rest: nat, q': nat, rest': nat, ulp: nat)
    requires q < q' || (q == q' && rest <= rest')
    ensures Nearest(q, rest, ulp) <= Nearest(q', rest', ulp)
  {
    if q < q' { MulMonotone(q + 1, q', ulp); }
  }

  lemma RoundToMonotone(u: nat, v: nat, ulp: nat)
    requires ulp > 0 && u <= v
    ensures RoundTo(u, ulp) <= RoundTo(v, ulp)
  {
    DivMod(u, ulp);
    DivMod(v, ulp);
    QuotientOrder(v, u, ulp, v / ulp, u / ulp, v % ulp, u % ulp);
    NearestMonotone(u / ulp, u % ulp, v / ulp, v % ulp, ulp);
  }

  lemma {:induction false} RoundFromLow(v: nat, ulp: nat)
    requires ulp > 0 && TWO_52 * ulp <= v
    ensures RoundFrom(v, ulp) >= TWO_52 * ulp
    decreases if ulp <= v then v - ulp else 0
  {
    if v < TWO_53 * ulp {
      QuotientBounds(v, ulp, TWO_52, TWO_53);
      RoundToBounds(v, ulp);
      MulMonotone(TWO_52, v / ulp, ulp);
    } else {
      RoundFromLow(v, 2 * ulp);
    }
  }

  /** Rounding keeps order, if not strictly. */
  lemma {:induction false} RoundFromMonotone(u: nat, v: nat, ulp: nat)
    requires ulp > 0 && u <= v
    ensures RoundFrom(u, ulp) <= RoundFrom(v, ulp)
    decreases if ulp <= u then u - ulp else 0
  {
    if v < TWO_53 * ulp {
      RoundToMonotone(u, v, ulp);
    } else if u < TWO_53 * ulp {
      QuotientBounds(u, ulp, 0, TWO_53);
      RoundToBounds(u, ulp);
      MulMonotone(u / ulp + 1, TWO_53, ulp);
      RoundFromLow(v, 2 * ulp);
    } else {
      RoundFromMonotone(u, v, 2 * ulp);
    }
  }

  lemma RoundToNear(u: nat, ulp: nat)
    requires ulp > 0
    ensures 0 - ulp <= 2 * (RoundTo(u, ulp) - u) <= ulp && RoundTo(u, 1) == u
  {
    DivMod(u, ulp);
    assert (u / ulp + 1) * ulp == u / ulp * ulp + ulp;
  }

  /** Rounding moves a number by at most its `2^-53`th part, and not at all below `2^53`. */
  lemma {:induction false} RoundFromNear(u: nat, ulp: nat)
    requires ulp == 1 || (ulp > 0 && TWO_52 * ulp <= u)
    ensures 0 - u <= TWO_53 * (RoundFrom(u, ulp) - u) <= u
    ensures ulp == 1 && u <= TWO_53 ==> RoundFrom(u, ulp) == u
    decreases if ulp <= u then u - ulp else 0
  {
    if u < TWO_53 * ulp {
      RoundToNear(u, ulp);
    } else {
      RoundFromNear(u, 2 * ulp);
      if u == TWO_53 && ulp == 1 { assert RoundFrom(u, 2) == RoundTo(u, 2); }
    }
  }

  /** `i64 as f64`: rounding is the same on both sides of zero. */
  function RoundedInt(i: int): int { if i < 0 then 0 - RoundFrom(0 - i, 1) else RoundFrom(i, 1) }

  lemma RoundedExact(i: int)
    requires 0 - TWO_53 <= i <= TWO_53
    ensures RoundedInt(i) == i
  {
    RoundFromNear(if i < 0 then 0 - i else i, 1);
  }
}
