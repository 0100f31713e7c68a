/** Unsigned LEB128 (section 7.6 of the DWARF 5 standard), as `encode_varint` and
    `decode_varint` write and read it. */
module Varint {
  import opened Bytes

  datatype ObeError = EncodingError | VarintOverflow | UnknownTypeTag(b: byte) | InputValidation | DocumentTooLarge
  /** A decoded value and the number of bytes it took. */
  datatype Decoded<+T> = Ok(value: T, used: nat) | Err(error: ObeError)

  function VarintBytes(v: nat): (s: Text)
    ensures |s| > 0
  {
    if v < 128 then [v] else [v % 128 + 128] + VarintBytes(v / 128)
  }

  /** `v << s`, without a width. */
  function Shl(v: nat, s: nat): nat {
    if s == 0 then v else 2 * Shl(v, s - 1)
  }

  /** Reads on with `shift` bits already in `result`. The code's `result |= x << shift` is a
      sum here: `result` is below `1 << shift` and the shift drops what exceeds 64 bits. */
  function DecodeVarintFrom(buf: Text, shift: nat, result: nat): (r: Decoded<nat>)
    ensures r.Ok? ==> 0 < r.used <= |buf|
    decreases |buf|
  {
    if |buf| == 0 then Err(EncodingError)
    else if shift >= 64 then Err(VarintOverflow)
    else
      var next := result + Shl(buf[0] % 128, shift) % TWO_64;
      if buf[0] < 128 then Ok(next, 1)
      else
        match DecodeVarintFrom(buf[1..], shift + 7, next)
        case Ok(v, used) => Ok(v, used + 1)
        case Err(e) => Err(e)
  }

  function DecodeVarint(buf: Text): (r: Decoded<nat>)
    ensures r.Ok? ==> 0 < r.used <= |buf|
  {
    DecodeVarintFrom(buf, 0, 0)
  }

  // ---- Shifts ----

  lemma {:induction false} ShlAdd(a: nat, b: nat, s: nat)
    ensures Shl(a + b, s) == Shl(a, s) + Shl(b, s)
  {
    if s > 0 { ShlAdd(a, b, s - 1); }
  }

  lemma {:induction false} ShlCompose(v: nat, s: nat, t: nat)
    ensures Shl(Shl(v, s), t) == Shl(v, s + t)
  {
    if t > 0 { ShlCompose(v, s, t - 1); }
  }

  lemma {:induction false} ShlZero(s: nat)
    ensures Shl(0, s) == 0
  {
    if s > 0 { ShlZero(s - 1); }
  }

  lemma ShlMonotone(a: nat, b: nat, s: nat)
    requires a <= b
    ensures Shl(a, s) <= Shl(b, s)
  {}

  lemma {:induction false} ShlFurther(v: nat, s: nat, t: nat)
    requires s <= t
    ensures Shl(v, s) <= Shl(v, t)
    decreases t
  {
    if s < t { ShlFurther(v, s, t - 1); }
  }

  lemma ShlSeven(v: nat, s: nat)
    ensures Shl(v, s + 7) == Shl(128 * v, s)
  {
    assert Shl(v, 1) == 2 * v;
    assert Shl(v, 3) == 8 * v;
    assert Shl(v, 5) == 32 * v;
    ShlCompose(v, 7, s);
  }

  lemma Shl64(v: nat)
    ensures Shl(v, 64) == TWO_64 * v
  {
    Shl16(v);
    Shl16(TWO_16 * v);
    Shl16(TWO_32 * v);
    Shl16(TWO_48 * v);
    ShlCompose(v, 16, 16);
    ShlCompose(v, 32, 16);
    ShlCompose(v, 48, 16);
  }

  lemma Shl16(v: nat)
    ensures Shl(v, 16) == TWO_16 * v
  {
    ShlSeven(v, 9);
    ShlSeven(128 * v, 2);
    assert Shl(0x4000 * v, 1) == 2 * (0x4000 * v);
  }

  // ---- Decoding what was encoded ----

  lemma ShiftFits(q: nat, shift: nat)
    requires q > 0 && Shl(q, shift) < TWO_64
    ensures shift < 64
  {
    if shift >= 64 {
      Shl64(q);
      ShlFurther(q, 64, shift);
    }
  }

  /** One round of the loop: seven bits of `v` move into the result. */
  lemma MoveSeven(v: nat, shift: nat, result: nat, total: nat)
    requires total == result + Shl(v, shift) < TWO_64
    ensures total == (result + Shl(v % 128, shift) % TWO_64) + Shl(v / 128, shift + 7)
  {
    ShlAdd(128 * (v / 128), v % 128, shift);
    ShlSeven(v / 128, shift);
  }

  lemma {:induction false} DecodeVarintFromBytes(v: nat, shift: nat, result: nat, total: nat, buf: Text, suffix: Text)
    requires shift < 64 && total == result + Shl(v, shift) < TWO_64
    requires buf == VarintBytes(v) + suffix
    ensures DecodeVarintFrom(buf, shift, result) == Ok(total, |VarintBytes(v)|)
    decreases v
  {
    var next := result + Shl(v % 128, shift) % TWO_64;
    MoveSeven(v, shift, result, total);
    if v >= 128 {
      ShiftFits(v / 128, shift + 7);
      DecodeVarintFromBytes(v / 128, shift + 7, next, total, buf[1..], suffix);
    } else {
      ShlZero(shift + 7);
    }
  }

  /** Any bytes may follow: the decoder takes exactly what the encoder wrote. */
  lemma DecodeVarintBytes(v: nat, suffix: Text)
    requires v < TWO_64
    ensures DecodeVarint(VarintBytes(v) + suffix) == Ok(v, |VarintBytes(v)|)
  {
    DecodeVarintFromBytes(v, 0, 0, v, VarintBytes(v) + suffix, suffix);
  }

  // ---- What decoding yields ----

  /** The values the loop can hold after `shift` bits. */
  function Limit(shift: nat): nat {
    if shift < 64 then Shl(1, shift) else TWO_64
  }

  lemma NextBelow(x: nat, shift: nat, result: nat)
    requires x < 128 && shift < 64 && shift % 7 == 0 && result < Shl(1, shift)
    ensures result + Shl(x, shift) % TWO_64 < Limit(shift + 7) <= TWO_64
  {
    if shift + 7 < 64 {
      SevenMore(x, shift);
    } else {
      LastBit(x);
    }
  }

  lemma SevenMore(x: nat, shift: nat)
    requires x < 128 && shift + 7 < 64
    ensures Shl(x, shift) % TWO_64 + Shl(1, shift) <= Shl(1, shift + 7) <= TWO_64
  {
    ShlMonotone(x, 127, shift);
    ShlAdd(127, 1, shift);
    ShlSeven(1, shift);
    Shl64(1);
    ShlFurther(1, shift + 7, 64);
  }

  /** Of the tenth byte only the lowest bit is kept. */
  lemma LastBit(x: nat)
    ensures Shl(x, 63) % TWO_64 == Shl(x % 2, 63) <= Shl(1, 63) && 2 * Shl(1, 63) == TWO_64
  {
    ShlAdd(2 * (x / 2), x % 2, 63);
    ShlCompose(x / 2, 1, 63);
    Shl64(x / 2);
    Shl64(1);
    ShlMonotone(x % 2, 1, 63);
  }

  lemma {:induction false} DecodedBelow(buf: Text, shift: nat, result: nat)
    requires shift <= 70 && shift % 7 == 0 && result < Limit(shift)
    ensures var r := DecodeVarintFrom(buf, shift, result); r.Ok? ==> r.value < TWO_64
    decreases |buf|
  {
    if |buf| > 0 && shift < 64 {
      NextBelow(buf[0] % 128, shift, result);
      if buf[0] >= 128 {
        DecodedBelow(buf[1..], shift + 7, result + Shl(buf[0] % 128, shift) % TWO_64);
      }
    }
  }

  /** A varint of at most ten bytes fits in 64 bits, whatever its bytes are. */
  lemma DecodeVarintBelow(buf: Text)
    ensures DecodeVarint(buf).Ok? ==> DecodeVarint(buf).value < TWO_64
  {
    DecodedBelow(buf, 0, 0);
  }

  /** The growing `Vec<u8>` that the encoders push to. */
  class Buffer {
    var bytes: Text

    constructor ()
      ensures bytes == []
    {
      bytes := [];
    }

    method Extend(s: Text)
      modifies this
      ensures bytes == old(bytes) + s
    {
      bytes := bytes + s;
    }
  }

  /** `encode_varint`: pushes seven bits at a time, low bits first. */
  method EncodeVarint(v: nat, buf: Buffer) returns (written: nat)
    modifies buf
    ensures buf.bytes == old(buf.bytes) + VarintBytes(v)
    ensures written == |VarintBytes(v)|
  {
    var value, start := v, |buf.bytes|;
    while value >= 128
      invariant value >= 0
      invariant buf.bytes + VarintBytes(value) == old(buf.bytes) + VarintBytes(v)
      decreases value
    {
      assert VarintBytes(value) == [value % 128 + 128] + VarintBytes(value / 128);
      buf.Extend([value % 128 + 128]);
      value := value / 128;
    }
    buf.Extend([value]);
    written := |buf.bytes| - start;
  }

  /** `decode_varint`: the shift-and-or loop over the buffer. */
  method ReadVarint(buf: Text) returns (r: Decoded<nat>)
    ensures r == DecodeVarint(buf)
  {
    var result, shift, i := 0, 0, 0;
    while i < |buf|
      invariant 0 <= i <= |buf| && shift >= 0 && result >= 0
      invariant DecodeVarint(buf) ==
        match DecodeVarintFrom(buf[i..], shift, result)
        case Ok(v, used) => Ok(v, used + i)
        case Err(e) => Err(e)
    {
      if shift >= 64 { return Err(VarintOverflow); }
      assert buf[i..][1..] == buf[i + 1..];
      result := result + Shl(buf[i] % 128, shift) % TWO_64;
      if buf[i] < 128 { return Ok(result, i + 1); }
      shift := shift + 7;
      i := i + 1;
    }
    r := Err(EncodingError);
  }
}
