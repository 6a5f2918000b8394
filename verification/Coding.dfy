/** Fixed-width and variable-length integers in bytes (util/coding.cc), and the checksum mask (util/crc32c.h). */
module Coding {
  import opened DbFormat

  type Byte = b: int | 0 <= b < 256
  type Bytes = seq<Byte>

  const TWO32: nat := 0x1_0000_0000
  const TWO64: nat := 0x1_0000_0000_0000_0000
  type Word32 = w: nat | w < 0x1_0000_0000
  type Word64 = w: nat | w < 0x1_0000_0000_0000_0000

  function EncodeFixed32(w: Word32): (r: Bytes)
    ensures |r| == 4
  {
    [w % 256, w / 256 % 256, w / 65536 % 256, w / 16777216]
  }

  function DecodeFixed32(b: Bytes): Word32
    requires |b| >= 4
  {
    (b[0] as int) + 256 * (b[1] as int) + 65536 * (b[2] as int) + 16777216 * (b[3] as int)
  }

  lemma Fixed32RoundTrip(w: Word32, rest: Bytes)
    ensures DecodeFixed32(EncodeFixed32(w) + rest) == w
  {
    var r := EncodeFixed32(w);
    assert forall i :: 0 <= i < 4 ==> (r + rest)[i] == r[i];
    assert w / 256 / 256 == w / 65536 && w / 65536 / 256 == w / 16777216;
  }

  function EncodeFixed64(w: Word64): (r: Bytes)
    ensures |r| == 8
  {
    EncodeFixed32(w % TWO32) + EncodeFixed32(w / TWO32)
  }

  function DecodeFixed64(b: Bytes): Word64
    requires |b| >= 8
  {
    DecodeFixed32(b) + TWO32 * DecodeFixed32(b[4..])
  }

  lemma Fixed64RoundTrip(w: Word64, rest: Bytes)
    ensures DecodeFixed64(EncodeFixed64(w) + rest) == w
  {
    var low, high := EncodeFixed32(w % TWO32), EncodeFixed32(w / TWO32);
    assert low + high + rest == low + (high + rest);
    assert (low + (high + rest))[4..] == high + rest;
    Fixed32RoundTrip(w % TWO32, high + rest);
    Fixed32RoundTrip(w / TWO32, rest);
  }

  const MASK_DELTA: Word32 := 0xa282_ead8

  /** Rotate right by 15 bits and add a constant, modulo 2^32. */
  function Mask(crc: Word32): Word32 {
    (crc / 0x8000 + crc % 0x8000 * 0x2_0000 + MASK_DELTA) % TWO32
  }

  function Unmask(masked: Word32): Word32 {
    var rot := (masked - MASK_DELTA) % TWO32;
    rot / 0x2_0000 + rot % 0x2_0000 * 0x8000
  }

  lemma UnmaskInvertsMask(crc: Word32)
    ensures Unmask(Mask(crc)) == crc
  {
    var high, low := crc / 0x8000, crc % 0x8000;
    var rot := high + low * 0x2_0000;
    assert rot < TWO32;
    assert (Mask(crc) - MASK_DELTA) % TWO32 == rot;
    assert rot / 0x2_0000 == low && rot % 0x2_0000 == high;
  }

  lemma MaskInvertsUnmask(masked: Word32)
    ensures Mask(Unmask(masked)) == masked
  {
    var rot := (masked - MASK_DELTA) % TWO32;
    var high, low := rot % 0x2_0000, rot / 0x2_0000;
    assert Unmask(masked) == low + high * 0x8000;
    assert Unmask(masked) / 0x8000 == high && Unmask(masked) % 0x8000 == low;
    assert (rot + MASK_DELTA) % TWO32 == masked;
  }

  /** Base-128 digits, least significant first; every byte but the last has its high bit set. */
  function EncodeVarint(v: nat): (r: Bytes)
    ensures |r| >= 1
  {
    if v < 128 then [v] else [v % 128 + 128] + EncodeVarint(v / 128)
  }

  /** The number at the front of `b` and the bytes it takes, if it ends within `limit` bytes. */
  function DecodeVarint(b: Bytes, limit: nat): (r: Option<(nat, nat)>)
    ensures r.Some? ==> 1 <= r.value.1 <= |b|
  {
    if limit == 0 || b == [] then None
    else if b[0] < 128 then Some((b[0] as nat, 1))
    else match DecodeVarint(b[1..], limit - 1)
      case None => None
      case Some((v, n)) => Some((b[0] as nat - 128 + 128 * v, n + 1))
  }

  function Power128(n: nat): (r: nat)
    ensures r >= 1
  {
    if n == 0 then 1 else 128 * Power128(n - 1)
  }

  /** A number of at most `limit` digits comes back, whatever follows it. */
  lemma {:induction false} VarintRoundTrip(v: nat, limit: nat, rest: Bytes)
    requires limit > 0 && v < Power128(limit)
    ensures DecodeVarint(EncodeVarint(v) + rest, limit) == Some((v, |EncodeVarint(v)|))
  {
    var r := EncodeVarint(v);
    if v >= 128 {
      assert (r + rest)[1..] == EncodeVarint(v / 128) + rest;
      VarintRoundTrip(v / 128, limit - 1, rest);
    }
  }

  /** The five cases of EncodeVarint32. */
  method EncodeVarint32(v: Word32) returns (r: Bytes)
    ensures r == EncodeVarint(v)
  {
    var v1, v2, v3, v4 := v / 128, v / 0x4000, v / 0x20_0000, v / 0x1000_0000;
    assert v1 / 128 == v2 && v2 / 128 == v3 && v3 / 128 == v4;
    if v < 0x80 {
      r := [v];
    } else if v < 0x4000 {
      r := [v % 128 + 128, v1];
    } else if v < 0x20_0000 {
      r := [v % 128 + 128, v1 % 128 + 128, v2];
      assert EncodeVarint(v1) == [v1 % 128 + 128] + EncodeVarint(v2);
    } else if v < 0x1000_0000 {
      r := [v % 128 + 128, v1 % 128 + 128, v2 % 128 + 128, v3];
      assert EncodeVarint(v2) == [v2 % 128 + 128] + EncodeVarint(v3);
      assert EncodeVarint(v1) == [v1 % 128 + 128] + EncodeVarint(v2);
    } else {
      r := [v % 128 + 128, v1 % 128 + 128, v2 % 128 + 128, v3 % 128 + 128, v4];
      assert EncodeVarint(v3) == [v3 % 128 + 128] + EncodeVarint(v4);
      assert EncodeVarint(v2) == [v2 % 128 + 128] + EncodeVarint(v3);
      assert EncodeVarint(v1) == [v1 % 128 + 128] + EncodeVarint(v2);
    }
  }

  method EncodeVarint64(value: Word64) returns (r: Bytes)
    ensures r == EncodeVarint(value)
  {
    r := [];
    var v := value;
    while v >= 128
      invariant r + EncodeVarint(v) == EncodeVarint(value)
    {
      r := r + [v % 128 + 128];
      v := v / 128;
    }
    r := r + [v];
  }

  /** GetVarint32 and GetVarint64: at most five or ten bytes; digits past the word's width are lost. */
  method GetVarint(input: Bytes, limit: nat, modulus: nat) returns (r: Option<(nat, Bytes)>)
    requires modulus > 0
    ensures match DecodeVarint(input, limit)
      case None => r == None
      case Some((v, n)) => r == Some((v % modulus, input[n..]))
  {
    var result, p := 0, 0;
    var scale := 1;
    // The digits read so far, before truncation.
    ghost var low: nat := 0;
    while p < limit && p < |input|
      invariant p <= limit && p <= |input| && scale >= 1 && result == low % modulus
      invariant DecodeVarint(input, limit) == match DecodeVarint(input[p..], limit - p)
        case None => None
        case Some((v, n)) => Some((low + scale * v, p + n))
    {
      var byte := input[p] as nat;
      var digit := (if byte >= 128 then byte - 128 else byte) * scale;
      ModuloSum(low, digit, modulus);
      NextDigit(input, limit, p, low, scale, digit);
      result := (result + digit) % modulus;
      if byte < 128 {
        return Some((result, input[p + 1..]));
      }
      low := low + digit;
      scale := scale * 128;
      p := p + 1;
    }
    return None;
  }

  lemma ModuloSum(a: nat, b: nat, m: nat)
    requires m > 0
    ensures (a % m + b) % m == (a + b) % m
  {
    var q := (a % m + b) / m;
    RemainderIsUnique(a + b, a / m + q, (a % m + b) % m, m);
  }

  lemma RemainderIsUnique(x: int, q: int, r: nat, m: nat)
    requires r < m && x == m * q + r
    ensures x % m == r
  {
    var d := x / m - q;
    assert m * d == r - x % m;
    MultiplesStayApart(m, d);
  }

  lemma DivisionIsUnique(x: int, q: int, r: nat, m: nat)
    requires r < m && x == q * m + r
    ensures x % m == r && x / m == q
  {
    RemainderIsUnique(x, q, r, m);
    assert m * (x / m - q) == 0;
    MultiplesStayApart(m, x / m - q);
  }

  lemma MultiplesStayApart(m: int, d: int)
    requires m >= 0
    ensures d >= 1 ==> m * d >= m
    ensures d <= -1 ==> m * d <= -m
  {
    if d >= 1 {
      assert m * d == m + m * (d - 1);
    } else if d <= -1 {
      assert m * d == -m - m * (-d - 1);
    }
  }

  lemma NextDigit(input: Bytes, limit: nat, p: nat, low: nat, scale: nat, digit: nat)
    requires p < limit && p < |input|
    requires digit == (if input[p] >= 128 then input[p] as nat - 128 else input[p] as nat) * scale
    ensures match DecodeVarint(input[p..], limit - p)
      case None => input[p] >= 128 && DecodeVarint(input[p + 1..], limit - p - 1).None?
      case Some((v, n)) =>
        if input[p] < 128 then n == 1 && low + scale * v == low + digit else
        match DecodeVarint(input[p + 1..], limit - p - 1)
        case None => false
        case Some((w, m)) => n == m + 1 && low + scale * v == low + digit + scale * 128 * w
  {
    assert input[p..][1..] == input[p + 1..];
    if input[p] >= 128 {
      match DecodeVarint(input[p + 1..], limit - p - 1)
      case None =>
      case Some((w, m)) =>
        var d := input[p] as nat - 128;
        assert scale * (d + 128 * w) == d * scale + scale * 128 * w;
    }
  }
}
