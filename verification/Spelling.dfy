/** How numbers and slices are spelt in bytes (util/coding.cc), said of the bytes and bits alone. */
module Spelling {
  import opened DbFormat
  import opened Coding
  import opened WriteBatches
  import opened Bits

  function Digits(b: Bytes): nat {
    if b == [] then 0 else b[0] as nat % 128 + 128 * Digits(b[1..])
  }

  /** Base-128 digits, least significant first, of which all but the last have their high bit set. */
  ghost predicate SpellsNumber(b: Bytes, limit: nat, v: nat) {
    && 1 <= |b| <= limit && b[|b| - 1] < 128 && v == Digits(b)
    && forall i :: 0 <= i < |b| - 1 ==> b[i] >= 128
  }

  /** A number is read exactly if the input starts with a spelling of it. */
  lemma {:induction false} NumberIsRead(b: Bytes, rest: Bytes, limit: nat, v: nat)
    ensures SpellsNumber(b, limit, v) <==> DecodeVarint(b + rest, limit) == Some((v, |b|))
    decreases |b|
  {
    var input := b + rest;
    if limit > 0 && |b| > 1 && b[0] >= 128 {
      assert input[1..] == b[1..] + rest;
      NumberIsRead(b[1..], rest, limit - 1, Digits(b[1..]));
      TailSpells(b, limit);
      match DecodeVarint(input[1..], limit - 1)
      case None =>
      case Some((w, n)) => NumberIsRead(b[1..], rest, limit - 1, w);
    }
  }

  lemma TailSpells(b: Bytes, limit: nat)
    requires limit > 0 && |b| > 1 && b[0] >= 128
    ensures SpellsNumber(b, limit, Digits(b)) <==> SpellsNumber(b[1..], limit - 1, Digits(b[1..]))
  {
    if SpellsNumber(b[1..], limit - 1, Digits(b[1..])) {
      forall i | 0 <= i < |b| - 1 ensures b[i] >= 128 {
        assert i > 0 ==> b[i] == b[1..][i - 1];
      }
    }
  }

  /** A 32-bit length, and as many bytes. */
  ghost predicate SpellsSlice(b: Bytes, s: Bytes) {
    exists n: nat, v: nat :: n <= |b| && SpellsNumber(b[..n], 5, v) && v % TWO32 == |s| && b[n..] == s
  }

  /** A slice is read exactly if the input starts with a spelling of it. */
  lemma SliceIsRead(b: Bytes, rest: Bytes, s: Bytes)
    ensures SpellsSlice(b, s) <==> GetSlice(b + rest) == Some((s, rest))
  {
    hide DecodeVarint, SpellsNumber;
    var input := b + rest;
    if SpellsSlice(b, s) {
      var n: nat, v: nat :| n <= |b| && SpellsNumber(b[..n], 5, v) && v % TWO32 == |s| && b[n..] == s;
      assert input == b[..n] + (s + rest);
      NumberIsRead(b[..n], s + rest, 5, v);
      assert input[n..] == s + rest && input[n..n + |s|] == s && input[n + |s|..] == rest;
    }
    if GetSlice(input) == Some((s, rest)) {
      var (v, n) := DecodeVarint(input, 5).value;
      assert input[n + |s|..] == rest && |b| == n + |s|;
      assert input == b[..n] + input[n..] && b[n..] == s;
      NumberIsRead(b[..n], input[n..], 5, v);
    }
  }

  lemma ReadSliceIsSpelt(input: Bytes) returns (b: Bytes)
    requires GetSlice(input).Some?
    ensures input == b + GetSlice(input).value.1 && SpellsSlice(b, GetSlice(input).value.0)
  {
    var (s, rest) := GetSlice(input).value;
    b := input[..|input| - |rest|];
    assert rest == input[|input| - |rest|..];
    SliceIsRead(b, rest, s);
  }

  function Joined(bs: seq<Bytes>): Bytes {
    if bs == [] then [] else bs[0] + Joined(bs[1..])
  }

  /** Fixed-width numbers have their lowest byte first. */
  lemma Fixed32Bits(b: Bytes, i: nat)
    requires |b| >= 4 && i < 32
    ensures Bit(DecodeFixed32(b), i) <==> Bit(b[i / 8] as nat, i % 8)
  {
    hide Bit, Power2;
    ByteSize();
    var three := b[3] as nat;
    var two := b[2] as nat + 256 * three;
    var one := b[1] as nat + 256 * two;
    BitOfSum(b[0] as nat, one, 8, i);
    if i >= 8 {
      BitOfSum(b[1] as nat, two, 8, i - 8);
      if i >= 16 {
        BitOfSum(b[2] as nat, three, 8, i - 16);
      }
    }
  }

  lemma Fixed64Bits(b: Bytes, i: nat)
    requires |b| >= 8 && i < 64
    ensures Bit(DecodeFixed64(b), i) <==> Bit(b[i / 8] as nat, i % 8)
  {
    hide Bit, Power2, DecodeFixed32;
    WordSizes();
    BitOfSum(DecodeFixed32(b), DecodeFixed32(b[4..]), 32, i);
    if i < 32 {
      Fixed32Bits(b, i);
    } else {
      Fixed32Bits(b[4..], i - 32);
    }
  }

  /** The mask is a rotation by 15 bits and an addition that wraps around. */
  lemma MaskRotates(crc: Word32, i: nat)
    requires i < 32
    ensures Bit((Mask(crc) - MASK_DELTA) % TWO32, i) <==> Bit(crc, (i + 15) % 32)
  {
    hide Bit, Power2;
    WordSizes();
    HalfWords();
    assert (Mask(crc) - MASK_DELTA) % TWO32 == crc / 0x8000 + crc % 0x8000 * 0x2_0000;
    RotatesRight(crc, 15, 32, i);
  }
}
