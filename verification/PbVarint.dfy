/** The two varint decoders of nanopb: what each makes of what the encoder wrote, and where they differ. */
module PbVarints {
  import opened DbFormat
  import opened Coding
  import opened Bits
  import opened PbFormat
  import opened PbParse

  /** The 64-bit decoder gives back every 64-bit number. */
  lemma Varint64RoundTrip(w: Word64, rest: Bytes)
    ensures Varint64(EncodeVarint(w) + rest) == Some((w, rest))
  {
    TenGroups();
    VarintRoundTrip(w, 10, rest);
    var e := EncodeVarint(w);
    assert (e + rest)[|e|..] == rest;
  }

  lemma TenGroups()
    ensures TWO64 < Power128(10) && Power128(5) == 0x8_0000_0000
  {
    assert Power128(2) == 0x4000 && Power128(4) == 0x1000_0000;
    assert Power128(6) == 0x400_0000_0000;
    assert Power128(8) == 0x100_0000_0000_0000;
  }

  /** Or-ing in the next group adds it. */
  lemma OrInAdds(low: Word32, d: nat, bitpos: nat)
    requires bitpos <= 32 && low < Power2(bitpos)
    ensures OrIn(low, d, bitpos) == Plus(low, d, bitpos) % TWO32
  {
    hide Or, Power2;
    WordSizes();
    OrShifted(low, d, bitpos, 32);
  }

  lemma SmallPowers()
    ensures Power2(7) == 0x80 && Power2(14) == 0x4000 && Power2(21) == 0x20_0000 && Power2(28) == 0x1000_0000
  {
    assert Power2(3) == 8 && Power2(5) == 32 && Power2(7) == 128;
    hide Power2;
    PowersAdd(7, 7);
    PowersAdd(14, 7);
    PowersAdd(14, 14);
  }

  /** The 32-bit decoder gives back every 32-bit number. */
  lemma Varint32RoundTrip(w: Word32, rest: Bytes)
    ensures Varint32(EncodeVarint(w) + rest) == Some((w, rest))
  {
    var e := EncodeVarint(w) + rest;
    if w >= 128 {
      assert e[1..] == EncodeVarint(w / 128) + rest;
      SmallPowers();
      FirstPlus(w % 128, w / 128);
      TailRoundTrip(w / 128, rest, 7, w % 128);
    } else {
      assert e[1..] == rest;
    }
  }

  lemma {:induction false} TailRoundTrip(w: nat, rest: Bytes, bitpos: nat, low: Word32)
    requires bitpos == 7 || bitpos == 14 || bitpos == 21 || bitpos == 28
    requires low < Power2(bitpos) && Plus(low, w, bitpos) < TWO32 && w > 0
    ensures Varint32Tail(EncodeVarint(w) + rest, bitpos, low) == Some((Plus(low, w, bitpos), rest))
    decreases 28 - bitpos
  {
    hide OrIn, Power2, Plus;
    SmallPowers();
    var e := EncodeVarint(w) + rest;
    OrInAdds(low, w % 128, bitpos);
    LastGroup(low, w, bitpos);
    if w >= 128 {
      assert e[1..] == EncodeVarint(w / 128) + rest;
      GroupsFit(low, w, bitpos);
      TailRoundTrip(w / 128, rest, bitpos + 7, Plus(low, w % 128, bitpos));
    } else {
      assert e[1..] == rest;
    }
  }

  /** Taking the lowest group off. */
  lemma GroupsFit(low: nat, w: nat, bitpos: nat)
    requires low < Power2(bitpos)
    ensures Plus(low, w, bitpos) == Plus(Plus(low, w % 128, bitpos), w / 128, bitpos + 7)
    ensures Plus(low, w % 128, bitpos) <= Plus(low, w, bitpos) && Plus(low, w % 128, bitpos) < Power2(bitpos + 7)
  {
    PlusSplits(low, w % 128, w / 128, bitpos);
    PlusFits(low, w % 128, bitpos);
    TimesAtMost(w % 128, w, Power2(bitpos));
  }

  /** Of the fifth group only four bits fit. */
  lemma LastGroup(low: nat, w: nat, bitpos: nat)
    requires low < Power2(bitpos) && bitpos <= 28
    ensures bitpos == 28 ==> (Plus(low, w, bitpos) < TWO32 <==> w < 16)
  {
    SmallPowers();
  }

  // ----- Where the decoders differ -----

  /** When both decoders accept, the 32-bit result is the low half of the other, and both read as far. */
  lemma VarintsAgree(input: Bytes)
    requires Varint64(input).Some? && Varint32(input).Some?
    ensures Varint32(input).value.0 == Varint64(input).value.0 % TWO32
    ensures Varint32(input).value.1 == Varint64(input).value.1
  {
    hide Plus, Varint32Tail;
    var (v, n) := DecodeVarint(input, 10).value;
    assert v % TWO64 % TWO32 == v % TWO32;
    if input[0] >= 128 {
      var low := Low7(input[0]);
      FirstGroup(low);
      TailAgrees(input[1..], 1, low);
      var (w, m) := DecodeVarint(input[1..], 9).value;
      assert input[1..][m..] == input[n..];
      FirstPlus(low, w);
    }
  }

  lemma FirstGroup(low: nat)
    requires low < 128
    ensures low < Power2(7)
  {
    SmallPowers();
  }

  lemma FirstPlus(low: nat, w: nat)
    ensures Plus(low, w, 7) == low + 128 * w
  {
    SmallPowers();
  }

  lemma {:induction false} TailAgrees(input: Bytes, p: nat, low: nat)
    requires 1 <= p <= 10 && low < Power2(7 * p)
    requires DecodeVarint(input, 10 - p).Some? && Varint32Tail(input, 7 * p, low % TWO32).Some?
    ensures var (v, n) := DecodeVarint(input, 10 - p).value;
      Varint32Tail(input, 7 * p, low % TWO32) == Some((Plus(low, v, 7 * p) % TWO32, input[n..]))
    decreases |input|
  {
    hide OrIn, Power2, Plus;
    var d := Low7(input[0]);
    var next := Plus(low, d, 7 * p);
    NextLow(low, d, p);
    if input[0] >= 128 {
      assert 7 * (p + 1) == 7 * p + 7;
      TailAgrees(input[1..], p + 1, next);
      var (w, m) := DecodeVarint(input[1..], 9 - p).value;
      assert input[1..][m..] == input[m + 1..];
      PlusSplits(low, d, w, 7 * p);
    }
  }

  /** One more group, as the 32-bit decoder adds it: or-ed in, or ignored past bit 35. */
  lemma NextLow(low: nat, d: nat, p: nat)
    requires 1 <= p <= 9 && low < Power2(7 * p) && d < 128
    ensures Plus(low, d, 7 * p) < Power2(7 * p + 7)
    ensures Plus(low, d, 7 * p) % TWO32 == if 7 * p >= 32 then low % TWO32 else OrIn(low % TWO32, d, 7 * p)
  {
    hide OrIn, Power2;
    WordSizes();
    PlusFits(low, d, 7 * p);
    if 7 * p >= 32 {
      PowersAdd(32, 7 * p - 32);
      var r := Power2(7 * p - 32);
      assert d * (TWO32 * r) == TWO32 * (d * r);
      RemainderIsUnique(Plus(low, d, 7 * p), low / TWO32 + d * r, low % TWO32, TWO32);
    } else {
      PowersAscend(7 * p, 32);
      OrInAdds(low, d, 7 * p);
    }
  }

  /** The groups past bit 35 of a number that the 32-bit decoder takes for a sign: all zeros or all ones, ended by bit 63. */
  predicate SignLike(u: nat, p: nat)
    requires 5 <= p <= 9
    decreases 9 - p
  {
    if p == 9 then u == 1 else u >= 128 && (u % 128 == 0 || u % 128 == 127) && SignLike(u / 128, p + 1)
  }

  predicate Accepts32(w: Word64) {
    w < TWO32 || (w % TWO32 >= 0x8000_0000 && SignLike(w / 0x8_0000_0000, 5))
  }

  /** Exactly which encoded 64-bit numbers the 32-bit decoder accepts. */
  lemma Varint32Accepts(w: Word64, rest: Bytes)
    ensures Varint32(EncodeVarint(w) + rest).Some? <==> Accepts32(w)
  {
    hide SignLike, Varint32Tail, Plus, Power2;
    var e := EncodeVarint(w) + rest;
    if w >= 128 {
      assert e[1..] == EncodeVarint(w / 128) + rest;
      FirstGroup(w % 128);
      FirstPlus(w % 128, w / 128);
      TailAccepts(w / 128, rest, 7, w % 128);
    }
  }

  lemma {:induction false} TailAccepts(w: nat, rest: Bytes, bitpos: nat, low: Word32)
    requires bitpos == 7 || bitpos == 14 || bitpos == 21 || bitpos == 28
    requires low < Power2(bitpos) && Plus(low, w, bitpos) < TWO64 && w > 0
    ensures Varint32Tail(EncodeVarint(w) + rest, bitpos, low).Some? <==> Accepts32(Plus(low, w, bitpos))
    decreases 28 - bitpos
  {
    hide OrIn, Power2, Plus, SignLike;
    SmallPowers();
    var e := EncodeVarint(w) + rest;
    OrInAdds(low, w % 128, bitpos);
    GroupsFit(low, w, bitpos);
    LastGroup(low, w, bitpos);
    var next := Plus(low, w % 128, bitpos);
    if w >= 128 {
      assert e[1..] == EncodeVarint(w / 128) + rest;
      if bitpos < 28 {
        TailAccepts(w / 128, rest, bitpos + 7, next);
      } else {
        AtBit35(next, w / 128);
        SignAccepts(w / 128, rest, 5, next % TWO32);
      }
    } else {
      NotSignLike();
      AtBit35(next, 0);
      NoMoreGroups(next, bitpos);
    }
  }

  lemma NoMoreGroups(next: nat, bitpos: nat)
    ensures Plus(next, 0, bitpos + 7) == next
  {
  }

  /** Cutting a number at bit 35. */
  lemma AtBit35(low: nat, u: nat)
    ensures low < Power2(35) ==> Plus(low, u, 35) / 0x8_0000_0000 == u && Plus(low, u, 35) % TWO32 == low % TWO32
    ensures Power2(35) == 0x8_0000_0000
  {
    SmallPowers();
    PowersAdd(28, 7);
    if low < 0x8_0000_0000 {
      assert (low + u * 0x8_0000_0000) / 0x8_0000_0000 == u;
      assert (low + u * 8 * TWO32) % TWO32 == low % TWO32;
    }
  }

  lemma NotSignLike()
    ensures !SignLike(0, 5)
  {
  }

  lemma {:induction false} SignAccepts(u: nat, rest: Bytes, p: nat, result: Word32)
    requires 5 <= p <= 9 && u > 0 && (p == 9 ==> u == 1) && (p == 8 ==> u < 256) && (p == 7 ==> u < 0x8000) 
    requires (p == 6 ==> u < 0x40_0000) && (p == 5 ==> u < 0x2000_0000)
    ensures Varint32Tail(EncodeVarint(u) + rest, 7 * p, result).Some? <==> result >= 0x8000_0000 && SignLike(u, p)
    decreases 9 - p
  {
    hide OrIn, Power2;
    var e := EncodeVarint(u) + rest;
    if u >= 128 {
      assert e[1..] == EncodeVarint(u / 128) + rest;
      SignAccepts(u / 128, rest, p + 1, result);
    }
  }

  /** The groups of a negative 32-bit number past bit 35. */
  lemma NegativeIsSignLike()
    ensures SignLike(0x1fff_ffff, 5)
  {
    assert SignLike(1, 9) && SignLike(0xff, 8) && SignLike(0x7fff, 7) && SignLike(0x3f_ffff, 6);
  }

  /** A negative 32-bit number, written in ten bytes as the encoder does, is accepted and keeps its low half. */
  lemma NegativeAccepted(n: int, rest: Bytes)
    requires -0x8000_0000 <= n < 0
    ensures Varint32(EncodeVarint(n % TWO64) + rest) == Some((n % TWO32, rest))
  {
    hide Varint32, Varint64, SignLike, EncodeVarint;
    var w: Word64 := n % TWO64;
    assert w == TWO64 + n && w % TWO32 == TWO32 + n;
    assert w / 0x8_0000_0000 == 0x1fff_ffff;
    NegativeIsSignLike();
    Varint32Accepts(w, rest);
    Varint64RoundTrip(w, rest);
    VarintsAgree(EncodeVarint(w) + rest);
  }

  /** Or-ing in nothing. */
  lemma NothingIn(w: Word32, bitpos: nat)
    ensures OrIn(w, 0, bitpos) == w
  {
    hide Or, Power2;
    WordSizes();
    OrZero(w, 32);
  }

  lemma {:induction false} OrZero(w: nat, n: nat)
    requires w < Power2(n)
    ensures 0 < Power2(n) && Or(w, 0, n) == w
  {
    if n > 0 {
      OrZero(w / 2, n - 1);
    }
  }

  function ZeroGroups(n: nat): Bytes {
    seq(n, _ => 0x80)
  }

  lemma ZeroGroupMoves(rest: Bytes, bitpos: nat, result: Word32)
    ensures Varint32Tail([0x80] + rest, bitpos, result) == Varint32Tail(rest, (bitpos + 7) % 256, result)
  {
    hide OrIn, Power2;
    NothingIn(result, bitpos);
    var input: Bytes := [0x80] + rest;
    assert input[0] == 0x80 && input[1..] == rest && Low7(0x80) == 0;
  }

  /** Groups of zeros only move the position, which counts in eight bits. */
  lemma {:induction false} ZeroGroupsMove(n: nat, rest: Bytes, bitpos: nat, result: Word32)
    requires bitpos < 256
    ensures Varint32Tail(ZeroGroups(n) + rest, bitpos, result) == Varint32Tail(rest, (bitpos + 7 * n) % 256, result)
    decreases n
  {
    hide Varint32Tail;
    if n == 0 {
      assert ZeroGroups(n) + rest == rest;
    } else {
      assert ZeroGroups(n) + rest == [0x80] + (ZeroGroups(n - 1) + rest);
      ZeroGroupMoves(ZeroGroups(n - 1) + rest, bitpos, result);
      ZeroGroupsMove(n - 1, rest, (bitpos + 7) % 256, result);
      ModuloSum(bitpos + 7, 7 * (n - 1), 256);
    }
  }

  lemma ThreeBits()
    ensures Power2(3) == 8
  {
  }

  lemma OneAtThree()
    ensures OrIn(0, 1, 3) == 8
  {
    hide Or, OrIn, Power2;
    ThreeBits();
    OrInAdds(0, 1, 3);
  }

  lemma LastGroupAtThree()
    ensures Varint32Tail([1], 3, 0) == Some((8, []))
  {
    hide OrIn, Power2;
    OneAtThree();
  }

  /** So after 37 of them the next group counts again: the 32-bit decoder reads 8 where the 64-bit one gives up. */
  lemma PositionWraps()
    ensures var input := ZeroGroups(37) + [1]; Varint32(input) == Some((8, [])) && Varint64(input) == None
  {
    hide Varint32Tail;
    var input := ZeroGroups(37) + [1];
    assert input[0] == 0x80 && input[1..] == ZeroGroups(36) + [1];
    ZeroGroupsMove(36, [1], 7, 0);
    LastGroupAtThree();
    NoEnd(37, [1], 10);
  }

  lemma {:induction false} NoEnd(n: nat, rest: Bytes, limit: nat)
    requires limit <= n
    ensures DecodeVarint(ZeroGroups(n) + rest, limit) == None
  {
    if limit > 0 {
      assert (ZeroGroups(n) + rest)[1..] == ZeroGroups(n - 1) + rest;
      NoEnd(n - 1, rest, limit - 1);
    }
  }
}
