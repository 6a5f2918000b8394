/** CRC-32C (section 12.1 of RFC 3720): the interleaved, table-driven Extend of util/crc32c.cc
    computes the bit-by-bit definition. */
module Crc32c {

  type Octet = b: bv32 | b & 0xffff_ff00 == 0

  /** The Castagnoli polynomial, least significant bit first. */
  const POLYNOMIAL: bv32 := 0x82f6_3b78
  const XOR: bv32 := 0xffff_ffff

  /** Exclusive or; by name, so that proofs can rely on its laws alone. */
  function Xor(a: bv32, b: bv32): bv32 {
    a ^ b
  }

  lemma XorAssociates(a: bv32, b: bv32, c: bv32)
    ensures Xor(Xor(a, b), c) == Xor(a, Xor(b, c))
  {
  }

  lemma XorCommutes(a: bv32, b: bv32)
    ensures Xor(a, b) == Xor(b, a)
  {
  }

  lemma XorCancels(a: bv32, b: bv32)
    ensures Xor(Xor(a, b), b) == a
  {
  }

  lemma XorExchanges(a: bv32, b: bv32, c: bv32, d: bv32)
    ensures Xor(Xor(a, b), Xor(c, d)) == Xor(Xor(a, c), Xor(b, d))
  {
    hide Xor;
    XorAssociates(Xor(a, b), c, d);
    XorAssociates(a, b, c);
    XorCommutes(b, c);
    XorAssociates(a, c, b);
    XorAssociates(Xor(a, c), b, d);
  }

  /** What leaves with the low bit. */
  function Carry(w: bv32): bv32 {
    if w & 1 == 1 then POLYNOMIAL else 0
  }

  function Half(w: bv32): bv32 {
    w >> 1
  }

  /** Divide one more bit. */
  function BitStep(w: bv32): bv32 {
    Xor(Half(w), Carry(w))
  }

  /** Advance over eight zero bits. */
  function Zero1(w: bv32): bv32 {
    BitStep(BitStep(BitStep(BitStep(BitStep(BitStep(BitStep(BitStep(w))))))))
  }

  /** Advance over four zero bytes. */
  function Zero4(w: bv32): bv32 {
    Zero1(Zero1(Zero1(Zero1(w))))
  }

  /** Advance over sixteen zero bytes. */
  function Zero16(w: bv32): bv32 {
    Zero4(Zero4(Zero4(Zero4(w))))
  }

  /** The remainder after `data`, eight bit steps a byte. */
  function Fold(w: bv32, data: seq<Octet>): bv32
    decreases |data|
  {
    if data == [] then w else Fold(Zero1(Xor(w, data[0])), data[1..])
  }

  /** The checksum of `data` continuing from checksum `crc`. */
  function Crc(crc: bv32, data: seq<Octet>): bv32 {
    Xor(Fold(Xor(crc, XOR), data), XOR)
  }

  lemma CarryIsLinear(x: bv32, y: bv32)
    ensures Carry(Xor(x, y)) == Xor(Carry(x), Carry(y))
  {
  }

  lemma HalfIsLinear(x: bv32, y: bv32)
    ensures Half(Xor(x, y)) == Xor(Half(x), Half(y))
  {
  }

  lemma BitStepIsLinear(x: bv32, y: bv32)
    ensures BitStep(Xor(x, y)) == Xor(BitStep(x), BitStep(y))
  {
    hide Carry, Half, Xor;
    CarryIsLinear(x, y);
    HalfIsLinear(x, y);
    XorExchanges(Half(x), Half(y), Carry(x), Carry(y));
  }

  lemma Zero1IsLinear(x: bv32, y: bv32)
    ensures Zero1(Xor(x, y)) == Xor(Zero1(x), Zero1(y))
  {
    hide BitStep, Xor;
    var x1, y1 := BitStep(x), BitStep(y);
    var x2, y2 := BitStep(x1), BitStep(y1);
    var x3, y3 := BitStep(x2), BitStep(y2);
    var x4, y4 := BitStep(x3), BitStep(y3);
    var x5, y5 := BitStep(x4), BitStep(y4);
    var x6, y6 := BitStep(x5), BitStep(y5);
    var x7, y7 := BitStep(x6), BitStep(y6);
    BitStepIsLinear(x, y);
    BitStepIsLinear(x1, y1);
    BitStepIsLinear(x2, y2);
    BitStepIsLinear(x3, y3);
    BitStepIsLinear(x4, y4);
    BitStepIsLinear(x5, y5);
    BitStepIsLinear(x6, y6);
    BitStepIsLinear(x7, y7);
  }

  lemma Zero4IsLinear(x: bv32, y: bv32)
    ensures Zero4(Xor(x, y)) == Xor(Zero4(x), Zero4(y))
  {
    hide Zero1, Xor;
    var x1, y1 := Zero1(x), Zero1(y);
    var x2, y2 := Zero1(x1), Zero1(y1);
    var x3, y3 := Zero1(x2), Zero1(y2);
    Zero1IsLinear(x, y);
    Zero1IsLinear(x1, y1);
    Zero1IsLinear(x2, y2);
    Zero1IsLinear(x3, y3);
  }

  lemma Zero16IsLinear(x: bv32, y: bv32)
    ensures Zero16(Xor(x, y)) == Xor(Zero16(x), Zero16(y))
  {
    hide Zero4, Xor;
    var x1, y1 := Zero4(x), Zero4(y);
    var x2, y2 := Zero4(x1), Zero4(y1);
    var x3, y3 := Zero4(x2), Zero4(y2);
    Zero4IsLinear(x, y);
    Zero4IsLinear(x1, y1);
    Zero4IsLinear(x2, y2);
    Zero4IsLinear(x3, y3);
  }

  predicate Even(w: bv32) {
    w & 1 == 0
  }

  function LowByte(w: bv32): Octet {
    w & 0xff
  }

  function HighBytes(w: bv32): bv32 {
    w & 0xffff_ff00
  }

  function DropByte(w: bv32): bv32 {
    w >> 8
  }

  lemma BitStepShifts(w: bv32)
    requires Even(w)
    ensures BitStep(w) == Half(w)
  {
  }

  lemma HalvesStayEven(w: bv32)
    requires LowByte(w) == 0
    ensures Even(w) && Even(Half(w)) && Even(Half(Half(w))) && Even(Half(Half(Half(w))))
    ensures var v := Half(Half(Half(Half(w)))); Even(v) && Even(Half(v)) && Even(Half(Half(v))) && Even(Half(Half(Half(v))))
    ensures Half(Half(Half(Half(Half(Half(Half(Half(w)))))))) == DropByte(w)
  {
  }

  /** While no low bit is set the division only shifts. */
  lemma Zero1Shifts(w: bv32)
    requires LowByte(w) == 0
    ensures Zero1(w) == DropByte(w)
  {
    hide BitStep, Even, Half, LowByte, DropByte;
    HalvesStayEven(w);
    var w1 := Half(w);
    var w2 := Half(w1);
    var w3 := Half(w2);
    var w4 := Half(w3);
    var w5 := Half(w4);
    var w6 := Half(w5);
    BitStepShifts(w);
    BitStepShifts(w1);
    BitStepShifts(w2);
    BitStepShifts(w3);
    BitStepShifts(w4);
    BitStepShifts(w5);
    BitStepShifts(w6);
    BitStepShifts(Half(w6));
  }

  lemma SplitLowByte(w: bv32)
    ensures Xor(LowByte(w), HighBytes(w)) == w
    ensures DropByte(HighBytes(w)) == DropByte(w) && LowByte(HighBytes(w)) == 0
  {
  }

  /** A byte advances as its low byte's table entry and a shift. */
  lemma Zero1ByTable(w: bv32)
    ensures Zero1(w) == Xor(Zero1(LowByte(w)), DropByte(w))
  {
    hide Zero1, Xor, LowByte, HighBytes, DropByte;
    SplitLowByte(w);
    Zero1IsLinear(LowByte(w), HighBytes(w));
    Zero1Shifts(HighBytes(w));
  }

  lemma {:induction false} FoldAppend(w: bv32, a: seq<Octet>, b: seq<Octet>)
    ensures Fold(w, a + b) == Fold(Fold(w, a), b)
    decreases |a|
  {
    hide Zero1, Xor;
    if a == [] {
      assert a + b == b;
    } else {
      assert (a + b)[1..] == a[1..] + b;
      FoldAppend(Zero1(Xor(w, a[0])), a[1..], b);
    }
  }

  /** Checksums of consecutive pieces chain. */
  lemma ExtendChains(crc: bv32, a: seq<Octet>, b: seq<Octet>)
    ensures Crc(Crc(crc, a), b) == Crc(crc, a + b)
  {
    hide Xor, Fold;
    FoldAppend(Xor(crc, XOR), a, b);
    XorCancels(Fold(Xor(crc, XOR), a), XOR);
  }

  function Up1(b: bv32): bv32 {
    b << 8
  }

  function Up2(b: bv32): bv32 {
    b << 16
  }

  function Up3(b: bv32): bv32 {
    b << 24
  }

  lemma OctetShifts(b: Octet)
    ensures LowByte(Up1(b)) == 0 && LowByte(Up2(b)) == 0 && LowByte(Up3(b)) == 0
    ensures DropByte(Up1(b)) == b && DropByte(Up2(b)) == Up1(b) && DropByte(Up3(b)) == Up2(b)
  {
  }

  /** One byte advanced past its own shift is that byte. */
  lemma LaterByte(w: bv32, b: Octet)
    ensures Xor(Zero1(w), b) == Zero1(Xor(w, Up1(b)))
  {
    hide Zero1, Xor, LowByte, DropByte, Up1, Up2, Up3;
    OctetShifts(b);
    Zero1IsLinear(w, Up1(b));
    Zero1Shifts(Up1(b));
  }

  lemma LaterByte2(w: bv32, b: Octet)
    ensures Xor(Zero1(Zero1(w)), b) == Zero1(Zero1(Xor(w, Up2(b))))
  {
    hide Zero1, Xor, LowByte, DropByte, Up1, Up2, Up3;
    OctetShifts(b);
    LaterByte(Zero1(w), b);
    Zero1IsLinear(w, Up2(b));
    Zero1Shifts(Up2(b));
  }

  lemma LaterByte3(w: bv32, b: Octet)
    ensures Xor(Zero1(Zero1(Zero1(w))), b) == Zero1(Zero1(Zero1(Xor(w, Up3(b)))))
  {
    hide Zero1, Xor, LowByte, DropByte, Up1, Up2, Up3;
    OctetShifts(b);
    LaterByte2(Zero1(w), b);
    Zero1IsLinear(w, Up3(b));
    Zero1Shifts(Up3(b));
  }

  function Or(a: bv32, b: bv32): bv32 {
    a | b
  }

  /** ReadUint32LE. */
  function Word(b0: Octet, b1: Octet, b2: Octet, b3: Octet): bv32 {
    Or(Or(Or(b0, Up1(b1)), Up2(b2)), Up3(b3))
  }

  lemma DisjointBits(a: bv32, b: bv32)
    requires a & b == 0
    ensures a | b == a ^ b
  {
    hide *;
  }

  lemma OrIsXor(a: bv32, b: bv32)
    requires a & b == 0
    ensures Or(a, b) == Xor(a, b)
  {
    DisjointBits(a, b);
  }

  lemma BytesAreApart(b0: Octet, b1: Octet, b2: Octet, b3: Octet)
    ensures b0 & Up1(b1) == 0
    ensures Or(b0, Up1(b1)) & Up2(b2) == 0
    ensures Or(Or(b0, Up1(b1)), Up2(b2)) & Up3(b3) == 0
  {
  }

  lemma WordIsXor(b0: Octet, b1: Octet, b2: Octet, b3: Octet)
    ensures Word(b0, b1, b2, b3) == Xor(Xor(Xor(b0, Up1(b1)), Up2(b2)), Up3(b3))
  {
    hide Xor, Or, Up1, Up2, Up3;
    BytesAreApart(b0, b1, b2, b3);
    OrIsXor(b0, Up1(b1));
    OrIsXor(Or(b0, Up1(b1)), Up2(b2));
    OrIsXor(Or(Or(b0, Up1(b1)), Up2(b2)), Up3(b3));
  }

  lemma WordByXor(w: bv32, b0: Octet, b1: Octet, b2: Octet, b3: Octet)
    ensures Xor(w, Word(b0, b1, b2, b3)) == Xor(Xor(Xor(Xor(w, b0), Up1(b1)), Up2(b2)), Up3(b3))
  {
    hide Xor, Word, Up1, Up2, Up3;
    WordIsXor(b0, b1, b2, b3);
    XorAssociates(w, b0, Up1(b1));
    XorAssociates(w, Xor(b0, Up1(b1)), Up2(b2));
    XorAssociates(w, Xor(Xor(b0, Up1(b1)), Up2(b2)), Up3(b3));
  }

  /** Four bytes fold as one little-endian word. */
  lemma FoldWord(w: bv32, b0: Octet, b1: Octet, b2: Octet, b3: Octet)
    ensures Fold(w, [b0, b1, b2, b3]) == Zero4(Xor(w, Word(b0, b1, b2, b3)))
  {
    hide Zero1, Xor, Word, Up1, Up2, Up3;
    var s1 := Zero1(Xor(w, b0));
    var s2 := Zero1(Xor(s1, b1));
    var s3 := Zero1(Xor(s2, b2));
    var s4 := Zero1(Xor(s3, b3));
    assert Fold(w, [b0, b1, b2, b3]) == s4 by {
      assert [b0, b1, b2, b3][1..] == [b1, b2, b3] && [b1, b2, b3][1..] == [b2, b3] && [b2, b3][1..] == [b3];
      assert Fold(s2, [b2, b3]) == Fold(s3, [b3]) == Fold(s4, []);
    }
    var w1 := Xor(Xor(w, b0), Up1(b1));
    var w2 := Xor(w1, Up2(b2));
    LaterByte(Xor(w, b0), b1);
    LaterByte2(w1, b2);
    LaterByte3(w2, b3);
    WordByXor(w, b0, b1, b2, b3);
  }

  /** The tables of crc32c.cc. */
  datatype Tables = Tables(step: bv32 -> bv32, stride0: bv32 -> bv32, stride1: bv32 -> bv32, stride2: bv32 -> bv32, stride3: bv32 -> bv32)

  /** What their entries are: each byte, in its place in the word, advanced by one or by sixteen zero bytes. */
  ghost predicate Correct(t: Tables) {
    && (forall b: Octet {:trigger t.step(b)} :: t.step(b) == Zero1(b))
    && (forall b: Octet {:trigger t.stride3(b)} :: t.stride3(b) == Zero16(b))
    && (forall b: Octet {:trigger t.stride2(b)} :: t.stride2(b) == Zero16(Up1(b)))
    && (forall b: Octet {:trigger t.stride1(b)} :: t.stride1(b) == Zero16(Up2(b)))
    && (forall b: Octet {:trigger t.stride0(b)} :: t.stride0(b) == Zero16(Up3(b)))
  }

  /** The entries of kByteExtensionTable at the powers of two; being linear, they fix the other 248. */
  lemma ByteTableEntries()
    ensures Zero1(1) == 0xf26b_8303 && Zero1(2) == 0xe13b_70f7 && Zero1(4) == 0xc79a_971f && Zero1(8) == 0x8ad9_58cf
    ensures Zero1(16) == 0x105e_c76f && Zero1(32) == 0x20bd_8ede && Zero1(64) == 0x417b_1dbc && Zero1(128) == 0x82f6_3b78
  {
  }

  /** What the four partial results stand for: words already read, each a word behind the next. */
  function Combined(c0: bv32, c1: bv32, c2: bv32, c3: bv32): bv32 {
    Zero4(Xor(c3, Zero4(Xor(c2, Zero4(Xor(c1, Zero4(c0)))))))
  }

  /** Feeding a word into the oldest partial result, advanced sixteen bytes, makes it the newest. */
  lemma StrideFeedsWord(w: bv32, c0: bv32, c1: bv32, c2: bv32, c3: bv32)
    ensures Combined(c1, c2, c3, Xor(w, Zero16(c0))) == Zero4(Xor(w, Combined(c0, c1, c2, c3)))
  {
    hide Zero4, Xor;
    var a1 := Zero4(c0);
    var a2 := Zero4(a1);
    var a3 := Zero4(a2);
    var p1 := Zero4(c1);
    var p2 := Zero4(Xor(c2, p1));
    var p3 := Zero4(Xor(c3, p2));
    Zero4IsLinear(c1, a1);
    XorAssociates(c2, p1, a2);
    Zero4IsLinear(Xor(c2, p1), a2);
    XorAssociates(c3, p2, a3);
    Zero4IsLinear(Xor(c3, p2), a3);
    XorCommutes(p3, Zero4(a3));
    XorAssociates(w, Zero4(a3), p3);
  }

  function Byte1(c: bv32): Octet {
    (c >> 8) & 0xff
  }

  function Byte2(c: bv32): Octet {
    (c >> 16) & 0xff
  }

  function Byte3(c: bv32): Octet {
    c >> 24
  }

  lemma SplitBytes(c: bv32)
    ensures Xor(Xor(Xor(LowByte(c), Up1(Byte1(c))), Up2(Byte2(c))), Up3(Byte3(c))) == c
  {
  }

  /** The four lookups of STEP4 on one partial result. */
  function Stride(t: Tables, c: bv32): bv32 {
    Xor(Xor(Xor(t.stride3(LowByte(c)), t.stride2(Byte1(c))), t.stride1(Byte2(c))), t.stride0(Byte3(c)))
  }

  /** They advance it sixteen zero bytes. */
  lemma StrideAdvances(t: Tables, c: bv32)
    requires Correct(t)
    ensures Stride(t, c) == Zero16(c)
  {
    hide Zero16, Xor, LowByte, Byte1, Byte2, Byte3, Up1, Up2, Up3;
    SplitBytes(c);
    var b3: Octet, b2: Octet, b1: Octet, b0: Octet := LowByte(c), Byte1(c), Byte2(c), Byte3(c);
    Zero16IsLinear(b3, Up1(b2));
    Zero16IsLinear(Xor(b3, Up1(b2)), Up2(b1));
    Zero16IsLinear(Xor(Xor(b3, Up1(b2)), Up2(b1)), Up3(b0));
  }

  function WordAt(data: seq<Octet>, p: nat): bv32
    requires p + 4 <= |data|
  {
    Word(data[p], data[p + 1], data[p + 2], data[p + 3])
  }

  lemma FoldNextByte(w: bv32, data: seq<Octet>, p: nat)
    requires p < |data|
    ensures Fold(w, data[..p + 1]) == Zero1(Xor(Fold(w, data[..p]), data[p]))
  {
    hide Zero1, Xor;
    FoldAppend(w, data[..p], [data[p]]);
    assert data[..p + 1] == data[..p] + [data[p]];
    assert [data[p]][1..] == [];
  }

  lemma FoldNextWord(w: bv32, data: seq<Octet>, p: nat)
    requires p + 4 <= |data|
    ensures Fold(w, data[..p + 4]) == Zero4(Xor(Fold(w, data[..p]), WordAt(data, p)))
  {
    hide Zero4, Xor, Word, Fold;
    var word := [data[p], data[p + 1], data[p + 2], data[p + 3]];
    FoldAppend(w, data[..p], word);
    assert data[..p + 4] == data[..p] + word;
    FoldWord(Fold(w, data[..p]), data[p], data[p + 1], data[p + 2], data[p + 3]);
  }

  lemma XorZero(a: bv32)
    ensures Xor(a, 0) == a
  {
  }

  lemma LowByteOfXor(w: bv32, b: Octet)
    ensures Xor(LowByte(w), b) == LowByte(Xor(w, b)) && DropByte(Xor(w, b)) == DropByte(w)
  {
  }

  /** STEP1. */
  method StepByte(t: Tables, l: bv32, byte: Octet) returns (r: bv32)
    requires Correct(t)
    ensures r == Zero1(Xor(l, byte))
  {
    hide Zero1, Xor, LowByte, DropByte;
    LowByteOfXor(l, byte);
    var c: Octet := LowByte(Xor(l, byte));
    assert c == Xor(LowByte(l), byte);
    Zero1ByTable(Xor(l, byte));
    r := Xor(t.step(Xor(LowByte(l), byte)), DropByte(l));
  }

  /** STEP4W. */
  method StepWord(t: Tables, word: bv32, l: bv32) returns (r: bv32)
    requires Correct(t)
    ensures r == Zero4(Xor(word, l))
  {
    hide Zero1, Xor, LowByte, DropByte;
    r := Xor(word, l);
    ghost var w0 := r;
    for i := 0 to 4
      invariant i == 0 ==> r == w0
      invariant i == 1 ==> r == Zero1(w0)
      invariant i == 2 ==> r == Zero1(Zero1(w0))
      invariant i == 3 ==> r == Zero1(Zero1(Zero1(w0)))
      invariant i == 4 ==> r == Zero4(w0)
    {
      Zero1ByTable(r);
      var low: Octet := LowByte(r);
      assert t.step(low) == Zero1(low);
      XorCommutes(DropByte(r), t.step(low));
      r := Xor(DropByte(r), t.step(LowByte(r)));
    }
  }

  /** STEP4 on the partial result whose turn it is. */
  method FeedWord(t: Tables, data: seq<Octet>, p: nat, c: bv32, ghost c1: bv32, ghost c2: bv32, ghost c3: bv32, ghost w: bv32)
    returns (r: bv32)
    requires Correct(t) && p + 4 <= |data|
    requires Combined(c, c1, c2, c3) == Fold(w, data[..p])
    ensures Combined(c1, c2, c3, r) == Fold(w, data[..p + 4])
  {
    hide Combined, Zero16, Zero4, Xor, Word, Stride, Fold;
    StrideAdvances(t, c);
    StrideFeedsWord(WordAt(data, p), c, c1, c2, c3);
    FoldNextWord(w, data, p);
    XorCommutes(WordAt(data, p), Fold(w, data[..p]));
    r := Xor(WordAt(data, p), Stride(t, c));
  }

  method Combine(t: Tables, c0: bv32, c1: bv32, c2: bv32, c3: bv32) returns (l: bv32)
    requires Correct(t)
    ensures l == Combined(c0, c1, c2, c3)
  {
    hide Zero4, Xor;
    l := StepWord(t, c0, 0);
    XorZero(c0);
    l := StepWord(t, c1, l);
    l := StepWord(t, c2, l);
    l := StepWord(t, c3, l);
  }

  /** The interleaved part: four partial results from position `p` on, as far as whole words go. */
  method ExtendStrides(t: Tables, data: seq<Octet>, p: nat, l: bv32, ghost w: bv32) returns (r: bv32, q: nat)
    requires Correct(t) && p + 16 <= |data| && l == Fold(w, data[..p])
    ensures p < q <= |data| && r == Fold(w, data[..q])
  {
    hide Combined, Zero1, Xor, Word, Fold, WordAt;
    var n := |data|;
    var c0, c1, c2, c3 := Xor(WordAt(data, p), l), WordAt(data, p + 4), WordAt(data, p + 8), WordAt(data, p + 12);
    LoadSwath(w, data, p, l);
    q := p + 16;
    while n - q >= 16
      invariant p < q <= n && Combined(c0, c1, c2, c3) == Fold(w, data[..q])
    {
      c0 := FeedWord(t, data, q, c0, c1, c2, c3, w);
      c1 := FeedWord(t, data, q + 4, c1, c2, c3, c0, w);
      c2 := FeedWord(t, data, q + 8, c2, c3, c0, c1, w);
      c3 := FeedWord(t, data, q + 12, c3, c0, c1, c2, w);
      q := q + 16;
    }
    while n - q >= 4
      invariant p < q <= n && Combined(c0, c1, c2, c3) == Fold(w, data[..q])
    {
      c0 := FeedWord(t, data, q, c0, c1, c2, c3, w);
      c0, c1, c2, c3 := c1, c2, c3, c0;
      q := q + 4;
    }
    r := Combine(t, c0, c1, c2, c3);
  }

  /** Extend, for data at any address: the bit-by-bit checksum. */
  method Extend(t: Tables, crc: bv32, data: seq<Octet>, address: nat) returns (r: bv32)
    requires Correct(t)
    ensures r == Crc(crc, data)
  {
    hide Combined, Zero1, Xor, Word, Fold;
    var n := |data|;
    var p := 0;
    var l := Xor(crc, XOR);
    ghost var w := l;
    FoldNothing(w, data);
    // Bytes up to the first 4-byte boundary, which may be past the end.
    var aligned := (4 - address % 4) % 4;
    if aligned <= n {
      while p != aligned
        invariant p <= aligned && l == Fold(w, data[..p])
      {
        FoldNextByte(w, data, p);
        l := StepByte(t, l, data[p]);
        p := p + 1;
      }
    }
    if n - p >= 16 {
      l, p := ExtendStrides(t, data, p, l, w);
    }
    while p != n
      invariant p <= n && l == Fold(w, data[..p])
    {
      FoldNextByte(w, data, p);
      l := StepByte(t, l, data[p]);
      p := p + 1;
    }
    assert data[..n] == data;
    r := Xor(l, XOR);
  }

  lemma FoldNothing(w: bv32, data: seq<Octet>)
    ensures Fold(w, data[..0]) == w
  {
  }

  /** The first sixteen bytes, loaded as four words, stand for those bytes. */
  lemma LoadSwath(w: bv32, data: seq<Octet>, p: nat, l: bv32)
    requires p + 16 <= |data| && l == Fold(w, data[..p])
    ensures Combined(Xor(WordAt(data, p), l), WordAt(data, p + 4), WordAt(data, p + 8), WordAt(data, p + 12)) == Fold(w, data[..p + 16])
  {
    hide Zero4, Xor, Word, Fold;
    FoldNextWord(w, data, p);
    FoldNextWord(w, data, p + 4);
    FoldNextWord(w, data, p + 8);
    FoldNextWord(w, data, p + 12);
    XorCommutes(WordAt(data, p), l);
    XorCommutes(WordAt(data, p + 4), Fold(w, data[..p + 4]));
    XorCommutes(WordAt(data, p + 8), Fold(w, data[..p + 8]));
    XorCommutes(WordAt(data, p + 12), Fold(w, data[..p + 12]));
  }
}
