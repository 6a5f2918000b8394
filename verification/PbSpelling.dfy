/** Which bytes decode, and to what: for any bytes at all, said without the decoder's steps (nanopb/pb_decode.c). */
module PbSpelling {
  import opened DbFormat
  import opened Coding
  import opened Spelling
  import opened PbFormat
  import opened PbParse
  import opened PbRequired

  /** A whole 32-bit varint; which these are is in `PbVarints`. */
  ghost predicate SpellsWord(b: Bytes, w: Word32) {
    Varint32(b) == Some((w, []))
  }

  lemma {:induction false} TailIsRead(b: Bytes, rest: Bytes, bitpos: nat, result: Word32, w: Word32)
    ensures Varint32Tail(b, bitpos, result) == Some((w, [])) <==> Varint32Tail(b + rest, bitpos, result) == Some((w, rest))
    decreases |b|
  {
    hide OrIn;
    var input := b + rest;
    if b == [] {
      assert input == rest;
    } else {
      var byte := input[0];
      assert input[1..] == b[1..] + rest;
      var next := if bitpos >= 32 then result else OrIn(result, Low7(byte), bitpos);
      TailIsRead(b[1..], rest, (bitpos + 7) % 256, next, w);
      SameRest(b[1..], rest);
    }
  }

  lemma SameRest(b: Bytes, rest: Bytes)
    ensures b + rest == rest <==> b == []
  {
    if b + rest == rest {
      assert |b| + |rest| == |rest|;
    }
  }

  lemma WordIsRead(b: Bytes, rest: Bytes, w: Word32)
    ensures SpellsWord(b, w) <==> Varint32(b + rest) == Some((w, rest))
  {
    hide Varint32Tail;
    if b == [] {
      assert b + rest == rest;
    } else {
      assert (b + rest)[1..] == b[1..] + rest;
      TailIsRead(b[1..], rest, 7, Low7(b[0]), w);
      SameRest(b[1..], rest);
    }
  }

  lemma {:induction false} TailLeavesSuffix(input: Bytes, bitpos: nat, result: Word32)
    requires Varint32Tail(input, bitpos, result).Some?
    ensures var rest := Varint32Tail(input, bitpos, result).value.1; input[|input| - |rest|..] == rest
    decreases |input|
  {
    hide OrIn;
    var byte := input[0];
    if byte >= 128 {
      TailLeavesSuffix(input[1..], (bitpos + 7) % 256, if bitpos >= 32 then result else OrIn(result, Low7(byte), bitpos));
    }
  }

  lemma ReadWordIsSpelt(input: Bytes) returns (b: Bytes)
    requires Varint32(input).Some?
    ensures b + Varint32(input).value.1 == input && SpellsWord(b, Varint32(input).value.0)
  {
    hide Varint32Tail;
    var (w, rest) := Varint32(input).value;
    b := input[..|input| - |rest|];
    if input[0] >= 128 {
      TailLeavesSuffix(input[1..], 7, Low7(input[0]));
    }
    assert b + rest == input;
    WordIsRead(b, rest, w);
  }

  lemma NumberRead(b: Bytes, rest: Bytes, w: nat)
    ensures SpellsNumber(b, 10, w) ==> Varint64(b + rest) == Some((w % TWO64, rest))
  {
    NumberIsRead(b, rest, 10, w);
    assert (b + rest)[|b|..] == rest;
  }

  lemma ReadNumberIsSpelt(input: Bytes) returns (b: Bytes, w: nat)
    requires Varint64(input).Some?
    ensures b + Varint64(input).value.1 == input && SpellsNumber(b, 10, w) && w % TWO64 == Varint64(input).value.0
  {
    var (v, n) := DecodeVarint(input, 10).value;
    b, w := input[..n], v;
    assert b + input[n..] == input;
    NumberIsRead(b, input[n..], 10, v);
  }

  // ----- One item -----

  /** Numbers as two's complement: a number of at most four bytes is told by the low 32 bits of the varint. */
  ghost predicate SameBits(size: nat, n: int, w: nat) {
    if size == 8 then n % TWO64 == w % TWO64 else n % TWO32 == w % TWO32
  }

  ghost predicate SpellsNumeral(k: Kind, b: Bytes, n: int) {
    match k
    case Bool => exists w :: SpellsWord(b, w) && n == if w == 0 then 0 else 1
    case Varint(size) => Signed(size, n) && exists w: nat :: SpellsNumber(b, 10, w) && SameBits(size, n, w)
    case UVarint(size) => 0 <= n < 2 * Half(size) && exists w: nat :: SpellsNumber(b, 10, w) && n == w % TWO64
    case SVarint(size) => Signed(size, n) && exists w: nat :: SpellsNumber(b, 10, w) && ZigZag(n) == w % TWO64
    case Fixed32 => |b| == 4 && n == DecodeFixed32(b)
    case Fixed64 => |b| == 8 && n == DecodeFixed64(b)
    case _ => false
  }

  /** A length, and so many bytes. */
  ghost predicate SpellsSized(b: Bytes, body: Bytes) {
    exists t: nat :: t <= |b| && |body| < TWO32 && SpellsWord(b[..t], |body|) && b[t..] == body
  }

  /** Bytes that fit the buffer, a string with room for its zero byte, exactly the bytes of an inline array or none. */
  ghost predicate SpellsRaw(k: Kind, b: Bytes, r: Bytes) {
    match k
    case Blob(capacity) => |r| <= capacity && SpellsSized(b, r)
    case Text(capacity) => |r| < capacity && SpellsSized(b, r)
    case Inline(length) => |r| == length && (SpellsSized(b, r) || (SpellsSized(b, []) && forall i :: 0 <= i < length ==> r[i] == 0))
    case _ => false
  }

  ghost predicate SpellsScalar(k: Kind, b: Bytes, v: Datum) {
    match v
    case Number(n) => SpellsNumeral(k, b, n)
    case Raw(r) => SpellsRaw(k, b, r)
    case Struct(_) => false
  }

  lemma SizedIsRead(b: Bytes, rest: Bytes, body: Bytes)
    ensures SpellsSized(b, body) <==> TakeSized(b + rest) == Some((body, rest))
  {
    hide Varint32;
    if SpellsSized(b, body) {
      var t: nat :| t <= |b| && |body| < TWO32 && SpellsWord(b[..t], |body|) && b[t..] == body;
      assert b + rest == b[..t] + (body + rest);
      WordIsRead(b[..t], body + rest, |body|);
      assert (body + rest)[..|body|] == body && (body + rest)[|body|..] == rest;
    }
    if TakeSized(b + rest) == Some((body, rest)) {
      var t := ReadWordIsSpelt(b + rest);
      PartsOfFront(t, body, b, rest);
    }
  }

  lemma PartsOfFront(x: Bytes, y: Bytes, b: Bytes, rest: Bytes)
    requires x + (y + rest) == b + rest
    ensures b == x + y && b[..|x|] == x && b[|x|..] == y
  {
    assert |x + y| == |b|;
    assert b == (b + rest)[..|b|] == (x + (y + rest))[..|b|] == x + y;
  }

  /** The signed number with the bits of a word. */
  lemma SignedIsUnique(size: nat, n: int, w: nat)
    requires ValidSize(size) && w < TWO64
    ensures ParseSigned(size, w) == Some(Number(n)) <==> Signed(size, n) && SameBits(size, n, w)
  {
    var wide := if size == 8 then 8 else 4;
    LowBytes(wide, w);
    ToSignedFits(wide, w);
    if Signed(size, n) {
      CutKeeps(wide, n);
      LowBytes(wide, n);
    }
    CutKeeps(wide, ToSigned(wide, w));
    LowBytes(wide, ToSigned(wide, w));
  }

  lemma ZigZagIsUnique(n: int, w: nat)
    ensures ZigZag(n) == w <==> UnZigZag(w) == n
  {
  }

  lemma FrontIs(t: Bytes, b: Bytes, rest: Bytes)
    requires t + rest == b + rest
    ensures t == b
  {
    assert t + ([] + rest) == b + rest;
    PartsOfFront(t, [], b, rest);
  }

  lemma BoolIsRead(b: Bytes, rest: Bytes, n: int)
    ensures SpellsNumeral(Bool, b, n) <==> ParseScalar(Bool, b + rest) == Some((Number(n), rest))
  {
    hide Varint32;
    if w :| SpellsWord(b, w) && n == if w == 0 then 0 else 1 {
      WordIsRead(b, rest, w);
    }
    if ParseScalar(Bool, b + rest) == Some((Number(n), rest)) {
      var t := ReadWordIsSpelt(b + rest);
      FrontIs(t, b, rest);
    }
  }

  lemma VarintIsRead(k: Kind, b: Bytes, rest: Bytes, n: int)
    requires WellFormedKind(k) && (k.Varint? || k.UVarint? || k.SVarint?)
    ensures SpellsNumeral(k, b, n) <==> ParseScalar(k, b + rest) == Some((Number(n), rest))
  {
    hide Varint64, SpellsNumber, ParseSigned;
    forall w: nat | SpellsNumber(b, 10, w)
      ensures Varint64(b + rest) == Some((w % TWO64, rest))
      ensures k.Varint? ==>
        (ParseSigned(k.size, w % TWO64) == Some(Number(n)) <==> Signed(k.size, n) && SameBits(k.size, n, w % TWO64))
    {
      NumberRead(b, rest, w);
      SignedIsUnique(k.size, n, w % TWO64);
    }
    forall w: nat ensures k.Varint? ==> (SameBits(k.size, n, w % TWO64) <==> SameBits(k.size, n, w)) {
      LowBytes(4, w);
    }
    if ParseScalar(k, b + rest) == Some((Number(n), rest)) {
      var t, w := ReadNumberIsSpelt(b + rest);
      FrontIs(t, b, rest);
      SignedIsUnique(k.size, n, w % TWO64);
    }
  }

  lemma FixedIsRead(k: Kind, b: Bytes, rest: Bytes, n: int)
    requires k.Fixed32? || k.Fixed64?
    ensures SpellsNumeral(k, b, n) <==> ParseScalar(k, b + rest) == Some((Number(n), rest))
  {
    var size := if k.Fixed32? then 4 else 8;
    var input := b + rest;
    if |b| == size {
      assert input[size..] == rest;
      assert forall i :: 0 <= i < size ==> input[i] == b[i];
    }
    if |input| >= size && input[size..] == rest {
      assert |b| == size;
    }
  }

  lemma RawIsRead(k: Kind, b: Bytes, rest: Bytes, r: Bytes)
    requires k.Blob? || k.Text? || k.Inline?
    ensures SpellsRaw(k, b, r) <==> ParseScalar(k, b + rest) == Some((Raw(r), rest))
  {
    hide Varint32, SpellsSized;
    var input := b + rest;
    SizedIsRead(b, rest, r);
    SizedIsRead(b, rest, []);
    if TakeSized(input).Some? {
      TakenSize(input);
    }
    if k.Inline? && Varint32(input).Some? && Varint32(input).value.0 == 0 {
      NothingTaken(input);
      if |r| == k.length && forall i :: 0 <= i < k.length ==> r[i] == 0 {
        assert r == seq(k.length, _ => 0);
      }
    }
  }

  lemma TakenSize(input: Bytes)
    requires TakeSized(input).Some?
    ensures |TakeSized(input).value.0| == Varint32(input).value.0
  {
  }

  lemma NothingTaken(input: Bytes)
    requires Varint32(input).Some? && Varint32(input).value.0 == 0
    ensures TakeSized(input) == Some(([], Varint32(input).value.1))
  {
  }

  lemma ScalarIsRead(k: Kind, b: Bytes, rest: Bytes, v: Datum)
    requires WellFormedKind(k) && !k.Sub?
    ensures SpellsScalar(k, b, v) <==> ParseScalar(k, b + rest) == Some((v, rest))
  {
    hide SpellsNumeral, SpellsRaw, ParseScalar;
    match v
    case Number(n) =>
      match k {
        case Bool => BoolIsRead(b, rest, n);
        case Varint(_) => VarintIsRead(k, b, rest, n);
        case UVarint(_) => VarintIsRead(k, b, rest, n);
        case SVarint(_) => VarintIsRead(k, b, rest, n);
        case Fixed32 => FixedIsRead(k, b, rest, n);
        case Fixed64 => FixedIsRead(k, b, rest, n);
        case _ => NoNumber(k, b, rest, n);
      }
    case Raw(r) =>
      if Packable(k) {
        NoRaw(k, b, rest, r);
      } else {
        RawIsRead(k, b, rest, r);
      }
    case Struct(m) => NoStruct(k, b + rest, m, rest);
  }

  lemma NoNumber(k: Kind, b: Bytes, rest: Bytes, n: int)
    requires !Packable(k) && !k.Sub?
    ensures !SpellsNumeral(k, b, n) && ParseScalar(k, b + rest) != Some((Number(n), rest))
  {
  }

  lemma NoRaw(k: Kind, b: Bytes, rest: Bytes, r: Bytes)
    requires Packable(k)
    ensures !SpellsRaw(k, b, r) && ParseScalar(k, b + rest) != Some((Raw(r), rest))
  {
  }

  lemma NoStruct(k: Kind, input: Bytes, m: Message, rest: Bytes)
    requires !k.Sub?
    ensures ParseScalar(k, input) != Some((Struct(m), rest))
  {
  }

  ghost predicate IsTail(input: Bytes, rest: Bytes) {
    |rest| <= |input| && input[|input| - |rest|..] == rest
  }

  lemma TailOfTail(input: Bytes, middle: Bytes, rest: Bytes)
    requires IsTail(input, middle) && IsTail(middle, rest)
    ensures IsTail(input, rest)
  {
  }

  lemma WordLeavesTail(input: Bytes)
    ensures Varint32(input).Some? ==> IsTail(input, Varint32(input).value.1)
    ensures Varint64(input).Some? ==> IsTail(input, Varint64(input).value.1)
    ensures TakeSized(input).Some? ==> IsTail(input, TakeSized(input).value.1)
  {
    hide Varint32;
    if Varint32(input).Some? {
      var b := ReadWordIsSpelt(input);
    }
  }

  lemma ScalarLeavesTail(k: Kind, input: Bytes)
    requires !k.Sub? && ParseScalar(k, input).Some?
    ensures IsTail(input, ParseScalar(k, input).value.1)
  {
    hide Varint32, Varint64;
    WordLeavesTail(input);
  }

  lemma ReadScalarIsSpelt(k: Kind, input: Bytes) returns (b: Bytes)
    requires WellFormedKind(k) && !k.Sub? && ParseScalar(k, input).Some?
    ensures b != [] && b + ParseScalar(k, input).value.1 == input && SpellsScalar(k, b, ParseScalar(k, input).value.0)
  {
    hide ParseScalar, SpellsScalar;
    var (v, rest) := ParseScalar(k, input).value;
    ScalarLeavesTail(k, input);
    b := input[..|input| - |rest|];
    assert b + rest == input;
    ScalarIsRead(k, b, rest, v);
  }

  // ----- Packed arrays and skipped data -----

  /** The parts of `bs` spell the items, one each. */
  ghost predicate SpellItems(k: Kind, bs: seq<Bytes>, items: seq<Datum>) {
    |bs| == |items| && forall i :: 0 <= i < |bs| ==> SpellsScalar(k, bs[i], items[i])
  }

  /** Items that all find room behind those already there. */
  ghost predicate SpellsPacked(k: Kind, max: nat, items: seq<Datum>, b: Bytes, all: seq<Datum>) {
    exists bs, added :: SpellItems(k, bs, added) && Joined(bs) == b && all == items + added && (added == [] || |all| <= max)
  }

  lemma {:induction false} SpeltItemsAreRead(k: Kind, max: nat, items: seq<Datum>, bs: seq<Bytes>, added: seq<Datum>)
    requires Packable(k) && WellFormedKind(k)
    requires SpellItems(k, bs, added) && (added == [] || |items + added| <= max)
    ensures ParsePacked(k, max, items, Joined(bs)) == Some((items + added, []))
    decreases bs
  {
    hide ParseScalar, SpellsScalar;
    if bs == [] {
      assert items + added == items;
    } else {
      ScalarIsRead(k, bs[0], Joined(bs[1..]), added[0]);
      ScalarIsNotEmpty(k, bs[0], added[0]);
      SpeltItemsAreRead(k, max, items + [added[0]], bs[1..], added[1..]);
      assert items + [added[0]] + added[1..] == items + added;
    }
  }

  lemma ScalarIsNotEmpty(k: Kind, b: Bytes, v: Datum)
    requires WellFormedKind(k) && !k.Sub? && SpellsScalar(k, b, v)
    ensures b != []
  {
    hide ParseScalar, SpellsScalar;
    ScalarIsRead(k, b, [], v);
    assert b + [] == b;
  }

  lemma {:induction false} ReadItemsAreSpelt(k: Kind, max: nat, items: seq<Datum>, input: Bytes) returns (bs: seq<Bytes>, added: seq<Datum>)
    requires Packable(k) && WellFormedKind(k)
    requires ParsePacked(k, max, items, input).Some? && ParsePacked(k, max, items, input).value.1 == []
    ensures SpellItems(k, bs, added) && Joined(bs) == input
    ensures ParsePacked(k, max, items, input).value.0 == items + added && (added == [] || |items + added| <= max)
    decreases |input|
  {
    hide ParseScalar, SpellsScalar;
    bs, added := [], [];
    if input == [] || |items| >= max {
      assert items + added == items;
    } else {
      var (v, rest) := ParseScalar(k, input).value;
      var b := ReadScalarIsSpelt(k, input);
      var more, others := ReadItemsAreSpelt(k, max, items + [v], rest);
      bs, added := [b] + more, [v] + others;
      assert items + [v] + others == items + added;
      assert bs[1..] == more;
    }
  }

  lemma PackedIsRead(k: Kind, max: nat, items: seq<Datum>, b: Bytes, all: seq<Datum>)
    requires Packable(k) && WellFormedKind(k)
    ensures SpellsPacked(k, max, items, b, all) <==> ParsePacked(k, max, items, b) == Some((all, []))
  {
    hide ParsePacked, SpellItems;
    if bs, added :| SpellItems(k, bs, added) && Joined(bs) == b && all == items + added && (added == [] || |all| <= max) {
      SpeltItemsAreRead(k, max, items, bs, added);
    }
    if ParsePacked(k, max, items, b) == Some((all, [])) {
      var bs, added := ReadItemsAreSpelt(k, max, items, b);
    }
  }

  /** Data that the wire type alone tells the end of. */
  ghost predicate SpellsSkipped(wireType: nat, b: Bytes) {
    if wireType == 0 then b != [] && b[|b| - 1] < 128 && forall i :: 0 <= i < |b| - 1 ==> b[i] >= 128
    else if wireType == 1 then |b| == 8
    else if wireType == 2 then exists body :: SpellsSized(b, body)
    else wireType == 5 && |b| == 4
  }

  lemma {:induction false} SkippedVarint(b: Bytes, rest: Bytes)
    ensures SpellsSkipped(0, b) <==> SkipVarint(b + rest) == Some(rest)
    decreases |b|
  {
    var input := b + rest;
    if b == [] {
      assert input == rest;
    } else {
      assert input[1..] == b[1..] + rest;
      SkippedVarint(b[1..], rest);
      SameRest(b[1..], rest);
      if SpellsSkipped(0, b[1..]) && b[0] >= 128 {
        forall i | 0 <= i < |b| - 1 ensures b[i] >= 128 {
          assert i > 0 ==> b[i] == b[1..][i - 1];
        }
      }
    }
  }

  lemma SkippedIsRead(wireType: nat, b: Bytes, rest: Bytes)
    ensures SpellsSkipped(wireType, b) <==> Skip(wireType, b + rest) == Some(rest)
  {
    hide TakeSized, SpellsSized, SkipVarint;
    var input := b + rest;
    if wireType == 0 {
      SkippedVarint(b, rest);
    } else if wireType == 2 {
      forall body ensures SpellsSized(b, body) <==> TakeSized(input) == Some((body, rest)) {
        SizedIsRead(b, rest, body);
      }
    } else {
      var size := if wireType == 1 then 8 else 4;
      assert |b| == size ==> input[size..] == rest;
      assert |input| >= size && input[size..] == rest ==> |b| == size;
    }
  }

  // ----- Fields and messages -----

  /** An item after its tag; a message has its length before it, and its fields go into `old_`. */
  ghost predicate SpellsDatum(k: Kind, old_: Datum, b: Bytes, v: Datum)
    requires WellFormedKind(k) && (k.Sub? ==> Suits(k, old_))
    decreases k, 0
  {
    if k.Sub? then
      v.Struct? && exists body, end :: SpellsSized(b, body) && SpellsMessage(k.schema, body, old_.m, {}, v.m, end)
    else SpellsScalar(k, b, v)
  }

  /** The data of one occurrence of a field makes `next` of its slot. */
  ghost predicate SpellsData(f: Field, wireType: nat, s: Slot, b: Bytes, next: Slot)
    requires WellFormedField(f) && SlotSuits(f, s)
    decreases f, 0
  {
    DefaultSuits(f);
    match f.rule
    case Repeated(max) =>
      if wireType == 2 && Packable(f.kind) then
        next.has == s.has && exists body :: SpellsSized(b, body) && SpellsPacked(f.kind, max, s.items, body, next.items)
      else |s.items| < max && exists v :: SpellsDatum(f.kind, DefaultDatum(f), b, v) && next == Slot(s.has, s.items + [v])
    case Optional => exists v :: SpellsDatum(f.kind, s.items[0], b, v) && next == Slot(true, [v])
    case OneOf(_) => exists v :: SpellsDatum(f.kind, DefaultDatum(f), b, v) && next == Slot(s.has, [v])
    case _ => exists v :: SpellsDatum(f.kind, s.items[0], b, v) && next == Slot(s.has, [v])
  }

  /** Data behind the tag makes `next` of the message: it changes the slot of the field with that tag, or nothing. */
  ghost predicate SpellsTagged(schema: Schema, m: Message, seen: set<nat>, tag: nat, wireType: nat, data: Bytes, next: Message,
                               nowSeen: set<nat>)
    requires WellFormed(schema) && HasShape(schema, m)
    decreases schema, 0
  {
    if forall i :: 0 <= i < |schema.fields| ==> schema.fields[i].tag != tag then
      next == m && nowSeen == seen &&
      if tag == 0 && schema.fields == [] then exists w :: SpellsWord(data, w) else SpellsSkipped(wireType, data)
    else
      exists i, s :: 0 <= i < |schema.fields| && schema.fields[i].tag == tag
        && SpellsData(schema.fields[i], wireType, m.slots[i], data, s) && nowSeen == NowSeen(schema.fields, i, seen)
        && next == Message(m.slots[i := s], if schema.fields[i].rule.OneOf? then m.which[schema.fields[i].rule.union := tag] else m.which)
  }

  ghost predicate SpellsTurn(schema: Schema, m: Message, seen: set<nat>, b: Bytes, next: Message, nowSeen: set<nat>)
    requires WellFormed(schema) && HasShape(schema, m)
    decreases schema, 1
  {
    exists t: nat, w: Word32 :: t <= |b| && SpellsWord(b[..t], w) && w != 0 && SpellsTagged(schema, m, seen, w / 8, w % 8, b[t..], next, nowSeen)
  }

  /** The bytes make `next` of `m`, field after field, up to their end or an end mark, and no required field is missing. */
  ghost predicate SpellsMessage(schema: Schema, b: Bytes, m: Message, seen: set<nat>, next: Message, rest: Bytes)
    requires WellFormed(schema) && HasShape(schema, m)
    decreases schema, |b| + 2
  {
    || (b == [] && rest == [] && next == m && Complete(schema.fields, seen))
    || (next == m && Complete(schema.fields, seen) && exists t: nat :: t <= |b| && SpellsWord(b[..t], 0) && rest == b[t..])
    || exists n: nat, mid, nowSeen ::
         && 0 < n <= |b| && HasShape(schema, mid) && SpellsTurn(schema, m, seen, b[..n], mid, nowSeen)
         && SpellsMessage(schema, b[n..], mid, nowSeen, next, rest)
  }

  lemma DatumLeavesTail(k: Kind, old_: Datum, input: Bytes)
    requires WellFormedKind(k) && (k.Sub? ==> Suits(k, old_)) && ParseDatum(k, old_, input).Some?
    ensures IsTail(input, ParseDatum(k, old_, input).value.1)
  {
    hide IsTail, TakeSized, ParseScalar;
    if k.Sub? {
      WordLeavesTail(input);
    } else {
      ScalarLeavesTail(k, input);
    }
  }

  lemma FieldLeavesTail(f: Field, wireType: nat, s: Slot, input: Bytes)
    requires WellFormedField(f) && SlotSuits(f, s) && ParseField(f, wireType, s, input).Some?
    ensures IsTail(input, ParseField(f, wireType, s, input).value.1)
  {
    hide IsTail, TakeSized, ParseDatum, ParsePacked;
    DefaultSuits(f);
    WordLeavesTail(input);
    if !f.rule.Repeated? {
      DatumLeavesTail(f.kind, Target(f, s), input);
    } else if (wireType != WT_STRING || !Packable(f.kind)) && |s.items| < f.rule.max {
      DatumLeavesTail(f.kind, DefaultDatum(f), input);
    }
  }

  lemma {:induction false} SkipLeavesTail(wireType: nat, input: Bytes)
    requires Skip(wireType, input).Some?
    ensures IsTail(input, Skip(wireType, input).value)
    decreases |input|
  {
    hide TakeSized;
    if wireType == WT_STRING {
      WordLeavesTail(input);
    } else if wireType == WT_VARINT && input[0] >= 128 {
      SkipLeavesTail(wireType, input[1..]);
    }
  }

  lemma TurnLeavesTail(schema: Schema, input: Bytes, m: Message, seen: set<nat>)
    requires WellFormed(schema) && HasShape(schema, m) && ParseTurn(schema, input, m, seen).Went?
    ensures IsTail(input, ParseTurn(schema, input, m, seen).rest)
  {
    hide IsTail, Varint32, Skip, ParseField;
    WordLeavesTail(input);
    var read := ParseTag(input);
    WordLeavesTail(read.rest);
    match Find(schema.fields, read.tag)
    case None =>
      if read.tag != 0 || schema.fields != [] {
        SkipLeavesTail(read.wireType, read.rest);
      }
      TailOfTail(input, read.rest, ParseTurn(schema, input, m, seen).rest);
    case Some(i) =>
      FieldLeavesTail(schema.fields[i], read.wireType, m.slots[i], read.rest);
      TailOfTail(input, read.rest, ParseTurn(schema, input, m, seen).rest);
  }

  lemma {:induction false} DatumIsRead(k: Kind, old_: Datum, b: Bytes, rest: Bytes, v: Datum)
    requires WellFormedKind(k) && (k.Sub? ==> Suits(k, old_))
    ensures SpellsDatum(k, old_, b, v) <==> ParseDatum(k, old_, b + rest) == Some((v, rest))
    decreases k, 0
  {
    hide SpellsScalar, ParseScalar, TakeSized, SpellsMessage, ParseFields, SpellsSized;
    if !k.Sub? {
      ScalarIsRead(k, b, rest, v);
    } else {
      forall body, end | v.Struct? && SpellsSized(b, body) && SpellsMessage(k.schema, body, old_.m, {}, v.m, end)
        ensures ParseDatum(k, old_, b + rest) == Some((v, rest)) {
        SizedIsRead(b, rest, body);
        MessageIsRead(k.schema, body, old_.m, {}, v.m, end);
      }
      if ParseDatum(k, old_, b + rest) == Some((v, rest)) {
        var (body, _) := TakeSized(b + rest).value;
        var (m, end) := ParseFields(k.schema, body, old_.m, {}).value;
        SizedIsRead(b, rest, body);
        MessageIsRead(k.schema, body, old_.m, {}, m, end);
      }
    }
  }

  lemma {:induction false} FieldIsRead(f: Field, wireType: nat, s: Slot, b: Bytes, rest: Bytes, next: Slot)
    requires WellFormedField(f) && SlotSuits(f, s)
    ensures SpellsData(f, wireType, s, b, next) <==> ParseField(f, wireType, s, b + rest) == Some((next, rest))
    decreases f, 0
  {
    hide SpellsDatum, ParseDatum, TakeSized, SpellsSized, SpellsPacked, ParsePacked;
    DefaultSuits(f);
    forall v ensures SpellsDatum(f.kind, DefaultDatum(f), b, v) <==> ParseDatum(f.kind, DefaultDatum(f), b + rest) == Some((v, rest)) {
      DatumIsRead(f.kind, DefaultDatum(f), b, rest, v);
    }
    if !f.rule.Repeated? {
      forall v ensures SpellsDatum(f.kind, s.items[0], b, v) <==> ParseDatum(f.kind, s.items[0], b + rest) == Some((v, rest)) {
        DatumIsRead(f.kind, s.items[0], b, rest, v);
      }
    } else if wireType == 2 && Packable(f.kind) {
      forall body ensures SpellsSized(b, body) <==> TakeSized(b + rest) == Some((body, rest)) {
        SizedIsRead(b, rest, body);
      }
      forall body
        ensures SpellsPacked(f.kind, f.rule.max, s.items, body, next.items) <==>
                ParsePacked(f.kind, f.rule.max, s.items, body) == Some((next.items, [])) {
        PackedIsRead(f.kind, f.rule.max, s.items, body, next.items);
      }
    }
  }

  lemma {:induction false} TaggedIsRead(schema: Schema, m: Message, seen: set<nat>, t: Bytes, w: Word32, data: Bytes, rest: Bytes,
                                        next: Message, nowSeen: set<nat>)
    requires WellFormed(schema) && HasShape(schema, m) && SpellsWord(t, w) && w != 0
    ensures SpellsTagged(schema, m, seen, w / 8, w % 8, data, next, nowSeen) <==>
            ParseTurn(schema, t + (data + rest), m, seen) == Went(next, nowSeen, rest)
    decreases schema, 0
  {
    hide SpellsData, ParseField, Varint32, Skip, SpellsSkipped, NowSeen, SpellsWord;
    WordIsRead(t, data + rest, w);
    match Find(schema.fields, w / 8)
    case None => UnknownIsRead(schema, m, seen, t, w, data, rest, next, nowSeen);
    case Some(i) =>
      var f := schema.fields[i];
      forall s ensures SpellsData(f, w % 8, m.slots[i], data, s) <==> ParseField(f, w % 8, m.slots[i], data + rest) == Some((s, rest)) {
        FieldIsRead(f, w % 8, m.slots[i], data, rest, s);
      }
  }

  lemma UnknownIsRead(schema: Schema, m: Message, seen: set<nat>, t: Bytes, w: Word32, data: Bytes, rest: Bytes, next: Message,
                      nowSeen: set<nat>)
    requires WellFormed(schema) && HasShape(schema, m) && SpellsWord(t, w) && w != 0 && Find(schema.fields, w / 8).None?
    ensures SpellsTagged(schema, m, seen, w / 8, w % 8, data, next, nowSeen) <==>
            ParseTurn(schema, t + (data + rest), m, seen) == Went(next, nowSeen, rest)
  {
    hide SpellsData, ParseField, Varint32, Skip, SpellsSkipped, NowSeen, SpellsWord;
    WordIsRead(t, data + rest, w);
    SkippedIsRead(w % 8, data, rest);
    forall v: Word32 ensures SpellsWord(data, v) <==> Varint32(data + rest) == Some((v, rest)) {
      WordIsRead(data, rest, v);
    }
  }

  lemma {:induction false} TurnIsRead(schema: Schema, m: Message, seen: set<nat>, b: Bytes, rest: Bytes, next: Message,
                                      nowSeen: set<nat>)
    requires WellFormed(schema) && HasShape(schema, m)
    ensures SpellsTurn(schema, m, seen, b, next, nowSeen) <==> ParseTurn(schema, b + rest, m, seen) == Went(next, nowSeen, rest)
    decreases schema, 2
  {
    hide SpellsTagged, ParseField, Varint32, Skip, SpellsWord;
    if t: nat, w: Word32 :| t <= |b| && SpellsWord(b[..t], w) && w != 0 && SpellsTagged(schema, m, seen, w / 8, w % 8, b[t..], next, nowSeen) {
      assert b[..t] + (b[t..] + rest) == b + rest;
      TaggedIsRead(schema, m, seen, b[..t], w, b[t..], rest, next, nowSeen);
    }
    if ParseTurn(schema, b + rest, m, seen) == Went(next, nowSeen, rest) {
      TurnIsSpelt(schema, m, seen, b, rest, next, nowSeen);
    }
  }

  lemma {:induction false} TurnIsSpelt(schema: Schema, m: Message, seen: set<nat>, b: Bytes, rest: Bytes, next: Message,
                                       nowSeen: set<nat>)
    requires WellFormed(schema) && HasShape(schema, m)
    requires ParseTurn(schema, b + rest, m, seen) == Went(next, nowSeen, rest)
    ensures SpellsTurn(schema, m, seen, b, next, nowSeen)
    decreases schema, 1
  {
    hide SpellsTagged, ParseField, Varint32, Skip, SpellsWord;
    var t := ReadWordIsSpelt(b + rest);
    var (w, after) := Varint32(b + rest).value;
    TurnRest(schema, m, seen, b + rest);
    var data := after[..|after| - |rest|];
    assert after == data + rest;
    PartsOfFront(t, data, b, rest);
    TaggedIsRead(schema, m, seen, t, w, data, rest, next, nowSeen);
  }

  /** What a turn leaves is left of what is behind its tag. */
  lemma TurnRest(schema: Schema, m: Message, seen: set<nat>, input: Bytes)
    requires WellFormed(schema) && HasShape(schema, m) && ParseTurn(schema, input, m, seen).Went?
    ensures Varint32(input).Some? && Varint32(input).value.0 != 0
    ensures IsTail(Varint32(input).value.1, ParseTurn(schema, input, m, seen).rest)
  {
    hide IsTail, Varint32, Skip, ParseField;
    var read := ParseTag(input);
    WordLeavesTail(read.rest);
    match Find(schema.fields, read.tag)
    case None =>
      if read.tag != 0 || schema.fields != [] {
        SkipLeavesTail(read.wireType, read.rest);
      }
    case Some(i) =>
      FieldLeavesTail(schema.fields[i], read.wireType, m.slots[i], read.rest);
  }

  /** A message is decoded exactly if the bytes spell it. */
  lemma {:induction false} MessageIsRead(schema: Schema, b: Bytes, m: Message, seen: set<nat>, next: Message, rest: Bytes)
    requires WellFormed(schema) && HasShape(schema, m)
    ensures SpellsMessage(schema, b, m, seen, next, rest) <==> ParseFields(schema, b, m, seen) == Some((next, rest))
    decreases schema, |b| + 3
  {
    hide SpellsTurn, ParseTurn, Complete, SpellsWord;
    if SpellsMessage(schema, b, m, seen, next, rest) {
      SpeltMessageIsRead(schema, b, m, seen, next, rest);
    }
    if b != [] && ParseFields(schema, b, m, seen) == Some((next, rest)) {
      match ParseTurn(schema, b, m, seen)
      case Ended(after) =>
        EndIsRead(schema, b, m, seen, after);
      case Went(mid, nowSeen, after) =>
        TurnLeavesTail(schema, b, m, seen);
        var n := |b| - |after|;
        assert b[..n] + after == b;
        TurnIsRead(schema, m, seen, b[..n], after, mid, nowSeen);
        MessageIsRead(schema, after, mid, nowSeen, next, rest);
      case Failed =>
    }
  }

  lemma {:induction false} SpeltMessageIsRead(schema: Schema, b: Bytes, m: Message, seen: set<nat>, next: Message, rest: Bytes)
    requires WellFormed(schema) && HasShape(schema, m) && SpellsMessage(schema, b, m, seen, next, rest)
    ensures ParseFields(schema, b, m, seen) == Some((next, rest))
    decreases schema, |b| + 3, 0
  {
    hide SpellsTurn, ParseTurn, Complete, SpellsWord;
    if b == [] && rest == [] && next == m && Complete(schema.fields, seen) {
    } else if next == m && Complete(schema.fields, seen) && exists t: nat :: t <= |b| && SpellsWord(b[..t], 0) && rest == b[t..] {
      EndIsRead(schema, b, m, seen, rest);
    } else {
      var n: nat, mid, nowSeen :|
        && 0 < n <= |b| && HasShape(schema, mid) && SpellsTurn(schema, m, seen, b[..n], mid, nowSeen)
        && SpellsMessage(schema, b[n..], mid, nowSeen, next, rest);
      assert b[..n] + b[n..] == b;
      TurnIsRead(schema, m, seen, b[..n], b[n..], mid, nowSeen);
      SpeltMessageIsRead(schema, b[n..], mid, nowSeen, next, rest);
    }
  }

  lemma EndIsRead(schema: Schema, b: Bytes, m: Message, seen: set<nat>, rest: Bytes)
    requires WellFormed(schema) && HasShape(schema, m)
    ensures (exists t: nat :: t <= |b| && SpellsWord(b[..t], 0) && rest == b[t..]) <==> b != [] && ParseTurn(schema, b, m, seen) == Ended(rest)
  {
    hide ParseField, Skip, SpellsWord, Varint32;
    if t: nat :| t <= |b| && SpellsWord(b[..t], 0) && rest == b[t..] {
      assert b[..t] + b[t..] == b;
      WordIsRead(b[..t], b[t..], 0);
    }
    if b != [] && ParseTurn(schema, b, m, seen) == Ended(rest) {
      var t := ReadWordIsSpelt(b);
      assert b[..|t|] == t && b[|t|..] == rest;
    }
  }

  /** pb_decode: any bytes, into the default message. */
  lemma DecodesExactly(schema: Schema, b: Bytes, m: Message, rest: Bytes)
    requires WellFormed(schema)
    ensures HasShape(schema, Default(schema))
    ensures Decode(schema, b) == Some((m, rest)) <==> SpellsMessage(schema, b, Default(schema), {}, m, rest)
  {
    hide SpellsMessage, ParseFields;
    DefaultHasShape(schema);
    MessageIsRead(schema, b, Default(schema), {}, m, rest);
  }
}
