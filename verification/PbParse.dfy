/** What nanopb makes of bytes (nanopb/pb_decode.c), as functions on the bytes not yet read. */
module PbParse {
  import opened DbFormat
  import opened Coding
  import opened Bits
  import opened PbFormat

  const MAX_REQUIRED: nat := 64

  /** pb_decode_varint: at most ten bytes; bits past the 64th are lost. */
  function Varint64(input: Bytes): (r: Option<(Word64, Bytes)>)
    ensures r.Some? ==> |r.value.1| < |input|
  {
    match DecodeVarint(input, 10)
    case None => None
    case Some((v, n)) => Some((v % TWO64, input[n..]))
  }

  /** The low seven bits of a byte. */
  function Low7(byte: Byte): (r: nat)
    ensures r < 128
  {
    if byte >= 128 then byte - 128 else byte
  }

  /** A word with a number shifted to `bitpos` or-ed in. */
  function OrIn(w: Word32, d: nat, bitpos: nat): Word32 {
    WordSizes();
    Or(w, d * Power2(bitpos) % TWO32, 32)
  }

  /** The loop of pb_decode_varint32_eof: `bitpos` counts in eight bits, bits past the 32nd must be zero or
      carry on the sign. */
  function Varint32Tail(input: Bytes, bitpos: nat, result: Word32): (r: Option<(Word32, Bytes)>)
    ensures r.Some? ==> |r.value.1| < |input|
    decreases |input|
  {
    if input == [] then None else
      var byte := input[0];
      var sign := if bitpos < 63 then 0xff else 0x01;
      if bitpos >= 32 && Low7(byte) != 0 && (result < 0x8000_0000 || byte != sign) then None else
        var next := if bitpos >= 32 then result else OrIn(result, Low7(byte), bitpos);
        var nextpos := (bitpos + 7) % 256;
        if byte >= 128 then Varint32Tail(input[1..], nextpos, next)
        else if nextpos == 35 && byte / 16 % 8 != 0 then None
        else Some((next, input[1..]))
  }

  /** pb_decode_varint32. */
  function Varint32(input: Bytes): (r: Option<(Word32, Bytes)>)
    ensures r.Some? ==> |r.value.1| < |input|
  {
    if input == [] then None
    else if input[0] < 128 then Some((input[0] as nat, input[1..]))
    else Varint32Tail(input[1..], 7, Low7(input[0]))
  }

  function Take(input: Bytes, count: nat): (r: Option<(Bytes, Bytes)>)
    ensures r.Some? ==> r.value.0 + r.value.1 == input && |r.value.0| == count
  {
    if |input| < count then None else Some((input[..count], input[count..]))
  }

  /** pb_make_string_substream: a length, and so many bytes. */
  function TakeSized(input: Bytes): (r: Option<(Bytes, Bytes)>)
    ensures r.Some? ==> |r.value.0| + |r.value.1| < |input|
  {
    match Varint32(input)
    case None => None
    case Some((size, rest)) => Take(rest, size)
  }

  /** pb_skip_varint. */
  function SkipVarint(input: Bytes): (r: Option<Bytes>)
    ensures r.Some? ==> |r.value| < |input|
  {
    if input == [] then None
    else if input[0] < 128 then Some(input[1..])
    else SkipVarint(input[1..])
  }

  /** pb_skip_field. */
  function Skip(wireType: nat, input: Bytes): (r: Option<Bytes>)
    ensures r.Some? ==> |r.value| <= |input|
  {
    if wireType == WT_VARINT then SkipVarint(input)
    else if wireType == WT_64BIT then (match Take(input, 8) case None => None case Some((_, rest)) => Some(rest))
    else if wireType == WT_STRING then (match TakeSized(input) case None => None case Some((_, rest)) => Some(rest))
    else if wireType == WT_32BIT then (match Take(input, 4) case None => None case Some((_, rest)) => Some(rest))
    else None
  }

  // ----- One item -----

  function ToSigned(size: nat, w: nat): int {
    var low := w % (2 * Half(size));
    if low < Half(size) then low else low - 2 * Half(size)
  }

  lemma ToSignedFits(size: nat, w: nat)
    requires ValidSize(size)
    ensures Signed(size, ToSigned(size, w)) && Signed(8, ToSigned(size, w))
  {
  }

  /** Cutting a number to 64 bits does not change its lower bytes. */
  lemma LowBytes(size: nat, n: int)
    requires ValidSize(size)
    ensures n % TWO64 % (2 * Half(size)) == n % (2 * Half(size))
  {
    var m, c := WordsOf(size);
    CutTwice(n, m, c);
  }

  lemma WordsOf(size: nat) returns (m: nat, c: nat)
    requires ValidSize(size)
    ensures m == 2 * Half(size) && m > 0 && c > 0 && m * c == TWO64
  {
    m := 2 * Half(size);
    c := if size == 1 then 0x100_0000_0000_0000 else if size == 2 then 0x1_0000_0000_0000 else if size == 4 then TWO32 else 1;
  }

  lemma CutTwice(n: int, m: nat, c: nat)
    requires m > 0 && c > 0
    ensures n % (m * c) % m == n % m
  {
    var q, r := n / (m * c), n % (m * c);
    assert m * c * q == m * (c * q);
    RemainderIsUnique(n, c * q + r / m, r % m, m);
  }

  /** A number cut to a size is itself exactly if it fits. */
  lemma CutKeeps(size: nat, n: int)
    requires ValidSize(size)
    ensures ToSigned(size, n % TWO64) == n <==> Signed(size, n)
  {
    hide Half;
    LowBytes(size, n);
    HalfIsPositive(size);
    CutOnce(Half(size), n);
  }

  lemma HalfIsPositive(size: nat)
    ensures Half(size) > 0
  {
  }

  lemma CutOnce(h: nat, n: int)
    requires h > 0
    ensures (if n % (2 * h) < h then n % (2 * h) else n % (2 * h) - 2 * h) == n <==> 0 - h <= n < h
  {
    if 0 <= n < h {
      RemainderIsUnique(n, 0, n, 2 * h);
    } else if 0 - h <= n < 0 {
      RemainderIsUnique(n, -1, n + 2 * h, 2 * h);
    }
  }

  function UnZigZag(w: nat): int {
    if w % 2 == 1 then -1 - w / 2 else w / 2
  }

  /** pb_dec_varint: a number of at most four bytes is first cut to four. */
  function ParseSigned(size: nat, w: Word64): Option<Datum> {
    var n := if size == 8 then ToSigned(8, w) else ToSigned(4, w);
    if ValidSize(size) && Signed(size, n) then Some(Number(n)) else None
  }

  /** One item that is no message. */
  function ParseScalar(k: Kind, input: Bytes): (r: Option<(Datum, Bytes)>)
    requires !k.Sub?
    ensures r.Some? ==> |r.value.1| < |input|
  {
    match k
    case Bool => (match Varint32(input)
      case None => None
      case Some((w, rest)) => Some((Number(if w != 0 then 1 else 0), rest)))
    case Varint(size) => (match Varint64(input)
      case None => None
      case Some((w, rest)) => (match ParseSigned(size, w) case None => None case Some(v) => Some((v, rest))))
    case UVarint(size) => (match Varint64(input)
      case None => None
      case Some((w, rest)) => if ValidSize(size) && w < 2 * Half(size) then Some((Number(w), rest)) else None)
    case SVarint(size) => (match Varint64(input)
      case None => None
      case Some((w, rest)) => if ValidSize(size) && Signed(size, UnZigZag(w)) then Some((Number(UnZigZag(w)), rest)) else None)
    case Fixed32 => if |input| < 4 then None else Some((Number(DecodeFixed32(input)), input[4..]))
    case Fixed64 => if |input| < 8 then None else Some((Number(DecodeFixed64(input)), input[8..]))
    case Blob(capacity) => (match Varint32(input)
      case None => None
      case Some((size, rest)) => if size > capacity then None else ParseRaw(rest, size))
    case Text(capacity) => (match Varint32(input)
      case None => None
      case Some((size, rest)) => if size + 1 > capacity then None else ParseRaw(rest, size))
    case Inline(length) => (match Varint32(input)
      case None => None
      case Some((size, rest)) =>
        if size == 0 then Some((Raw(seq(length, _ => 0)), rest))
        else if size != length then None
        else ParseRaw(rest, size))
  }

  function ParseRaw(input: Bytes, size: nat): (r: Option<(Datum, Bytes)>)
    ensures r.Some? ==> |r.value.1| <= |input|
  {
    match Take(input, size)
    case None => None
    case Some((b, rest)) => Some((Raw(b), rest))
  }

  lemma ScalarSuits(k: Kind, input: Bytes)
    requires !k.Sub? && ParseScalar(k, input).Some?
    ensures Suits(k, ParseScalar(k, input).value.0)
  {
  }

  // ----- Fields -----

  datatype TagRead = TagRead(wireType: nat, tag: nat, rest: Bytes) | EndMark | BadTag

  /** pb_decode_tag, where there is something to read; a zero ends a message early. */
  function ParseTag(input: Bytes): (r: TagRead)
    ensures r.TagRead? ==> |r.rest| < |input|
  {
    match Varint32(input)
    case None => BadTag
    case Some((w, rest)) => if w == 0 then EndMark else TagRead(w % 8, w / 8, rest)
  }

  /** The items of a packed array, until the bytes or the room end. */
  function ParsePacked(k: Kind, max: nat, items: seq<Datum>, input: Bytes): Option<(seq<Datum>, Bytes)>
    requires Packable(k)
    decreases |input|
  {
    if input == [] || |items| >= max then Some((items, input)) else
      match ParseScalar(k, input)
      case None => None
      case Some((v, rest)) => ParsePacked(k, max, items + [v], rest)
  }

  /** The field with a tag. */
  function Find(fields: seq<Field>, tag: nat): (i: Option<nat>)
    ensures i.Some? ==> i.value < |fields| && fields[i.value].tag == tag
    ensures i.None? ==> forall j :: 0 <= j < |fields| ==> fields[j].tag != tag
  {
    if fields == [] then None
    else if fields[|fields| - 1].tag == tag then Some(|fields| - 1)
    else Find(fields[..|fields| - 1], tag)
  }

  /** With distinct tags there is only one field to find. */
  lemma TagIsUnique(schema: Schema, i: nat, tag: nat)
    requires WellFormed(schema) && i < |schema.fields| && schema.fields[i].tag == tag
    ensures Find(schema.fields, tag) == Some(i)
  {
    var j := Find(schema.fields, tag).value;
    assert schema.fields[j].tag == schema.fields[i].tag;
  }

  /** How many required fields come before field `i`. */
  function RequiredBefore(fields: seq<Field>, i: nat): nat
    requires i <= |fields|
  {
    if i == 0 then 0 else RequiredBefore(fields, i - 1) + (if fields[i - 1].rule.Required? then 1 else 0)
  }

  /** All required fields that the decoder keeps track of were seen. */
  ghost predicate Complete(fields: seq<Field>, seen: set<nat>) {
    forall i :: 0 <= i < |fields| && fields[i].rule.Required? && RequiredBefore(fields, i) < MAX_REQUIRED ==> i in seen
  }

  ghost function ParseDatum(k: Kind, old_: Datum, input: Bytes): (r: Option<(Datum, Bytes)>)
    requires WellFormedKind(k) && (k.Sub? ==> Suits(k, old_))
    ensures r.Some? ==> |r.value.1| < |input| && Suits(k, r.value.0)
    decreases k, 0
  {
    match k
    case Sub(schema) => (match TakeSized(input)
      case None => None
      case Some((sub, rest)) => (match ParseFields(schema, sub, old_.m, {})
        case None => None
        case Some((m, _)) => Some((Struct(m), rest))))
    case _ =>
      if ParseScalar(k, input).Some? then
        ScalarSuits(k, input);
        ParseScalar(k, input)
      else None
  }

  /** What the data of a field that is not repeated is decoded into; the data of a union is set up anew. */
  function Target(f: Field, s: Slot): Datum
    requires |s.items| == 1
  {
    if f.rule.OneOf? then DefaultDatum(f) else s.items[0]
  }

  /** Decode what follows a field's tag into its slot. */
  ghost function ParseField(f: Field, wireType: nat, s: Slot, input: Bytes): (r: Option<(Slot, Bytes)>)
    requires WellFormedField(f) && SlotSuits(f, s)
    ensures r.Some? ==> |r.value.1| < |input| && SlotSuits(f, r.value.0)
    decreases f, 0
  {
    match f.rule
    case Repeated(max) =>
      if wireType == WT_STRING && Packable(f.kind) then
        (match PackedField(f.kind, max, s.items, input)
         case None => None
         case Some((items, rest)) =>
           PackedSuits(f.kind, max, s.items, TakeSized(input).value.0);
           Some((s.(items := items), rest)))
      else if |s.items| >= max then None
      else
        DefaultSuits(f);
        (match ParseDatum(f.kind, DefaultDatum(f), input)
         case None => None
         case Some((v, rest)) => Some((s.(items := s.items + [v]), rest)))
    case _ =>
      DefaultSuits(f);
      (match ParseDatum(f.kind, Target(f, s), input)
       case None => None
       case Some((v, rest)) => Some((Slot(s.has || f.rule.Optional?, [v]), rest)))
  }

  function PackedField(k: Kind, max: nat, items: seq<Datum>, input: Bytes): (r: Option<(seq<Datum>, Bytes)>)
    requires Packable(k)
    ensures r.Some? ==> |r.value.1| < |input|
  {
    match TakeSized(input)
    case None => None
    case Some((sub, rest)) =>
      (match ParsePacked(k, max, items, sub)
       case None => None
       case Some((all, left)) => if left == [] then Some((all, rest)) else None)
  }

  lemma {:induction false} PackedSuits(k: Kind, max: nat, items: seq<Datum>, input: Bytes)
    requires Packable(k) && ParsePacked(k, max, items, input).Some?
    requires forall v :: v in items ==> Suits(k, v)
    ensures forall v :: v in ParsePacked(k, max, items, input).value.0 ==> Suits(k, v)
    decreases |input|
  {
    if input != [] && |items| < max {
      ScalarSuits(k, input);
      var (v, rest) := ParseScalar(k, input).value;
      PackedSuits(k, max, items + [v], rest);
    }
  }

  function SetWhich(f: Field, which: map<nat, nat>): map<nat, nat> {
    if f.rule.OneOf? then which[f.rule.union := f.tag] else which
  }

  function NowSeen(fields: seq<Field>, i: nat, seen: set<nat>): set<nat>
    requires i < |fields|
  {
    if fields[i].rule.Required? && RequiredBefore(fields, i) < MAX_REQUIRED then seen + {i} else seen
  }

  /** The message with what was decoded for field `i`. */
  ghost function Stored(schema: Schema, m: Message, i: nat, s: Slot): (r: Message)
    requires HasShape(schema, m) && i < |schema.fields| && SlotSuits(schema.fields[i], s)
    ensures HasShape(schema, r)
  {
    Message(m.slots[i := s], SetWhich(schema.fields[i], m.which))
  }

  datatype Turn = Failed | Ended(rest: Bytes) | Went(m: Message, seen: set<nat>, rest: Bytes)

  /** One turn of the decoder's loop: a tag, and the field it names or data to skip. */
  ghost function ParseTurn(schema: Schema, input: Bytes, m: Message, seen: set<nat>): (r: Turn)
    requires WellFormed(schema) && HasShape(schema, m)
    ensures r.Went? ==> |r.rest| < |input| && HasShape(schema, r.m)
    decreases schema, |input|, 0
  {
    match ParseTag(input)
    case BadTag => Failed
    case EndMark => (match Varint32(input) case None => Failed case Some((_, rest)) => Ended(rest))
    case TagRead(wireType, tag, rest) =>
      match Find(schema.fields, tag)
      case None =>
        (match if tag == 0 && schema.fields == [] then SkipMark(rest) else Skip(wireType, rest)
         case None => Failed
         case Some(after) => Went(m, seen, after))
      case Some(i) =>
        match ParseField(schema.fields[i], wireType, m.slots[i], rest)
        case None => Failed
        case Some((s, after)) => Went(Stored(schema, m, i, s), NowSeen(schema.fields, i, seen), after)
  }

  /** The decoder's loop: the message made of `m` and the fields in `input`, and what is after its end mark. */
  ghost function ParseFields(schema: Schema, input: Bytes, m: Message, seen: set<nat>): (r: Option<(Message, Bytes)>)
    requires WellFormed(schema) && HasShape(schema, m)
    ensures r.Some? ==> HasShape(schema, r.value.0)
    decreases schema, |input|, 1
  {
    if input == [] then Finish(schema, m, seen, []) else
      match ParseTurn(schema, input, m, seen)
      case Failed => None
      case Ended(rest) => Finish(schema, m, seen, rest)
      case Went(next, nowSeen, rest) => ParseFields(schema, rest, next, nowSeen)
  }

  lemma NothingToParse(schema: Schema, m: Message, seen: set<nat>)
    requires WellFormed(schema) && HasShape(schema, m)
    ensures ParseFields(schema, [], m, seen) == Finish(schema, m, seen, [])
  {
  }

  /** A message type without fields takes tag 0 for its own end mark and reads a number. */
  function SkipMark(input: Bytes): (r: Option<Bytes>)
    ensures r.Some? ==> |r.value| < |input|
  {
    match Varint32(input)
    case None => None
    case Some((_, rest)) => Some(rest)
  }

  ghost function Finish(schema: Schema, m: Message, seen: set<nat>, rest: Bytes): Option<(Message, Bytes)> {
    if Complete(schema.fields, seen) then Some((m, rest)) else None
  }

  /** pb_decode. */
  ghost function Decode(schema: Schema, input: Bytes): (r: Option<(Message, Bytes)>)
    requires WellFormed(schema)
    ensures r.Some? ==> HasShape(schema, r.value.0)
  {
    DefaultHasShape(schema);
    ParseFields(schema, input, Default(schema), {})
  }
}
