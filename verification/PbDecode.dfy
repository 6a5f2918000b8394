/** The decoder (nanopb/pb_decode.c), against the functions of PbParse. */
module PbDecoders {
  import opened DbFormat
  import opened Coding
  import opened Bits
  import opened PbFormat
  import opened PbParse
  import opened PbCommon
  import opened PbRequired

  /** pb_istream_t over a buffer. */
  class IStream {
    const data: Bytes
    var pos: nat
    var bytesLeft: nat

    ghost predicate Valid()
      reads this
    {
      pos + bytesLeft <= |data|
    }

    /** What is still to be read. */
    ghost function Rest(): Bytes
      reads this
      requires Valid()
    {
      data[pos..pos + bytesLeft]
    }

    /** Reading fails, or leaves `rest`. */
    twostate predicate Reads(ok: bool, new rest: Option<Bytes>)
      reads this
    {
      && Valid() && pos + bytesLeft <= old(pos + bytesLeft)
      && (ok <==> rest.Some?)
      && (ok ==> Rest() == rest.value && pos + bytesLeft == old(pos + bytesLeft))
    }

    constructor (data: Bytes, pos: nat, bytesLeft: nat)
      requires pos + bytesLeft <= |data|
      ensures Valid() && this.data == data && this.pos == pos && this.bytesLeft == bytesLeft
    {
      this.data, this.pos, this.bytesLeft := data, pos, bytesLeft;
    }

    /** pb_read. */
    method Read(count: nat) returns (ok: bool, buf: Bytes)
      requires Valid()
      modifies this
      ensures Reads(ok, match Take(old(Rest()), count) case None => None case Some((_, rest)) => Some(rest))
      ensures ok ==> buf == old(Rest())[..count]
    {
      if bytesLeft < count {
        return false, [];
      }
      buf := data[pos..pos + count];
      pos := pos + count;
      bytesLeft := bytesLeft - count;
      return true, buf;
    }

    /** pb_readbyte. */
    method ReadByte() returns (ok: bool, byte: Byte)
      requires Valid()
      modifies this
      ensures Valid() && pos + bytesLeft == old(pos + bytesLeft) && (ok <==> old(Rest()) != [])
      ensures ok ==> byte == old(Rest())[0] && Reads(true, Some(old(Rest())[1..])) && bytesLeft == old(bytesLeft) - 1
    {
      if bytesLeft == 0 {
        return false, 0;
      }
      byte := data[pos];
      pos, bytesLeft := pos + 1, bytesLeft - 1;
      return true, byte;
    }
  }

  ghost function After<T>(r: Option<(T, Bytes)>): Option<Bytes> {
    match r
    case None => None
    case Some((_, rest)) => Some(rest)
  }

  /** pb_decode_varint32_eof; `eof` if there was nothing to read. */
  method ReadVarint32(stream: IStream) returns (ok: bool, w: Word32, eof: bool)
    requires stream.Valid()
    modifies stream
    ensures stream.Reads(ok, After(Varint32(old(stream.Rest()))))
    ensures ok ==> w == Varint32(old(stream.Rest())).value.0
    ensures eof <==> old(stream.Rest()) == []
  {
    ghost var input := stream.Rest();
    var byte;
    ok, byte := stream.ReadByte();
    if !ok {
      return false, 0, true;
    }
    if byte < 128 {
      return true, byte, false;
    }
    var bitpos: nat, result: Word32 := 7, Low7(byte);
    while true
      invariant stream.Valid() && stream.pos + stream.bytesLeft == old(stream.pos + stream.bytesLeft)
      invariant Varint32(input) == Varint32Tail(stream.Rest(), bitpos, result)
      decreases stream.bytesLeft
    {
      ok, byte := stream.ReadByte();
      if !ok {
        return false, 0, false;
      }
      if bitpos >= 32 {
        var sign := if bitpos < 63 then 0xff else 0x01;
        if Low7(byte) != 0 && (result / 0x8000_0000 == 0 || byte != sign) {
          return false, 0, false;
        }
      } else {
        result := OrIn(result, Low7(byte), bitpos);
      }
      bitpos := (bitpos + 7) % 256;
      if byte < 128 {
        if bitpos == 35 && byte / 16 % 8 != 0 {
          return false, 0, false;
        }
        return true, result, false;
      }
    }
  }

  /** pb_decode_varint. */
  method ReadVarint64(stream: IStream) returns (ok: bool, w: Word64)
    requires stream.Valid()
    modifies stream
    ensures stream.Reads(ok, After(Varint64(old(stream.Rest()))))
    ensures ok ==> w == Varint64(old(stream.Rest())).value.0
  {
    hide Power2, Groups, OrIn64, Plus, DecodeVarint, Low7;
    ghost var input := stream.Rest();
    var bitpos: nat, result: Word64 := 0, 0;
    // Bytes read, and their value before truncation.
    ghost var p, low: nat := 0, 0;
    NoGroup(input);
    while true
      invariant stream.Valid() && stream.pos + stream.bytesLeft == old(stream.pos + stream.bytesLeft)
      invariant p <= |input| && bitpos == 7 * p && stream.Rest() == input[p..]
      invariant Groups(input, p, low) && result == low % TWO64
      decreases stream.bytesLeft
    {
      NoMoreGroups(input, p, low);
      if bitpos >= 64 {
        return false, 0;
      }
      var byte;
      ok, byte := stream.ReadByte();
      if !ok {
        return false, 0;
      }
      NextGroup(input, p, low);
      NextBits(low, Low7(byte), bitpos);
      result := OrIn64(result, Low7(byte), bitpos);
      low := Plus(low, Low7(byte), bitpos);
      p := p + 1;
      bitpos := bitpos + 7;
      if byte < 128 {
        return true, result;
      }
    }
  }

  /** The first `p` bytes go on, and are worth `low`. */
  ghost predicate Groups(input: Bytes, p: nat, low: nat) {
    && p <= 10 && p <= |input| && low < Power2(7 * p)
    && DecodeVarint(input, 10) == match DecodeVarint(input[p..], 10 - p)
       case None => None
       case Some((v, n)) => Some((low + Power2(7 * p) * v, p + n))
  }

  lemma NoGroup(input: Bytes)
    ensures Groups(input, 0, 0)
  {
    assert input[0..] == input;
  }

  lemma NoMoreGroups(input: Bytes, p: nat, low: nat)
    requires Groups(input, p, low)
    ensures p <= 10 && p <= |input| && low < Power2(7 * p)
    ensures p == 10 || p == |input| ==> DecodeVarint(input, 10).None?
  {
  }

  lemma NextGroup(input: Bytes, p: nat, low: nat)
    requires Groups(input, p, low) && p < 10 && p < |input|
    ensures var next := Plus(low, Low7(input[p]), 7 * p);
      if input[p] < 128 then DecodeVarint(input, 10) == Some((next, p + 1)) else Groups(input, p + 1, next)
  {
    hide Power2, DecodeVarint;
    var d, scale := Low7(input[p]), Power2(7 * p);
    NextDigit(input, 10, p, low, scale, d * scale);
    SevenMore(7 * p);
    PlusFits(low, d, 7 * p);
    assert Power2(7 * (p + 1)) == 128 * scale by {
      assert 7 * (p + 1) == 7 * p + 7;
    }
  }

  function OrIn64(w: Word64, d: nat, bitpos: nat): Word64 {
    WordSizes();
    Or(w, d * Power2(bitpos) % TWO64, 64)
  }

  /** Or-ing in seven bits adds them, as far as they fit. */
  lemma NextBits(low: nat, d: nat, bitpos: nat)
    requires low < Power2(bitpos) && bitpos < 64 && d < 128
    ensures low < TWO64 && OrIn64(low, d, bitpos) == Plus(low, d, bitpos) % TWO64
  {
    hide Or, Power2;
    WordSizes();
    OrShifted(low, d, bitpos, 64);
  }

  // ----- Skipping, tags and substreams -----

  /** pb_skip_varint. */
  method SkipNumber(stream: IStream) returns (ok: bool)
    requires stream.Valid()
    modifies stream
    ensures stream.Reads(ok, SkipVarint(old(stream.Rest())))
  {
    ghost var input := stream.Rest();
    while true
      invariant stream.Valid() && stream.pos + stream.bytesLeft == old(stream.pos + stream.bytesLeft)
      invariant SkipVarint(input) == SkipVarint(stream.Rest())
      decreases stream.bytesLeft
    {
      var byte;
      ok, byte := stream.ReadByte();
      if !ok {
        return false;
      }
      if byte < 128 {
        return true;
      }
    }
  }

  /** pb_skip_string. */
  method SkipString(stream: IStream) returns (ok: bool)
    requires stream.Valid()
    modifies stream
    ensures stream.Reads(ok, After(TakeSized(old(stream.Rest()))))
  {
    var length, eof, buf;
    ok, length, eof := ReadVarint32(stream);
    if ok {
      ok, buf := stream.Read(length);
    }
  }

  /** pb_skip_field. */
  method SkipField(stream: IStream, wireType: nat) returns (ok: bool)
    requires stream.Valid()
    modifies stream
    ensures stream.Reads(ok, Skip(wireType, old(stream.Rest())))
  {
    var buf;
    if wireType == WT_VARINT {
      ok := SkipNumber(stream);
    } else if wireType == WT_64BIT {
      ok, buf := stream.Read(8);
    } else if wireType == WT_STRING {
      ok := SkipString(stream);
    } else if wireType == WT_32BIT {
      ok, buf := stream.Read(4);
    } else {
      ok := false;
    }
  }

  /** pb_decode_tag. */
  method ReadTag(stream: IStream) returns (ok: bool, wireType: nat, tag: nat, eof: bool)
    requires stream.Valid() && stream.bytesLeft > 0
    modifies stream
    ensures match ParseTag(old(stream.Rest()))
      case BadTag => !ok && !eof && stream.Reads(false, None)
      case EndMark => !ok && eof && stream.Reads(true, After(Varint32(old(stream.Rest()))))
      case TagRead(w, t, rest) => ok && !eof && wireType == w && tag == t && stream.Reads(true, Some(rest))
  {
    var temp;
    ok, temp, eof := ReadVarint32(stream);
    if !ok {
      return false, 0, 0, eof;
    }
    if temp == 0 {
      return false, 0, 0, true;
    }
    return true, temp % 8, temp / 8, false;
  }

  /** pb_make_string_substream: the parent gives up the bytes, but only closing the substream moves it past them. */
  method OpenSubstream(stream: IStream) returns (ok: bool, substream: IStream)
    requires stream.Valid()
    modifies stream
    ensures stream.Valid() && stream.pos + stream.bytesLeft <= old(stream.pos + stream.bytesLeft)
    ensures fresh(substream) && substream.Valid() && substream.data == stream.data
    ensures ok <==> TakeSized(old(stream.Rest())).Some?
    ensures ok ==> substream.Rest() == TakeSized(old(stream.Rest())).value.0
    ensures ok ==> SplitFrom(stream, substream, TakeSized(old(stream.Rest())).value.1)
    ensures ok ==> substream.pos + substream.bytesLeft + stream.bytesLeft == old(stream.pos + stream.bytesLeft)
  {
    hide Varint32;
    substream := new IStream(stream.data, 0, 0);
    var size, eof;
    ok, size, eof := ReadVarint32(stream);
    if !ok {
      return;
    }
    if stream.bytesLeft < size {
      return false, substream;
    }
    substream := new IStream(stream.data, stream.pos, size);
    stream.bytesLeft := stream.bytesLeft - size;
  }

  /** `rest` comes after the substream and is what the parent has left. */
  ghost predicate SplitFrom(stream: IStream, substream: IStream, rest: Bytes)
    reads stream, substream
  {
    && substream.data == stream.data && substream.pos + substream.bytesLeft + stream.bytesLeft <= |stream.data|
    && var end := substream.pos + substream.bytesLeft;
       stream.data[end..end + stream.bytesLeft] == rest
  }

  /** pb_close_string_substream. */
  method CloseSubstream(stream: IStream, substream: IStream, ghost rest: Bytes) returns (ok: bool)
    requires stream != substream && stream.Valid() && substream.Valid() && substream.data == stream.data
    requires substream.pos + substream.bytesLeft + stream.bytesLeft <= |stream.data|
    modifies stream, substream
    ensures ok && stream.Valid() && (old(SplitFrom(stream, substream, rest)) ==> stream.Rest() == rest)
    ensures stream.pos + stream.bytesLeft == old(substream.pos + substream.bytesLeft + stream.bytesLeft)
  {
    if substream.bytesLeft > 0 {
      var buf;
      ok, buf := substream.Read(substream.bytesLeft);
    }
    stream.pos := substream.pos;
    return true;
  }

  // ----- One item -----

  method ReadRaw(stream: IStream, size: nat) returns (ok: bool, v: Datum)
    requires stream.Valid()
    modifies stream
    ensures stream.Reads(ok, After(ParseRaw(old(stream.Rest()), size)))
    ensures ok ==> v == ParseRaw(old(stream.Rest()), size).value.0
  {
    var buf;
    ok, buf := stream.Read(size);
    v := Raw(buf);
  }

  /** pb_decode_svarint's inverse of the zigzag: shift right, and invert all bits if the lowest was set. */
  function FromZigZag(w: Word64): int {
    if w % 2 == 1 then ToSigned(8, TWO64 - 1 - w / 2) else ToSigned(8, w / 2)
  }

  lemma ZigZagInverts(w: Word64)
    ensures FromZigZag(w) == UnZigZag(w)
  {
  }

  /** Cast to the field's size, and see whether that changed anything. */
  method Clamp(size: nat, n: int) returns (ok: bool, clamped: int)
    requires Signed(8, n)
    ensures ok <==> ValidSize(size) && Signed(size, n)
    ensures ok ==> clamped == n
  {
    if !ValidSize(size) {
      return false, 0;
    }
    clamped := ToSigned(size, n % TWO64);
    CutKeeps(size, n);
    ok := clamped == n;
  }

  /** pb_dec_varint, pb_dec_uvarint and pb_dec_svarint. */
  method ReadInteger(stream: IStream, k: Kind) returns (ok: bool, v: Datum)
    requires stream.Valid() && (k.Varint? || k.UVarint? || k.SVarint?)
    modifies stream
    ensures stream.Reads(ok, After(ParseScalar(k, old(stream.Rest()))))
    ensures ok ==> v == ParseScalar(k, old(stream.Rest())).value.0
  {
    hide Varint64, ToSigned, FromZigZag;
    v := Number(0);
    var w, clamped;
    ok, w := ReadVarint64(stream);
    if !ok {
      return;
    }
    match k
    case Varint(size) =>
      ToSignedFits(8, w);
      ToSignedFits(4, w);
      ok, clamped := Clamp(size, if size == 8 then ToSigned(8, w) else ToSigned(4, w));
      v := Number(clamped);
    case UVarint(size) =>
      if !ValidSize(size) {
        return false, v;
      }
      clamped := w % (2 * Half(size));
      ok, v := clamped == w, Number(clamped);
    case SVarint(size) =>
      ZigZagInverts(w);
      ok, clamped := Clamp(size, FromZigZag(w));
      v := Number(clamped);
  }

  /** pb_dec_bytes, pb_dec_string and pb_dec_fixed_length_bytes. */
  method ReadBytes(stream: IStream, k: Kind) returns (ok: bool, v: Datum)
    requires stream.Valid() && (k.Blob? || k.Text? || k.Inline?)
    modifies stream
    ensures stream.Reads(ok, After(ParseScalar(k, old(stream.Rest()))))
    ensures ok ==> v == ParseScalar(k, old(stream.Rest())).value.0
  {
    hide Varint32;
    v := Raw([]);
    var size, eof;
    ok, size, eof := ReadVarint32(stream);
    if !ok {
      return;
    }
    match k {
      case Blob(capacity) =>
        if size > capacity {
          return false, v;
        }
      case Text(capacity) =>
        if size + 1 > capacity {
          return false, v;
        }
      case Inline(length) =>
        if size == 0 {
          return true, Raw(seq(length, _ => 0));
        }
        if size != length {
          return false, v;
        }
    }
    ok, v := ReadRaw(stream, size);
  }

  /** The decoders of one item that is no message. */
  method ReadScalar(stream: IStream, k: Kind) returns (ok: bool, v: Datum)
    requires stream.Valid() && !k.Sub?
    modifies stream
    ensures stream.Reads(ok, After(ParseScalar(k, old(stream.Rest()))))
    ensures ok ==> v == ParseScalar(k, old(stream.Rest())).value.0
  {
    v := Number(0);
    var buf;
    match k
    case Bool =>
      var w, eof;
      ok, w, eof := ReadVarint32(stream);
      v := Number(if w != 0 then 1 else 0);
    case Varint(_) =>
      ok, v := ReadInteger(stream, k);
    case UVarint(_) =>
      ok, v := ReadInteger(stream, k);
    case SVarint(_) =>
      ok, v := ReadInteger(stream, k);
    case Fixed32 =>
      ok, buf := stream.Read(4);
      if ok {
        v := Number(DecodeFixed32(buf));
      }
    case Fixed64 =>
      ok, buf := stream.Read(8);
      if ok {
        v := Number(DecodeFixed64(buf));
      }
    case Blob(_) =>
      ok, v := ReadBytes(stream, k);
    case Text(_) =>
      ok, v := ReadBytes(stream, k);
    case Inline(_) =>
      ok, v := ReadBytes(stream, k);
  }

  // ----- Fields -----

  /** pb_message_set_to_defaults. */
  method SetToDefaults(schema: Schema) returns (m: Message)
    ensures m == Default(schema)
    ensures AllInitial(schema, m)
    decreases schema
  {
    DefaultsAreInitial(schema);
    var slots: seq<Slot> := [];
    var iter := new FieldIter(schema.fields);
    var more := schema.fields != [];
    while more
      invariant iter.Valid() && iter.fields == schema.fields && fresh(iter)
      invariant |slots| == if more then iter.pos else |schema.fields|
      invariant more ==> iter.pos < |schema.fields|
      invariant forall i :: 0 <= i < |slots| ==> i < |schema.fields| && slots[i] == DefaultSlot(schema.fields[i])
      decreases if more then |schema.fields| - iter.pos else 0
    {
      var slot := SetFieldToDefault(schema.fields[iter.pos]);
      slots := slots + [slot];
      more := iter.Next();
    }
    m := Message(slots, map[]);
  }

  /** pb_field_set_to_default. */
  method SetFieldToDefault(f: Field) returns (s: Slot)
    ensures s == DefaultSlot(f)
    decreases f, 1
  {
    if f.rule.Repeated? {
      return Slot(false, []);
    }
    var v := InitialDatum(f);
    s := Slot(false, [v]);
  }

  method InitialDatum(f: Field) returns (v: Datum)
    ensures v == DefaultDatum(f)
    decreases f, 0
  {
    if f.kind.Sub? {
      var m := SetToDefaults(f.kind.schema);
      v := Struct(m);
    } else {
      v := if f.initial.Some? then f.initial.value else Zero(f.kind);
    }
  }

  /** A packed array: items from a substream until it ends or the array is full. */
  method ReadPacked(stream: IStream, k: Kind, max: nat, items0: seq<Datum>) returns (ok: bool, items: seq<Datum>)
    requires stream.Valid() && Packable(k)
    modifies stream
    ensures stream.Reads(ok, After(PackedField(k, max, items0, old(stream.Rest()))))
    ensures ok ==> items == PackedField(k, max, items0, old(stream.Rest())).value.0
  {
    hide ParseScalar, TakeSized;
    items := items0;
    var substream;
    ok, substream := OpenSubstream(stream);
    if !ok {
      return;
    }
    ghost var sub, rest := substream.Rest(), TakeSized(old(stream.Rest())).value.1;
    var status := true;
    while status && substream.bytesLeft > 0 && |items| < max
      invariant stream != substream && fresh(substream) && stream.Valid() && substream.Valid() && substream.data == stream.data
      invariant stream.pos + stream.bytesLeft <= old(stream.pos + stream.bytesLeft)
      invariant substream.pos + substream.bytesLeft + stream.bytesLeft <= old(stream.pos + stream.bytesLeft)
      invariant status ==> SplitFrom(stream, substream, rest)
      invariant status ==> substream.pos + substream.bytesLeft + stream.bytesLeft == old(stream.pos + stream.bytesLeft)
      invariant status ==> ParsePacked(k, max, items0, sub) == ParsePacked(k, max, items, substream.Rest())
      invariant !status ==> ParsePacked(k, max, items0, sub) == None
      decreases status, substream.bytesLeft
    {
      var v;
      status, v := ReadScalar(substream, k);
      if status {
        items := items + [v];
      }
    }
    if substream.bytesLeft != 0 {
      return false, items;
    }
    ok := CloseSubstream(stream, substream, rest);
    ok := status;
  }

  /** pb_dec_submessage, into a message that was set up before. */
  method ReadSubmessage(stream: IStream, schema: Schema, m0: Message) returns (ok: bool, m: Message)
    requires stream.Valid() && WellFormed(schema) && HasShape(schema, m0)
    modifies stream
    ensures stream.Reads(ok, After(ParseDatum(Sub(schema), Struct(m0), old(stream.Rest()))))
    ensures ok ==> Struct(m) == ParseDatum(Sub(schema), Struct(m0), old(stream.Rest())).value.0
    decreases schema, 2
  {
    hide ParseFields, TakeSized, WellFormed, HasShape;
    m := m0;
    var substream;
    ok, substream := OpenSubstream(stream);
    if !ok {
      return;
    }
    ghost var rest := TakeSized(old(stream.Rest())).value.1;
    var status;
    status, m := ReadFields(substream, schema, m0);
    ok := CloseSubstream(stream, substream, rest);
    ok := status;
  }

  /** One item of any kind. */
  method ReadDatum(stream: IStream, k: Kind, old_: Datum) returns (ok: bool, v: Datum)
    requires stream.Valid() && WellFormedKind(k) && (k.Sub? ==> Suits(k, old_))
    modifies stream
    ensures stream.Reads(ok, After(ParseDatum(k, old_, old(stream.Rest()))))
    ensures ok ==> v == ParseDatum(k, old_, old(stream.Rest())).value.0
    decreases k, 0
  {
    if k.Sub? {
      var m;
      ok, m := ReadSubmessage(stream, k.schema, old_.m);
      v := Struct(m);
    } else {
      ok, v := ReadScalar(stream, k);
    }
  }

  /** decode_static_field. */
  method ReadField(stream: IStream, f: Field, wireType: nat, s: Slot) returns (ok: bool, t: Slot)
    requires stream.Valid() && WellFormedField(f) && SlotSuits(f, s)
    modifies stream
    ensures stream.Reads(ok, After(ParseField(f, wireType, s, old(stream.Rest()))))
    ensures ok ==> t == ParseField(f, wireType, s, old(stream.Rest())).value.0
    decreases f, 0
  {
    hide ParseDatum, PackedField, Suits, WellFormedKind, DefaultDatum;
    DefaultSuits(f);
    t := s;
    var v;
    match f.rule
    case Required =>
      ok, v := ReadDatum(stream, f.kind, s.items[0]);
      t := s.(items := [v]);
    case Optional =>
      ok, v := ReadDatum(stream, f.kind, s.items[0]);
      t := Slot(true, [v]);
    case Singular =>
      ok, v := ReadDatum(stream, f.kind, s.items[0]);
      t := s.(items := [v]);
    case Repeated(max) =>
      if wireType == WT_STRING && Packable(f.kind) {
        var items;
        ok, items := ReadPacked(stream, f.kind, max, s.items);
        t := s.(items := items);
        return;
      }
      if |s.items| >= max {
        return false, s;
      }
      v := InitialDatum(f);
      ok, v := ReadDatum(stream, f.kind, v);
      t := s.(items := s.items + [v]);
    case OneOf(_) =>
      v := InitialDatum(f);
      ok, v := ReadDatum(stream, f.kind, v);
      t := s.(items := [v]);
  }

  // ----- Messages -----

  /** One turn of the loop of pb_decode_noinit; `ended` at a mark that ends the message early. */
  method ReadTurn(stream: IStream, iter: FieldIter, schema: Schema, m: Message, words: seq<Word32>, ghost seen: set<nat>)
    returns (ok: bool, ended: bool, next: Message, nextWords: seq<Word32>)
    requires stream.Valid() && stream.bytesLeft > 0 && WellFormed(schema) && HasShape(schema, m)
    requires iter.Valid() && iter.fields == schema.fields && Tracks(words, schema.fields, seen)
    modifies stream, iter
    ensures iter.Valid() && stream.Valid()
    ensures match ParseTurn(schema, old(stream.Rest()), m, seen)
      case Failed => !ok && !ended && stream.Reads(false, None)
      case Ended(rest) => !ok && ended && next == m && nextWords == words && stream.Reads(true, Some(rest))
      case Went(after, nowSeen, rest) =>
        && ok && !ended && next == after && Tracks(nextWords, schema.fields, nowSeen) && stream.Reads(true, Some(rest))
    decreases schema, 0
  {
    hide ParseField, ParseTag, Skip, Varint32, Tracks, SlotSuits, WellFormedField, RequiredBefore;
    next, nextWords := m, words;
    var wireType, tag;
    ok, wireType, tag, ended := ReadTag(stream);
    if !ok {
      return;
    }
    var found := iter.Find(tag);
    if !found {
      assert Find(schema.fields, tag) == None;
      ok := SkipField(stream, wireType);
    } else if schema.fields == [] {
      var w, eof;
      ok, w, eof := ReadVarint32(stream);
    } else {
      TagIsUnique(schema, iter.pos, tag);
      nextWords := NoteSeen(iter, words, seen);
      var slot;
      ok, slot := ReadField(stream, schema.fields[iter.pos], wireType, m.slots[iter.pos]);
      if ok {
        next := Message(m.slots[iter.pos := slot], SetWhich(schema.fields[iter.pos], m.which));
      }
    }
  }

  /** pb_decode_noinit. */
  method ReadFields(stream: IStream, schema: Schema, m0: Message) returns (ok: bool, m: Message)
    requires stream.Valid() && WellFormed(schema) && HasShape(schema, m0)
    modifies stream
    ensures stream.Reads(ok, After(ParseFields(schema, old(stream.Rest()), m0, {})))
    ensures ok ==> m == ParseFields(schema, old(stream.Rest()), m0, {}).value.0
    decreases schema, 1
  {
    hide ParseTurn, Tracks, HasShape, WellFormed, RequiredBefore;
    var iter := new FieldIter(schema.fields);
    var words: seq<Word32> := [0, 0];
    m, ok := m0, true;
    ghost var parsed, seen := ParseFields(schema, stream.Rest(), m0, {}), {};
    NothingSeen(schema.fields);
    var ended := false;
    while ok && stream.bytesLeft > 0
      invariant iter.Valid() && iter.fields == schema.fields && fresh(iter)
      invariant ok || ended ==> HasShape(schema, m) && Tracks(words, schema.fields, seen)
      invariant stream.Valid() && stream.pos + stream.bytesLeft <= old(stream.pos + stream.bytesLeft)
      invariant ok || ended ==> stream.pos + stream.bytesLeft == old(stream.pos + stream.bytesLeft)
      invariant ok ==> parsed == ParseFields(schema, stream.Rest(), m, seen)
      invariant !ok ==> parsed == if ended then Finish(schema, m, seen, stream.Rest()) else None
      invariant ok ==> !ended
      decreases ok, stream.bytesLeft
    {
      ghost var turn := ParseTurn(schema, stream.Rest(), m, seen);
      ok, ended, m, words := ReadTurn(stream, iter, schema, m, words, seen);
      if ok {
        seen := turn.seen;
      }
    }
    if !ok && !ended {
      return;
    }
    ok := CheckRequired(iter, words, seen);
  }

  /** pb_decode. */
  method ReadMessage(stream: IStream, schema: Schema) returns (ok: bool, m: Message)
    requires stream.Valid() && WellFormed(schema)
    modifies stream
    ensures stream.Reads(ok, After(Decode(schema, old(stream.Rest()))))
    ensures ok ==> m == Decode(schema, old(stream.Rest())).value.0
  {
    DefaultHasShape(schema);
    m := SetToDefaults(schema);
    ok, m := ReadFields(stream, schema, m);
  }
}
