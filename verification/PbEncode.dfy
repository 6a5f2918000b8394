/** The encoder (nanopb/pb_encode.c). A message inside a message is encoded twice: first to learn its size. */
module PbEncoders {
  import opened DbFormat
  import opened Coding
  import opened PbFormat
  import opened PbCommon
  import opened PbPresence

  /** pb_ostream_t: without a callback it only counts. */
  class OStream {
    const writing: bool
    const maxSize: nat
    /** What the callback was given so far. */
    var state: Bytes
    var bytesWritten: nat

    ghost predicate Valid()
      reads this
    {
      writing ==> bytesWritten <= maxSize
    }

    /** `out` went out, or there is no `out`, or no room for it. */
    twostate predicate Emits(ok: bool, new out: Option<Bytes>)
      reads this
    {
      && (ok <==> out.Some? && (writing ==> old(bytesWritten) + |out.value| <= maxSize))
      && (ok ==> bytesWritten == old(bytesWritten) + |out.value|)
      && (ok ==> state == if writing then old(state) + out.value else old(state))
    }

    constructor (writing: bool, state: Bytes, maxSize: nat)
      ensures Valid() && this.writing == writing && this.maxSize == maxSize && this.state == state && bytesWritten == 0
    {
      this.writing, this.maxSize, this.state, bytesWritten := writing, maxSize, state, 0;
    }

    /** pb_write; a stream that only counts needs no bytes. */
    method Write(buf: Bytes, count: nat) returns (ok: bool)
      requires Valid() && (writing ==> count == |buf|)
      modifies this
      ensures Valid()
      ensures ok <==> !writing || old(bytesWritten) + count <= maxSize
      ensures ok ==> bytesWritten == old(bytesWritten) + count
      ensures ok ==> state == if writing then old(state) + buf else old(state)
    {
      if count > 0 && writing {
        if bytesWritten + count > maxSize {
          return false;
        }
        state := state + buf;
      }
      bytesWritten := bytesWritten + count;
      return true;
    }
  }

  /** pb_encode_varint. */
  method EmitVarint(stream: OStream, value: nat) returns (ok: bool)
    requires stream.Valid()
    modifies stream
    ensures stream.Valid() && stream.Emits(ok, Some(EncodeVarint(value)))
  {
    if value <= 0x7f {
      ok := stream.Write([value], 1);
      return;
    }
    var buffer := VarintBuffer(value);
    ok := stream.Write(buffer, |buffer|);
  }

  /** All groups with the top bit set, and then that of the last one cleared. */
  method VarintBuffer(value: nat) returns (buffer: Bytes)
    requires value > 0
    ensures buffer == EncodeVarint(value)
  {
    hide EncodeVarint;
    buffer := [];
    var v := value;
    // The groups before the last one.
    ghost var front: Bytes := [];
    assert buffer + EncodeVarint(v) == EncodeVarint(value);
    while v != 0
      invariant v != 0 ==> buffer + EncodeVarint(v) == EncodeVarint(value)
      invariant v == 0 ==> |buffer| == |front| + 1 && buffer[..|front|] == front && buffer[|front|] >= 128
      invariant v == 0 ==> front + [buffer[|front|] - 128] == EncodeVarint(value)
    {
      OneMoreGroup(buffer, v, EncodeVarint(value));
      front := buffer;
      buffer := buffer + [v % 128 + 128];
      v := v / 128;
    }
    assert buffer[|front| := buffer[|front|] - 128] == front + [buffer[|front|] - 128];
    buffer := buffer[|buffer| - 1 := buffer[|buffer| - 1] - 128];
  }

  lemma OneMoreGroup(buffer: Bytes, v: nat, whole: Bytes)
    requires v > 0 && buffer + EncodeVarint(v) == whole
    ensures v < 128 ==> buffer + [v] == whole
    ensures v >= 128 ==> (buffer + [v % 128 + 128]) + EncodeVarint(v / 128) == whole
  {
    hide EncodeVarint;
    VarintGroups(v);
    if v >= 128 {
      assert buffer + ([v % 128 + 128] + EncodeVarint(v / 128)) == (buffer + [v % 128 + 128]) + EncodeVarint(v / 128);
    }
  }

  lemma VarintGroups(v: nat)
    ensures EncodeVarint(v) == if v < 128 then [v] else [v % 128 + 128] + EncodeVarint(v / 128)
  {
  }

  /** pb_encode_svarint: shift left, and invert all bits of a negative number. */
  method EmitSigned(stream: OStream, value: int) returns (ok: bool)
    requires stream.Valid() && Signed(8, value)
    modifies stream
    ensures stream.Valid() && stream.Emits(ok, Some(EncodeVarint(ZigZag(value))))
  {
    var shifted := value % TWO64 * 2 % TWO64;
    var zigzagged := if value < 0 then TWO64 - 1 - shifted else shifted;
    assert value < 0 ==> value % TWO64 == value + TWO64;
    assert zigzagged == ZigZag(value);
    ok := EmitVarint(stream, zigzagged);
  }

  /** pb_encode_tag_for_field. */
  method EmitTag(stream: OStream, wireType: nat, tag: nat) returns (ok: bool)
    requires stream.Valid()
    modifies stream
    ensures stream.Valid() && stream.Emits(ok, Some(EncodeTag(wireType, tag)))
  {
    ok := EmitVarint(stream, tag * 8 + wireType);
  }

  /** pb_encode_string. */
  method EmitString(stream: OStream, b: Bytes) returns (ok: bool)
    requires stream.Valid()
    modifies stream
    ensures stream.Valid() && stream.Emits(ok, Some(Sized(b)))
  {
    ok := EmitVarint(stream, |b|);
    if ok {
      ok := stream.Write(b, |b|);
    }
  }

  /** pb_enc_string: measure the string first. */
  method EmitText(stream: OStream, b: Bytes, capacity: nat) returns (ok: bool)
    requires stream.Valid() && |b| <= capacity < TWO32
    modifies stream
    ensures stream.Valid() && stream.Emits(ok, Some(Sized(CString(b))))
  {
    var size := 0;
    while size < capacity && size < |b| && b[size] != 0
      invariant size <= |b| && forall i :: 0 <= i < size ==> b[i] != 0
    {
      size := size + 1;
    }
    assert CString(b) == b[..size];
    ok := EmitString(stream, b[..size]);
  }

  /** The encoders of one item: pb_enc_bool, pb_enc_varint and so on. */
  method EmitDatum(stream: OStream, k: Kind, v: Datum) returns (ok: bool)
    requires stream.Valid() && Suits(k, v) && WellFormedKind(k)
    modifies stream
    ensures stream.Valid() && stream.Emits(ok, EncodeDatum(k, v))
    decreases k, 0
  {
    hide EncodeFrom, HasShape, WellFormed, CString, Sized, EncodeVarint, EncodeFixed32, EncodeFixed64, ZigZag;
    match k
    case Bool =>
      ok := EmitVarint(stream, if v.n != 0 then 1 else 0);
    case Varint(size) =>
      ok := EmitVarint(stream, v.n % TWO64);
    case UVarint(size) =>
      ok := EmitVarint(stream, v.n);
    case SVarint(size) =>
      ok := EmitSigned(stream, v.n);
    case Fixed32 =>
      ok := stream.Write(EncodeFixed32(v.n), 4);
    case Fixed64 =>
      ok := stream.Write(EncodeFixed64(v.n), 8);
    case Blob(capacity) =>
      if |v.b| > capacity {
        return false;
      }
      ok := EmitString(stream, v.b);
    case Text(capacity) =>
      ok := EmitText(stream, v.b, capacity);
    case Sub(schema) =>
      ok := EmitSubmessage(stream, schema, v.m);
    case Inline(length) =>
      ok := EmitString(stream, v.b);
  }

  /** pb_encode_submessage: one pass to count, one to write. The second never writes more or less than the first counted. */
  method EmitSubmessage(stream: OStream, schema: Schema, m: Message) returns (ok: bool)
    requires stream.Valid() && HasShape(schema, m) && WellFormed(schema)
    modifies stream
    ensures stream.Valid()
    ensures stream.Emits(ok, match Encode(schema, m) case None => None case Some(b) => Some(Sized(b)))
    decreases schema, |schema.fields| + 2
  {
    var substream := new OStream(false, [], 0);
    ok := EmitMessage(substream, schema, m);
    if !ok {
      return;
    }
    var size := substream.bytesWritten;
    ok := EmitVarint(stream, size);
    if !ok {
      return;
    }
    if !stream.writing {
      ok := stream.Write([], size);
      return;
    }
    if stream.bytesWritten + size > stream.maxSize {
      return false;
    }
    substream := new OStream(true, stream.state, size);
    var status := EmitMessage(substream, schema, m);
    assert status && substream.bytesWritten == size;
    stream.bytesWritten := stream.bytesWritten + substream.bytesWritten;
    stream.state := substream.state;
    return status && substream.bytesWritten == size;
  }

  /** encode_array. */
  method EmitArray(stream: OStream, f: Field, max: nat, items: seq<Datum>) returns (ok: bool)
    requires stream.Valid() && WellFormedField(f)
    requires forall j :: 0 <= j < |items| ==> Suits(f.kind, items[j])
    modifies stream
    ensures stream.Valid() && stream.Emits(ok, EncodeArray(f, max, items))
    decreases f, 0
  {
    if items == [] {
      return true;
    }
    if |items| > max {
      return false;
    }
    if !Packable(f.kind) {
      ok := EmitItems(stream, f.kind, items, Some(f.tag));
      return;
    }
    ok := EmitTag(stream, WT_STRING, f.tag);
    if ok {
      ok := EmitPacked(stream, f.kind, items);
    }
  }

  /** The packed form: the size of all items, and the items. */
  method EmitPacked(stream: OStream, k: Kind, items: seq<Datum>) returns (ok: bool)
    requires stream.Valid() && WellFormedKind(k) && Packable(k)
    requires forall j :: 0 <= j < |items| ==> Suits(k, items[j])
    modifies stream
    ensures stream.Valid()
    ensures stream.Emits(ok, match EncodeItems(k, items, []) case None => None case Some(b) => Some(Sized(b)))
    decreases k, 4
  {
    hide EncodeItems, EncodeVarint, Suits, WellFormedKind;
    var size := PackedSize(k, items);
    if size.None? {
      return false;
    }
    ok := EmitVarint(stream, size.value);
    if !ok {
      return;
    }
    if !stream.writing {
      ok := stream.Write([], size.value);
    } else {
      ok := EmitItems(stream, k, items, None);
    }
  }

  method PackedSize(k: Kind, items: seq<Datum>) returns (size: Option<nat>)
    requires WellFormedKind(k) && Packable(k)
    requires forall j :: 0 <= j < |items| ==> Suits(k, items[j])
    ensures size == match EncodeItems(k, items, []) case None => None case Some(b) => Some(|b|)
    decreases k, 3
  {
    if k.Fixed32? {
      FixedItems(k, 4, items);
      return Some(4 * |items|);
    }
    if k.Fixed64? {
      FixedItems(k, 8, items);
      return Some(8 * |items|);
    }
    var sizes := new OStream(false, [], 0);
    var ok := EmitItems(sizes, k, items, None);
    size := if ok then Some(sizes.bytesWritten) else None;
  }

  /** Items of a fixed width take so many bytes each. */
  lemma {:induction false} FixedItems(k: Kind, width: nat, items: seq<Datum>)
    requires (k.Fixed32? && width == 4) || (k.Fixed64? && width == 8)
    requires forall j :: 0 <= j < |items| ==> Suits(k, items[j])
    ensures EncodeItems(k, items, []).Some? && |EncodeItems(k, items, []).value| == width * |items|
    decreases |items|
  {
    if items != [] {
      FixedItems(k, width, items[1..]);
    }
  }

  /** The loops of encode_array: each item, after its tag if it has one. */
  method EmitItems(stream: OStream, k: Kind, items: seq<Datum>, tag: Option<nat>) returns (ok: bool)
    requires stream.Valid() && WellFormedKind(k)
    requires forall j :: 0 <= j < |items| ==> Suits(k, items[j])
    modifies stream
    ensures stream.Valid() && stream.Emits(ok, EncodeItems(k, items, Prefix(k, tag)))
    decreases k, 2
  {
    hide EncodeDatum, EncodeItems, EncodeTag, WireType, Suits, WellFormedKind, Prefix, Both;
    var i := 0;
    ghost var prefix, done: Bytes := Prefix(k, tag), [];
    NothingBefore(EncodeItems(k, items, prefix));
    assert items[0..] == items;
    while i < |items|
      invariant i <= |items| && stream.Valid() && stream.Emits(true, Some(done))
      invariant EncodeItems(k, items, prefix) == Both(Some(done), EncodeItems(k, items[i..], prefix))
    {
      ItemsFrom(k, items, i, prefix);
      ghost var item := Both(Some(prefix), EncodeDatum(k, items[i]));
      OneFieldMore(done, item, EncodeItems(k, items[i + 1..], prefix));
      ok := EmitItem(stream, k, items[i], tag);
      if !ok {
        return;
      }
      done := done + item.value;
      i := i + 1;
    }
    NoItemsFrom(k, items, prefix);
    NothingBefore(Some(done));
    return true;
  }

  lemma ItemsFrom(k: Kind, items: seq<Datum>, i: nat, prefix: Bytes)
    requires i < |items| && forall j :: 0 <= j < |items| ==> Suits(k, items[j])
    ensures EncodeItems(k, items[i..], prefix) ==
            Both(Both(Some(prefix), EncodeDatum(k, items[i])), EncodeItems(k, items[i + 1..], prefix))
  {
    hide EncodeDatum, Both, Suits;
    assert items[i..][1..] == items[i + 1..];
  }

  lemma NoItemsFrom(k: Kind, items: seq<Datum>, prefix: Bytes)
    requires forall j :: 0 <= j < |items| ==> Suits(k, items[j])
    ensures EncodeItems(k, items[|items|..], prefix) == Some([])
  {
  }

  /** Tag and data. */
  method EmitItem(stream: OStream, k: Kind, v: Datum, tag: Option<nat>) returns (ok: bool)
    requires stream.Valid() && WellFormedKind(k) && Suits(k, v)
    modifies stream
    ensures stream.Valid() && stream.Emits(ok, Both(Some(Prefix(k, tag)), EncodeDatum(k, v)))
    decreases k, 1
  {
    hide EncodeDatum, EncodeTag, WireType, Suits, WellFormedKind;
    NothingBefore(EncodeDatum(k, v));
    if tag.Some? {
      ok := EmitTag(stream, WireType(k), tag.value);
      if !ok {
        return;
      }
    }
    ok := EmitDatum(stream, k, v);
  }

  ghost function Prefix(k: Kind, tag: Option<nat>): Bytes {
    if tag.Some? then EncodeTag(WireType(k), tag.value) else []
  }

  /** pb_check_proto3_default_value: nothing in the data of a singular field differs from zero. */
  method CheckZero(k: Kind, v: Datum) returns (zero: bool)
    requires Suits(k, v)
    ensures zero == IsZero(k, v)
    decreases k, 0
  {
    match k
    case Blob(_) => zero := v.b == [];
    case Text(_) => zero := v.b == [] || v.b[0] == 0;
    case Inline(length) => zero := length == 0;
    case Sub(schema) =>
      var iter := new FieldIter(schema.fields);
      var more := schema.fields != [];
      while more
        invariant iter.Valid() && iter.fields == schema.fields && fresh(iter)
        invariant more ==> iter.pos < |schema.fields| && (AllAbsent(schema, v.m, 0) <==> AllAbsent(schema, v.m, iter.pos))
        invariant !more ==> AllAbsent(schema, v.m, 0)
        decreases if more then |schema.fields| - iter.pos else 0
      {
        var absent := CheckAbsent(schema.fields[iter.pos], v.m.slots[iter.pos], v.m.which);
        if !absent {
          return false;
        }
        more := iter.Next();
      }
      zero := true;
    case _ => zero := v.n == 0;
  }

  method CheckAbsent(f: Field, s: Slot, which: map<nat, nat>) returns (absent: bool)
    requires SlotSuits(f, s)
    ensures absent == FieldAbsent(f, s, which)
    decreases f, 0
  {
    match f.rule
    case Required => absent := false;
    case Optional => absent := !s.has;
    case Singular => absent := CheckZero(f.kind, s.items[0]);
    case Repeated(_) => absent := s.items == [];
    case OneOf(union) => absent := Which(which, union) == 0;
  }

  /** encode_basic_field. */
  method EmitField(stream: OStream, f: Field, s: Slot, which: map<nat, nat>) returns (ok: bool)
    requires stream.Valid() && WellFormedField(f) && SlotSuits(f, s)
    modifies stream
    ensures stream.Valid() && stream.Emits(ok, EncodeField(f, s, which))
    // Bytes are taken for a field that goes out, and for no other.
    ensures ok ==> (stream.bytesWritten > old(stream.bytesWritten) <==> GoesOut(f, s, which))
    decreases f, 3
  {
    FieldGoesOut(f, s, which);
    var present := true;
    match f.rule {
      case Required =>
      case Optional => present := s.has;
      case Singular =>
        var zero := CheckZero(f.kind, s.items[0]);
        present := !zero;
      case Repeated(max) =>
        ok := EmitArray(stream, f, max, s.items);
        return;
      case OneOf(union) => present := Which(which, union) == f.tag;
    }
    if !present {
      return true;
    }
    ok := EmitItem(stream, f.kind, s.items[0], Some(f.tag));
  }

  lemma FieldFacts(schema: Schema, m: Message, i: nat)
    requires WellFormed(schema) && HasShape(schema, m) && i < |schema.fields|
    ensures |m.slots| == |schema.fields| && WellFormedField(schema.fields[i]) && SlotSuits(schema.fields[i], m.slots[i])
  {
  }

  lemma OneFieldMore(done: Bytes, field: Option<Bytes>, rest: Option<Bytes>)
    ensures var whole := Both(Some(done), Both(field, rest));
      if field.None? || rest.None? then whole.None? else whole == Some(done + field.value + rest.value)
    ensures field.Some? ==> Both(Some(done), Both(field, rest)) == Both(Some(done + field.value), rest)
    ensures Both(field, Some([])) == field
  {
    BothAssociates(Some(done), field, rest);
    NothingBefore(field);
  }

  /** pb_encode: every field in the order of the schema. */
  method EmitMessage(stream: OStream, schema: Schema, m: Message) returns (ok: bool)
    requires stream.Valid() && WellFormed(schema) && HasShape(schema, m)
    modifies stream
    ensures stream.Valid() && stream.Emits(ok, Encode(schema, m))
    decreases schema, 0
  {
    hide EncodeField, SlotSuits, WellFormedField, EncodeFrom, HasShape, WellFormed, Both;
    var iter := new FieldIter(schema.fields);
    LastFrom(schema, m);
    OneFieldMore([], Some([]), Encode(schema, m));
    if schema.fields == [] {
      return true;
    }
    var more := true;
    ghost var done: Bytes := [];
    NothingBefore(Encode(schema, m));
    while more
      invariant iter.Valid() && iter.fields == schema.fields && fresh(iter) && stream.Valid() && stream.Emits(true, Some(done))
      invariant more ==> iter.pos < |schema.fields| && Encode(schema, m) == Both(Some(done), EncodeFrom(schema, m, iter.pos))
      invariant !more ==> Encode(schema, m) == Some(done)
      decreases if more then |schema.fields| - iter.pos else 0
    {
      var i := iter.pos;
      FieldFacts(schema, m, i);
      NextFrom(schema, m, i);
      OneFieldMore(done, EncodeField(schema.fields[i], m.slots[i], m.which), EncodeFrom(schema, m, i + 1));
      ok := EmitField(stream, schema.fields[i], m.slots[i], m.which);
      if !ok {
        return;
      }
      done := done + EncodeField(schema.fields[i], m.slots[i], m.which).value;
      more := iter.Next();
      NothingBefore(Some(done));
    }
    return true;
  }

  lemma NextFrom(schema: Schema, m: Message, i: nat)
    requires HasShape(schema, m) && i < |schema.fields|
    ensures EncodeFrom(schema, m, i) == Both(EncodeField(schema.fields[i], m.slots[i], m.which), EncodeFrom(schema, m, i + 1))
  {
  }

  lemma LastFrom(schema: Schema, m: Message)
    requires HasShape(schema, m)
    ensures EncodeFrom(schema, m, |schema.fields|) == Some([])
  {
  }

  /** pb_get_encoded_size: what a writing pass would write. */
  method EncodedSize(schema: Schema, m: Message) returns (size: Option<nat>)
    requires WellFormed(schema) && HasShape(schema, m)
    ensures size == match Encode(schema, m) case None => None case Some(b) => Some(|b|)
  {
    var stream := new OStream(false, [], 0);
    var ok := EmitMessage(stream, schema, m);
    size := if ok then Some(stream.bytesWritten) else None;
  }
}
