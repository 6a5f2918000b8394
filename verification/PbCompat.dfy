/** Fields of a schema the decoder does not know are passed over. */
module PbCompat {
  import opened DbFormat
  import opened Coding
  import opened PbFormat
  import opened PbParse
  import opened PbVarints
  import opened PbItems
  import opened PbRoundTrip

  lemma {:induction false} VarintSkips(w: nat, rest: Bytes)
    ensures SkipVarint(EncodeVarint(w) + rest) == Some(rest)
  {
    var e := EncodeVarint(w) + rest;
    if w >= 128 {
      assert e[1..] == EncodeVarint(w / 128) + rest;
      VarintSkips(w / 128, rest);
    } else {
      assert e[1..] == rest;
    }
  }

  /** The wire type alone tells where an item ends. */
  lemma DatumSkips(k: Kind, v: Datum, rest: Bytes)
    requires WellFormedKind(k) && Suits(k, v) && EncodeDatum(k, v).Some? && |EncodeDatum(k, v).value| < TWO32
    ensures Skip(WireType(k), EncodeDatum(k, v).value + rest) == Some(rest)
  {
    hide EncodeVarint, SkipVarint, TakeSized, EncodeFixed32, EncodeFixed64, EncodeFrom;
    match k
    case Bool => VarintSkips(if v.n != 0 then 1 else 0, rest);
    case Varint(_) => VarintSkips(v.n % TWO64, rest);
    case UVarint(_) => VarintSkips(v.n, rest);
    case SVarint(_) => VarintSkips(ZigZag(v.n), rest);
    case Fixed32 => FixedEnds(EncodeFixed32(v.n), rest);
    case Fixed64 => FixedEnds(EncodeFixed64(v.n), rest);
    case Blob(_) => SizedReads(v.b, rest);
    case Text(_) => SizedReads(CString(v.b), rest);
    case Sub(schema) => SizedReads(EncodeFrom(schema, v.m, 0).value, rest);
    case Inline(_) => SizedReads(v.b, rest);
  }

  ghost predicate Unknown(schema: Schema, tag: nat) {
    forall i :: 0 <= i < |schema.fields| ==> schema.fields[i].tag != tag
  }

  lemma UnknownTurn(schema: Schema, m: Message, wireType: nat, tag: nat, data: Bytes, rest: Bytes, seen: set<nat>)
    requires WellFormed(schema) && HasShape(schema, m) && Unknown(schema, tag)
    requires wireType < 8 && 0 < tag < 0x2000_0000 && Skip(wireType, data + rest) == Some(rest)
    ensures ParseFields(schema, EncodeTag(wireType, tag) + (data + rest), m, seen) == ParseFields(schema, rest, m, seen)
  {
    hide Skip, EncodeTag, ParseTag;
    TagReads(wireType, tag, data + rest);
    TagNotEmpty(wireType, tag);
  }

  lemma {:induction false} UnknownItems(schema: Schema, m: Message, f: Field, items: seq<Datum>, rest: Bytes, seen: set<nat>)
    requires WellFormed(schema) && HasShape(schema, m) && Unknown(schema, f.tag) && WellFormedField(f)
    requires forall j :: 0 <= j < |items| ==> Suits(f.kind, items[j])
    requires var b := EncodeItems(f.kind, items, EncodeTag(WireType(f.kind), f.tag)); b.Some? && |b.value| < TWO32
    ensures ParseFields(schema, EncodeItems(f.kind, items, EncodeTag(WireType(f.kind), f.tag)).value + rest, m, seen) ==
      ParseFields(schema, rest, m, seen)
    decreases |items|
  {
    hide ParseFields, EncodeDatum, EncodeTag, Suits;
    var tag := EncodeTag(WireType(f.kind), f.tag);
    if items == [] {
      assert [] + rest == rest;
    } else {
      var item, others := EncodeDatum(f.kind, items[0]).value, EncodeItems(f.kind, items[1..], tag).value;
      assert tag + item + others + rest == tag + (item + (others + rest));
      DatumSkips(f.kind, items[0], others + rest);
      UnknownTurn(schema, m, WireType(f.kind), f.tag, item, others + rest, seen);
      UnknownItems(schema, m, f, items[1..], rest, seen);
    }
  }

  /** On the wire a packed array is one field, whose data are all its items. */
  lemma PackedIsOneField(f: Field, items: seq<Datum>, rest: Bytes)
    requires WellFormedField(f) && f.rule.Repeated? && Packable(f.kind) && 0 < |items| <= f.rule.max
    requires forall j :: 0 <= j < |items| ==> Suits(f.kind, items[j])
    requires var b := EncodeItems(f.kind, items, []); b.Some? && |b.value| < TWO32
    ensures EncodeArray(f, f.rule.max, items).Some?
    ensures var read := ParseTag(EncodeArray(f, f.rule.max, items).value + rest);
      && read.TagRead? && read.wireType == 2 && read.tag == f.tag
      && TakeSized(read.rest) == Some((EncodeItems(f.kind, items, []).value, rest))
  {
    hide EncodeItems, EncodeTag, Sized, Suits;
    var body := EncodeItems(f.kind, items, []).value;
    assert EncodeTag(WT_STRING, f.tag) + Sized(body) + rest == EncodeTag(WT_STRING, f.tag) + (Sized(body) + rest);
    TagReads(WT_STRING, f.tag, Sized(body) + rest);
    SizedReads(body, rest);
  }

  /** Any other array is one field for each item. */
  lemma ItemsAreFields(f: Field, items: seq<Datum>, rest: Bytes)
    requires WellFormedField(f) && f.rule.Repeated? && !Packable(f.kind) && 0 < |items| <= f.rule.max
    requires forall j :: 0 <= j < |items| ==> Suits(f.kind, items[j])
    requires EncodeArray(f, f.rule.max, items).Some? && |EncodeArray(f, f.rule.max, items).value| < TWO32
    ensures EncodeArray(f, f.rule.max, items[1..]).Some?
    ensures var read := ParseTag(EncodeArray(f, f.rule.max, items).value + rest);
      && read.TagRead? && read.wireType == WireType(f.kind) && read.tag == f.tag
      && Skip(read.wireType, read.rest) == Some(EncodeArray(f, f.rule.max, items[1..]).value + rest)
  {
    hide EncodeDatum, EncodeTag, Suits;
    var tag := EncodeTag(WireType(f.kind), f.tag);
    var item, others := EncodeDatum(f.kind, items[0]).value, EncodeItems(f.kind, items[1..], tag).value;
    assert tag + item + others + rest == tag + (item + (others + rest));
    DatumSkips(f.kind, items[0], others + rest);
    TagReads(WireType(f.kind), f.tag, item + (others + rest));
  }

  /** A whole field of another schema, present or not, repeated or not, leaves the message as it is. */
  lemma UnknownFieldIsSkipped(schema: Schema, m: Message, f: Field, s: Slot, which: map<nat, nat>, rest: Bytes, seen: set<nat>)
    requires WellFormed(schema) && HasShape(schema, m) && Unknown(schema, f.tag) && WellFormedField(f) && SlotSuits(f, s)
    requires EncodeField(f, s, which).Some? && |EncodeField(f, s, which).value| < TWO32
    ensures ParseFields(schema, EncodeField(f, s, which).value + rest, m, seen) == ParseFields(schema, rest, m, seen)
  {
    hide ParseFields, EncodeDatum, EncodeTag, Suits;
    var tag := EncodeTag(WireType(f.kind), f.tag);
    assert [] + rest == rest;
    if f.rule.Repeated? {
      if s.items != [] && Packable(f.kind) {
        var b := Sized(EncodeItems(f.kind, s.items, []).value);
        assert EncodeTag(WT_STRING, f.tag) + b + rest == EncodeTag(WT_STRING, f.tag) + (b + rest);
        SizedReads(EncodeItems(f.kind, s.items, []).value, rest);
        UnknownTurn(schema, m, WT_STRING, f.tag, b, rest, seen);
      } else if s.items != [] {
        UnknownItems(schema, m, f, s.items, rest, seen);
      }
    } else if Present(f, s, which) {
      var item := EncodeDatum(f.kind, s.items[0]).value;
      assert tag + item + rest == tag + (item + rest);
      DatumSkips(f.kind, s.items[0], rest);
      UnknownTurn(schema, m, WireType(f.kind), f.tag, item, rest, seen);
    }
  }
}
