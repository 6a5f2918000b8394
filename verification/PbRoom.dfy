/** Decoding stays inside the struct, whatever the bytes; and what was decoded can be encoded again. */
module PbRoom {
  import opened DbFormat
  import opened Coding
  import opened PbFormat
  import opened PbParse
  import opened PbItems
  import opened PbRoundTrip

  lemma {:induction false} DefaultInRoom(f: Field)
    requires WellFormedField(f)
    ensures Suits(f.kind, DefaultDatum(f)) && InRoom(f.kind, DefaultDatum(f))
    ensures SlotSuits(f, DefaultSlot(f)) && SlotInRoom(f, DefaultSlot(f))
    decreases f
  {
    DefaultSuits(f);
    if f.kind.Sub? {
      DefaultMessageInRoom(f.kind.schema);
    }
  }

  lemma {:induction false} DefaultMessageInRoom(schema: Schema)
    requires WellFormed(schema)
    ensures HasShape(schema, Default(schema)) && MessageInRoom(schema, Default(schema))
    decreases schema
  {
    DefaultHasShape(schema);
    forall i | 0 <= i < |schema.fields| ensures SlotInRoom(schema.fields[i], Default(schema).slots[i]) {
      DefaultInRoom(schema.fields[i]);
    }
  }

  lemma ScalarInRoom(k: Kind, input: Bytes)
    requires !k.Sub? && ParseScalar(k, input).Some? && Suits(k, ParseScalar(k, input).value.0)
    ensures InRoom(k, ParseScalar(k, input).value.0)
  {
    hide Varint32, Varint64;
  }

  lemma {:induction false} PackedInRoom(k: Kind, max: nat, items: seq<Datum>, input: Bytes)
    requires Packable(k) && |items| <= max && ParsePacked(k, max, items, input).Some?
    ensures |ParsePacked(k, max, items, input).value.0| <= max
    decreases |input|
  {
    hide ParseScalar;
    if input != [] && |items| < max {
      var (v, rest) := ParseScalar(k, input).value;
      PackedInRoom(k, max, items + [v], rest);
    }
  }

  lemma {:induction false} DatumInRoom(k: Kind, old_: Datum, input: Bytes)
    requires WellFormedKind(k) && (k.Sub? ==> Suits(k, old_) && InRoom(k, old_)) && ParseDatum(k, old_, input).Some?
    ensures InRoom(k, ParseDatum(k, old_, input).value.0)
    decreases k, 0
  {
    match k
    case Sub(schema) => FieldsInRoom(schema, TakeSized(input).value.0, old_.m, {});
    case _ => ScalarInRoom(k, input);
  }

  lemma {:induction false} FieldInRoom(f: Field, wireType: nat, s: Slot, input: Bytes)
    requires WellFormedField(f) && SlotSuits(f, s) && SlotInRoom(f, s) && ParseField(f, wireType, s, input).Some?
    ensures SlotInRoom(f, ParseField(f, wireType, s, input).value.0)
    decreases f, 0
  {
    hide ParseDatum, PackedField;
    DefaultInRoom(f);
    if f.rule.Repeated? && wireType == WT_STRING && Packable(f.kind) {
      PackedFieldInRoom(f.kind, f.rule.max, s.items, input);
    } else {
      DatumInRoom(f.kind, if f.rule.Repeated? then DefaultDatum(f) else Target(f, s), input);
    }
  }

  lemma PackedFieldInRoom(k: Kind, max: nat, items: seq<Datum>, input: Bytes)
    requires Packable(k) && |items| <= max && PackedField(k, max, items, input).Some?
    ensures |PackedField(k, max, items, input).value.0| <= max
    ensures forall v :: Suits(k, v) ==> InRoom(k, v)
  {
    PackedInRoom(k, max, items, TakeSized(input).value.0);
  }

  /** Decoding any bytes into a message that is in its room leaves one that is. */
  lemma {:induction false} FieldsInRoom(schema: Schema, input: Bytes, m: Message, seen: set<nat>)
    requires WellFormed(schema) && HasShape(schema, m) && MessageInRoom(schema, m)
    requires ParseFields(schema, input, m, seen).Some?
    ensures MessageInRoom(schema, ParseFields(schema, input, m, seen).value.0)
    decreases schema, |input|
  {
    hide ParseField, ParseTag, Skip, Varint32, SlotInRoom, SlotSuits, WellFormedField;
    if input != [] {
      match ParseTurn(schema, input, m, seen)
      case Went(next, nowSeen, rest) =>
        TurnInRoom(schema, input, m, seen);
        FieldsInRoom(schema, rest, next, nowSeen);
      case _ =>
    }
  }

  lemma {:induction false} TurnInRoom(schema: Schema, input: Bytes, m: Message, seen: set<nat>)
    requires WellFormed(schema) && HasShape(schema, m) && MessageInRoom(schema, m) && ParseTurn(schema, input, m, seen).Went?
    ensures MessageInRoom(schema, ParseTurn(schema, input, m, seen).m)
    decreases schema, 0
  {
    hide ParseField, Skip, Varint32, SlotInRoom, SlotSuits, WellFormedField;
    var read := ParseTag(input);
    if Find(schema.fields, read.tag).Some? {
      var i := Find(schema.fields, read.tag).value;
      FieldInRoom(schema.fields[i], read.wireType, m.slots[i], read.rest);
    }
  }

  // ----- Encoding what was decoded -----

  /** The encoder rejects nothing that is in its room. */
  lemma {:induction false} RoomyDatumEncodes(k: Kind, v: Datum)
    requires WellFormedKind(k) && Suits(k, v) && InRoom(k, v)
    ensures EncodeDatum(k, v).Some? && Terminated(k, v)
    decreases k, 0
  {
    if k.Sub? {
      RoomyFieldsEncode(k.schema, v.m, 0);
    }
  }

  lemma {:induction false} RoomyItemsEncode(k: Kind, items: seq<Datum>, prefix: Bytes)
    requires WellFormedKind(k) && forall j :: 0 <= j < |items| ==> Suits(k, items[j]) && InRoom(k, items[j])
    ensures EncodeItems(k, items, prefix).Some? && forall j :: 0 <= j < |items| ==> Terminated(k, items[j])
    decreases k, 1, |items|
  {
    if items != [] {
      RoomyDatumEncodes(k, items[0]);
      RoomyItemsEncode(k, items[1..], prefix);
      forall j | 0 <= j < |items| ensures Terminated(k, items[j]) {
        if j > 0 {
          assert items[j] == items[1..][j - 1];
        }
      }
    }
  }

  lemma {:induction false} RoomyFieldEncodes(f: Field, s: Slot, which: map<nat, nat>)
    requires WellFormedField(f) && SlotSuits(f, s) && SlotInRoom(f, s)
    ensures EncodeField(f, s, which).Some? && TerminatedField(f, s, which)
    decreases f
  {
    hide EncodeDatum, Terminated, InRoom;
    if f.rule.Repeated? {
      RoomyItemsEncode(f.kind, s.items, []);
      RoomyItemsEncode(f.kind, s.items, EncodeTag(WireType(f.kind), f.tag));
    } else {
      RoomyDatumEncodes(f.kind, s.items[0]);
    }
  }

  lemma {:induction false} RoomyFieldsEncode(schema: Schema, m: Message, i: nat)
    requires WellFormed(schema) && HasShape(schema, m) && MessageInRoom(schema, m) && i <= |schema.fields|
    ensures EncodeFrom(schema, m, i).Some? && TerminatedFrom(schema, m, i)
    decreases schema, |schema.fields| - i
  {
    hide EncodeField, TerminatedField, SlotInRoom, SlotSuits, WellFormedField;
    if i < |schema.fields| {
      RoomyFieldEncodes(schema.fields[i], m.slots[i], m.which);
      RoomyFieldsEncode(schema, m, i + 1);
    }
  }

  /** Any bytes the decoder accepts give a message inside its struct, which the encoder takes and the decoder takes back. */
  lemma DecodedEncodes(schema: Schema, input: Bytes)
    requires WellFormed(schema) && Decode(schema, input).Some?
    ensures var m := Decode(schema, input).value.0;
      && MessageInRoom(schema, m)
      && Encode(schema, m).Some?
      && (|Encode(schema, m).value| < TWO32 ==> Decode(schema, Encode(schema, m).value) == Some((Received(schema, m), [])))
  {
    DefaultMessageInRoom(schema);
    FieldsInRoom(schema, input, Default(schema), {});
    var m := Decode(schema, input).value.0;
    RoomyFieldsEncode(schema, m, 0);
    if |Encode(schema, m).value| < TWO32 {
      MessageRoundTrip(schema, m);
    }
  }
}
