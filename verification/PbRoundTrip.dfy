/** Decoding what was encoded: what the receiver holds, told from what the sender held. */
module PbRoundTrip {
  import opened DbFormat
  import opened Coding
  import opened PbFormat
  import opened PbParse
  import opened PbItems
  import opened PbMerge

  // ----- What comes back -----

  /** A scalar as it comes back, a message with its fields as they come back. */
  ghost function ReceivedDatum(k: Kind, v: Datum): (r: Datum)
    requires Suits(k, v)
    decreases k, 0
  {
    match k
    case Sub(schema) => Struct(ReceivedUpTo(schema, v.m, |schema.fields|))
    case _ => ReceivedScalar(k, v)
  }

  ghost function ReceivedItems(k: Kind, items: seq<Datum>): (r: seq<Datum>)
    requires forall j :: 0 <= j < |items| ==> Suits(k, items[j])
    ensures |r| == |items| && forall j :: 0 <= j < |items| ==> r[j] == ReceivedDatum(k, items[j])
    decreases k, 1
  {
    seq(|items|, j requires 0 <= j < |items| => ReceivedDatum(k, items[j]))
  }

  /** A required or singular field comes back as it was, zero or not; an optional one with its flag, if that was set; a field of a
      union if the union was set to it; an array with all its items. */
  ghost function ReceivedSlot(f: Field, s: Slot, which: map<nat, nat>): Slot
    requires SlotSuits(f, s)
    decreases f, 3
  {
    match f.rule
    case Required => Slot(false, [ReceivedDatum(f.kind, s.items[0])])
    case Singular => Slot(false, [ReceivedDatum(f.kind, s.items[0])])
    case Optional => if s.has then Slot(true, [ReceivedDatum(f.kind, s.items[0])]) else DefaultSlot(f)
    case OneOf(union) => if Which(which, union) == f.tag then Slot(false, [ReceivedDatum(f.kind, s.items[0])]) else DefaultSlot(f)
    case Repeated(_) => Slot(false, ReceivedItems(f.kind, s.items))
  }

  /** One of the first `n` fields belongs to the union and has the tag. */
  ghost predicate Named(fields: seq<Field>, n: nat, union: nat, tag: nat)
    requires n <= |fields|
  {
    exists j :: 0 <= j < n && fields[j].rule == OneOf(union) && fields[j].tag == tag
  }

  /** Unions are set as the sender has them, those set to one of the first `n` fields. */
  ghost function ReceivedWhich(fields: seq<Field>, which: map<nat, nat>, n: nat): map<nat, nat>
    requires n <= |fields|
  {
    map u | u in which && Named(fields, n, u, which[u]) :: which[u]
  }

  /** The message once the fields before `n` have come in; the others are as in a cleared struct. */
  ghost function ReceivedUpTo(schema: Schema, m: Message, n: nat): Message
    requires HasShape(schema, m) && n <= |schema.fields|
    decreases schema
  {
    Message(
      seq(|schema.fields|, i requires 0 <= i < |schema.fields| =>
        if i < n then ReceivedSlot(schema.fields[i], m.slots[i], m.which) else DefaultSlot(schema.fields[i])),
      ReceivedWhich(schema.fields, m.which, n))
  }

  /** The decoder's message. */
  ghost function Received(schema: Schema, m: Message): Message
    requires HasShape(schema, m)
  {
    ReceivedUpTo(schema, m, |schema.fields|)
  }

  // ----- What the decoder rejects -----

  /** Every string that is sent ends before its buffer does. */
  ghost predicate Terminated(k: Kind, v: Datum)
    requires Suits(k, v)
    decreases k, 0
  {
    match k
    case Sub(schema) => TerminatedFrom(schema, v.m, 0)
    case _ => EndsInside(k, v)
  }

  ghost predicate TerminatedField(f: Field, s: Slot, which: map<nat, nat>)
    requires SlotSuits(f, s)
    decreases f, 3
  {
    match f.rule
    case Optional => s.has ==> Terminated(f.kind, s.items[0])
    case OneOf(union) => Which(which, union) == f.tag ==> Terminated(f.kind, s.items[0])
    case _ => forall j :: 0 <= j < |s.items| ==> Terminated(f.kind, s.items[j])
  }

  ghost predicate TerminatedFrom(schema: Schema, m: Message, i: nat)
    requires HasShape(schema, m) && i <= |schema.fields|
    decreases schema, |schema.fields| - i
  {
    i < |schema.fields| ==> TerminatedField(schema.fields[i], m.slots[i], m.which) && TerminatedFrom(schema, m, i + 1)
  }

  // ----- Merging into a cleared struct -----

  lemma {:induction false} ReceivedSuits(k: Kind, v: Datum)
    requires WellFormedKind(k) && Suits(k, v)
    ensures Suits(k, ReceivedDatum(k, v))
    decreases k
  {
    if k.Sub? {
      ReceivedHasShape(k.schema, v.m, |k.schema.fields|);
    }
  }

  lemma {:induction false} ReceivedSlotSuits(f: Field, s: Slot, which: map<nat, nat>)
    requires WellFormedField(f) && SlotSuits(f, s)
    ensures SlotSuits(f, ReceivedSlot(f, s, which)) && SlotSuits(f, DefaultSlot(f))
    decreases f
  {
    hide Suits, WellFormedKind;
    DefaultSuits(f);
    forall j | 0 <= j < |s.items| ensures Suits(f.kind, ReceivedDatum(f.kind, s.items[j])) {
      ReceivedSuits(f.kind, s.items[j]);
    }
  }

  lemma {:induction false} ReceivedHasShape(schema: Schema, m: Message, n: nat)
    requires WellFormed(schema) && HasShape(schema, m) && n <= |schema.fields|
    ensures HasShape(schema, ReceivedUpTo(schema, m, n))
    decreases schema
  {
    hide SlotSuits, WellFormedField, ReceivedSlot;
    forall i | 0 <= i < |schema.fields| ensures SlotSuits(schema.fields[i], ReceivedUpTo(schema, m, n).slots[i]) {
      ReceivedSlotSuits(schema.fields[i], m.slots[i], m.which);
    }
  }

  /** A message that is absent comes back as one that was cleared. */
  lemma {:induction false} AbsentIsDefault(f: Field, s: Slot, which: map<nat, nat>)
    requires WellFormedField(f) && SlotSuits(f, s) && FieldAbsent(f, s, which)
    ensures ReceivedSlot(f, s, which) == DefaultSlot(f) && TerminatedField(f, s, which)
    decreases f, 1
  {
    if f.rule.Singular? {
      ZeroIsDefault(f, s.items[0]);
    }
  }

  lemma {:induction false} ZeroIsDefault(f: Field, v: Datum)
    requires WellFormedField(f) && Suits(f.kind, v) && f.initial.None? && IsZero(f.kind, v)
    ensures ReceivedDatum(f.kind, v) == DefaultDatum(f) && Terminated(f.kind, v)
    decreases f, 0
  {
    if f.kind.Sub? {
      AllAbsentIsDefault(f.kind.schema, v.m);
    }
  }

  lemma {:induction false} AbsentField(schema: Schema, m: Message, i: nat, j: nat)
    requires HasShape(schema, m) && i <= j < |schema.fields| && AllAbsent(schema, m, i)
    ensures FieldAbsent(schema.fields[j], m.slots[j], m.which)
    decreases j - i
  {
    hide FieldAbsent, SlotSuits;
    if i < j {
      AbsentField(schema, m, i + 1, j);
    }
  }

  lemma {:induction false} AllAbsentIsDefault(schema: Schema, m: Message)
    requires WellFormed(schema) && HasShape(schema, m) && AllAbsent(schema, m, 0)
    ensures ReceivedUpTo(schema, m, |schema.fields|) == Default(schema) && TerminatedFrom(schema, m, 0)
    decreases schema
  {
    hide SlotSuits, WellFormedField, ReceivedSlot, TerminatedField, DefaultSlot, AllAbsent, FieldAbsent;
    var n := |schema.fields|;
    forall i | 0 <= i < n
      ensures ReceivedSlot(schema.fields[i], m.slots[i], m.which) == DefaultSlot(schema.fields[i])
      ensures TerminatedField(schema.fields[i], m.slots[i], m.which)
    {
      AbsentField(schema, m, 0, i);
      AbsentIsDefault(schema.fields[i], m.slots[i], m.which);
    }
    AllTerminated(schema, m, 0);
    assert ReceivedUpTo(schema, m, n).slots == Default(schema).slots;
    forall u | u in m.which && Named(schema.fields, n, u, m.which[u]) ensures false {
      var j :| 0 <= j < n && schema.fields[j].rule == OneOf(u) && schema.fields[j].tag == m.which[u];
      AbsentField(schema, m, 0, j);
      AbsentUnion(schema.fields[j], m.slots[j], m.which);
    }
    assert ReceivedWhich(schema.fields, m.which, n) == map[];
  }

  lemma AbsentUnion(f: Field, s: Slot, which: map<nat, nat>)
    requires WellFormedField(f) && SlotSuits(f, s) && FieldAbsent(f, s, which) && f.rule.OneOf?
    ensures f.tag > 0 && Which(which, f.rule.union) == 0
  {
  }

  lemma {:induction false} AllTerminated(schema: Schema, m: Message, i: nat)
    requires HasShape(schema, m) && i <= |schema.fields|
    requires forall j :: 0 <= j < |schema.fields| ==> TerminatedField(schema.fields[j], m.slots[j], m.which)
    ensures TerminatedFrom(schema, m, i)
    decreases |schema.fields| - i
  {
    hide TerminatedField, SlotSuits;
    if i < |schema.fields| {
      AllTerminated(schema, m, i + 1);
    }
  }

  /** Merging a value into a fresh one gives it as it is received, under the same condition. */
  lemma {:induction false} MergedIsReceived(k: Kind, fresh_: Datum, v: Datum)
    requires WellFormedKind(k) && Suits(k, v) && EncodeDatum(k, v).Some?
    requires k.Sub? ==> fresh_ == Struct(Default(k.schema)) && Suits(k, fresh_)
    ensures MergedDatum(k, fresh_, v) == ReceivedDatum(k, v) && (Taken(k, fresh_, v) <==> Terminated(k, v))
    decreases k, 0
  {
    hide ReceivedScalar, EndsInside, ReceivedUpTo, TerminatedFrom, Merged, AllTaken;
    if k.Sub? {
      NothingReceived(k.schema, v.m);
      FieldsReceived(k.schema, v.m, 0);
    }
  }

  lemma NothingReceived(schema: Schema, m: Message)
    requires HasShape(schema, m)
    ensures ReceivedUpTo(schema, m, 0) == Default(schema)
  {
    assert ReceivedWhich(schema.fields, m.which, 0) == map[];
  }

  lemma {:induction false} ItemsReceived(f: Field, items: seq<Datum>)
    requires WellFormedField(f) && Suits(f.kind, DefaultDatum(f)) && forall j :: 0 <= j < |items| ==> Suits(f.kind, items[j])
    requires forall j :: 0 <= j < |items| ==> EncodeDatum(f.kind, items[j]).Some?
    ensures MergedItems(f.kind, DefaultDatum(f), items) == ReceivedItems(f.kind, items)
    ensures ItemsTaken(f.kind, DefaultDatum(f), items) <==> forall j :: 0 <= j < |items| ==> Terminated(f.kind, items[j])
    decreases f, 0
  {
    hide Suits, WellFormedKind, MergedDatum, ReceivedDatum, Taken, Terminated, EncodeDatum;
    forall j | 0 <= j < |items|
      ensures MergedDatum(f.kind, DefaultDatum(f), items[j]) == ReceivedDatum(f.kind, items[j])
      ensures Taken(f.kind, DefaultDatum(f), items[j]) <==> Terminated(f.kind, items[j])
    {
      MergedIsReceived(f.kind, DefaultDatum(f), items[j]);
    }
  }

  lemma {:induction false} ItemsEncode(k: Kind, items: seq<Datum>, prefix: Bytes)
    requires (forall j :: 0 <= j < |items| ==> Suits(k, items[j])) && EncodeItems(k, items, prefix).Some?
    ensures forall j :: 0 <= j < |items| ==> EncodeDatum(k, items[j]).Some?
    decreases |items|
  {
    hide EncodeDatum, Suits;
    if items != [] {
      ItemsEncode(k, items[1..], prefix);
      assert forall j :: 0 < j < |items| ==> items[j] == items[1..][j - 1];
    }
  }

  /** One field that comes into a cleared slot, or stays away. */
  lemma {:induction false} FieldReceived(f: Field, s: Slot, which: map<nat, nat>)
    requires WellFormedField(f) && SlotSuits(f, s) && SlotSuits(f, DefaultSlot(f)) && EncodeField(f, s, which).Some?
    ensures if f.rule.Repeated? || Present(f, s, which) then ReceivedSlot(f, s, which) == MergedSlot(f, DefaultSlot(f), s)
            else ReceivedSlot(f, s, which) == DefaultSlot(f)
    ensures FieldTaken(f, DefaultSlot(f), s, which) <==> TerminatedField(f, s, which)
    decreases f, 1
  {
    hide EncodeDatum, ReceivedDatum, MergedDatum, Taken, Terminated, Suits, WellFormedKind, MergedItems, ItemsTaken, ReceivedItems, IsZero;
    DefaultSuits(f);
    if f.rule.Repeated? {
      if s.items != [] {
        ItemsEncode(f.kind, s.items, if Packable(f.kind) then [] else EncodeTag(WireType(f.kind), f.tag));
      }
      ItemsReceived(f, s.items);
      assert [] + MergedItems(f.kind, DefaultDatum(f), s.items) == MergedItems(f.kind, DefaultDatum(f), s.items);
    } else if Present(f, s, which) {
      MergedIsReceived(f.kind, DefaultDatum(f), s.items[0]);
    } else if f.rule.Singular? {
      ZeroIsDefault(f, s.items[0]);
    }
  }

  /** The message with one more field. */
  lemma {:induction false} OneMoreReceived(schema: Schema, m: Message, i: nat)
    requires WellFormed(schema) && HasShape(schema, m) && i < |schema.fields|
    requires HasShape(schema, ReceivedUpTo(schema, m, i)) && EncodeField(schema.fields[i], m.slots[i], m.which).Some?
    ensures var f, s, o := schema.fields[i], m.slots[i], ReceivedUpTo(schema, m, i);
      && o.slots[i] == DefaultSlot(f)
      && MergedField(schema, o, Piece(i, s, m.which)) == ReceivedUpTo(schema, m, i + 1)
      && (FieldTaken(f, o.slots[i], s, m.which) <==> TerminatedField(f, s, m.which))
    decreases schema, 0
  {
    hide SlotSuits, WellFormedField, ReceivedSlot, DefaultSlot, MergedSlot, TerminatedField, FieldTaken, EncodeField, Present, Named;
    var f, s, o, after := schema.fields[i], m.slots[i], ReceivedUpTo(schema, m, i), ReceivedUpTo(schema, m, i + 1);
    FieldReceived(f, s, m.which);
    assert after.slots == o.slots[i := ReceivedSlot(f, s, m.which)];
    UnionReceived(f, s, schema.fields, m.which, i);
    assert o.slots[i := o.slots[i]] == o.slots;
  }

  lemma UnionReceived(f: Field, s: Slot, fields: seq<Field>, which: map<nat, nat>, i: nat)
    requires i < |fields| && fields[i] == f && WellFormedField(f) && SlotSuits(f, s)
    ensures ReceivedWhich(fields, which, i + 1) ==
      if f.rule.OneOf? && Present(f, s, which) then ReceivedWhich(fields, which, i)[f.rule.union := f.tag]
      else ReceivedWhich(fields, which, i)
  {
    hide Suits, WellFormedKind;
    forall u, t ensures Named(fields, i + 1, u, t) <==> Named(fields, i, u, t) || (f.rule == OneOf(u) && f.tag == t) {
    }
  }

  lemma {:induction false} FieldsReceived(schema: Schema, m: Message, i: nat)
    requires WellFormed(schema) && HasShape(schema, m) && i <= |schema.fields| && EncodeFrom(schema, m, i).Some?
    ensures HasShape(schema, ReceivedUpTo(schema, m, i))
    ensures Merged(schema, ReceivedUpTo(schema, m, i), PiecesFrom(schema, m, i)) == Received(schema, m)
    ensures AllTaken(schema, ReceivedUpTo(schema, m, i), PiecesFrom(schema, m, i)) <==> TerminatedFrom(schema, m, i)
    decreases schema, |schema.fields| - i
  {
    hide EncodeField, SlotSuits, WellFormedField, MergedField, FieldTaken, TerminatedField, ReceivedUpTo;
    ReceivedHasShape(schema, m, i);
    if i < |schema.fields| {
      OneMoreReceived(schema, m, i);
      FieldsReceived(schema, m, i + 1);
      assert PiecesFrom(schema, m, i)[1..] == PiecesFrom(schema, m, i + 1);
    }
  }

  // ----- The results -----

  /** Decoding an encoded message. */
  lemma MessageRoundTrip(schema: Schema, m: Message)
    requires WellFormed(schema) && HasShape(schema, m) && Encode(schema, m).Some? && |Encode(schema, m).value| < TWO32
    ensures Decode(schema, Encode(schema, m).value) == if TerminatedFrom(schema, m, 0) then Some((Received(schema, m), [])) else None
  {
    hide ParseFields, ReceivedUpTo, TerminatedFrom, Merged, AllTaken;
    DefaultHasShape(schema);
    FieldsArePieces(schema, m, 0);
    PiecesMerge(schema, PiecesFrom(schema, m, 0), Default(schema), {});
    AllSeen(schema, m);
    NothingReceived(schema, m);
    FieldsReceived(schema, m, 0);
    var seen := SeenBy(schema.fields, PiecesFrom(schema, m, 0));
    assert {} + seen == seen;
  }

  /** Without a required field that the decoder keeps track of, nothing is accepted. */
  lemma MissingRequired(schema: Schema, ps: seq<Piece>, i: nat)
    requires WellFormed(schema) && AllSuit(schema, ps) && EncodePieces(schema, ps).Some? && |EncodePieces(schema, ps).value| < TWO32
    requires i < |schema.fields| && schema.fields[i].rule.Required? && RequiredBefore(schema.fields, i) < MAX_REQUIRED
    requires forall j :: 0 <= j < |ps| ==> ps[j].i != i
    ensures Decode(schema, EncodePieces(schema, ps).value) == None
  {
    hide ParseFields, Merged, AllTaken;
    DefaultHasShape(schema);
    PiecesMerge(schema, ps, Default(schema), {});
    assert i !in {} + SeenBy(schema.fields, ps);
  }

  /** Two encodings one after the other: the second message is merged into the first as it was received. */
  lemma MessagesMerge(schema: Schema, a: Message, b: Message)
    requires WellFormed(schema) && HasShape(schema, a) && HasShape(schema, b) && Encode(schema, a).Some? && Encode(schema, b).Some?
    requires |Encode(schema, a).value + Encode(schema, b).value| < TWO32
    ensures HasShape(schema, Received(schema, a))
    ensures Decode(schema, Encode(schema, a).value + Encode(schema, b).value) ==
      if TerminatedFrom(schema, a, 0) && AllTaken(schema, Received(schema, a), PiecesFrom(schema, b, 0))
      then Some((Merged(schema, Received(schema, a), PiecesFrom(schema, b, 0)), []))
      else None
  {
    hide ParseFields, ReceivedUpTo, TerminatedFrom, Merged, AllTaken, Complete, SeenBy;
    var ps, qs := PiecesFrom(schema, a, 0), PiecesFrom(schema, b, 0);
    DefaultHasShape(schema);
    FieldsArePieces(schema, a, 0);
    FieldsArePieces(schema, b, 0);
    PiecesConcat(schema, Default(schema), ps, qs);
    PiecesMerge(schema, ps + qs, Default(schema), {});
    NothingReceived(schema, a);
    FieldsReceived(schema, a, 0);
    AllSeen(schema, a);
    SeenMore(schema, ps, qs);
  }

  lemma SeenMore(schema: Schema, ps: seq<Piece>, qs: seq<Piece>)
    requires AllSuit(schema, ps) && AllSuit(schema, ps + qs) && Complete(schema.fields, SeenBy(schema.fields, ps))
    ensures Complete(schema.fields, {} + SeenBy(schema.fields, ps + qs))
  {
    hide RequiredBefore, SlotSuits;
    forall i | i in SeenBy(schema.fields, ps) ensures i in SeenBy(schema.fields, ps + qs) {
      var j :| 0 <= j < |ps| && ps[j].i == i;
      assert (ps + qs)[j] == ps[j];
    }
  }

  lemma {:induction false} PiecesConcat(schema: Schema, o: Message, ps: seq<Piece>, qs: seq<Piece>)
    requires WellFormed(schema) && HasShape(schema, o) && AllSuit(schema, ps) && AllSuit(schema, qs)
    ensures AllSuit(schema, ps + qs) && EncodePieces(schema, ps + qs) == Both(EncodePieces(schema, ps), EncodePieces(schema, qs))
    ensures Merged(schema, o, ps + qs) == Merged(schema, Merged(schema, o, ps), qs)
    ensures AllTaken(schema, o, ps + qs) <==> AllTaken(schema, o, ps) && AllTaken(schema, Merged(schema, o, ps), qs)
    decreases |ps|
  {
    hide EncodeField, SlotSuits, WellFormedField, MergedField, FieldTaken;
    if ps == [] {
      assert ps + qs == qs;
      NothingBefore(EncodePieces(schema, qs));
    } else {
      assert (ps + qs)[1..] == ps[1..] + qs;
      PiecesConcat(schema, MergedField(schema, o, ps[0]), ps[1..], qs);
      BothAssociates(EncodeField(schema.fields[ps[0].i], ps[0].s, ps[0].which), EncodePieces(schema, ps[1..]), EncodePieces(schema, qs));
    }
  }

  // ----- A string that fills its buffer -----

  function OneLetter(): Schema {
    Schema([Field(1, Required, Text(1), None)])
  }

  function FullString(): Message {
    Message([Slot(false, [Raw([65])])], map[])
  }

  /** A one-byte buffer that holds the letter A, without a zero byte: the encoder writes it, the decoder rejects it. */
  lemma FullStringIsRejected()
    ensures WellFormed(OneLetter()) && HasShape(OneLetter(), FullString())
    ensures Encode(OneLetter(), FullString()) == Some([10, 1, 65])
    ensures Decode(OneLetter(), [10, 1, 65]) == None
  {
    var schema, m := OneLetter(), FullString();
    var f := schema.fields[0];
    assert WellFormedField(f) && SlotSuits(f, m.slots[0]);
    assert CString([65]) == [65] by {
      assert CString(([65])[1..]) == [];
    }
    assert EncodeVarint(1) == [1] && EncodeTag(WT_STRING, 1) == [10];
    assert Sized([65]) == [1] + [65] && [1] + [65] == [1, 65];
    assert EncodeDatum(f.kind, Raw([65])) == Some([1, 65]);
    assert [10] + [1, 65] == [10, 1, 65];
    assert EncodeField(f, m.slots[0], m.which) == Some([10, 1, 65]);
    assert EncodeFrom(schema, m, 1) == Some([]);
    assert [10, 1, 65] + [] == [10, 1, 65];
    assert !Terminated(f.kind, Raw([65]));
    assert !TerminatedField(f, m.slots[0], m.which);
    assert !TerminatedFrom(schema, m, 0);
    MessageRoundTrip(schema, m);
  }
}
