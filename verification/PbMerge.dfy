/** Encoded fields, in any order and any number, decoded into any message: what the specification calls merging. */
module PbMerge {
  import opened DbFormat
  import opened Coding
  import opened PbFormat
  import opened PbParse
  import opened PbItems

  /** A slot for field `i`, with what its sender says about unions. */
  datatype Piece = Piece(i: nat, s: Slot, which: map<nat, nat>)

  ghost predicate PieceSuits(schema: Schema, p: Piece) {
    p.i < |schema.fields| && SlotSuits(schema.fields[p.i], p.s)
  }

  ghost predicate AllSuit(schema: Schema, ps: seq<Piece>) {
    forall j :: 0 <= j < |ps| ==> PieceSuits(schema, ps[j])
  }

  /** The fields of a message from `i` on, in the order of the schema. */
  ghost function PiecesFrom(schema: Schema, m: Message, i: nat): (r: seq<Piece>)
    requires HasShape(schema, m) && i <= |schema.fields|
    ensures |r| == |schema.fields| - i && AllSuit(schema, r)
    decreases |schema.fields| - i
  {
    if i == |schema.fields| then [] else [Piece(i, m.slots[i], m.which)] + PiecesFrom(schema, m, i + 1)
  }

  ghost function EncodePieces(schema: Schema, ps: seq<Piece>): Option<Bytes>
    requires AllSuit(schema, ps)
  {
    if ps == [] then Some([]) else
      Both(EncodeField(schema.fields[ps[0].i], ps[0].s, ps[0].which), EncodePieces(schema, ps[1..]))
  }

  // ----- Merging -----

  /** A number or string replaces what was there; a message is merged into it. */
  ghost function MergedDatum(k: Kind, o: Datum, v: Datum): (r: Datum)
    requires WellFormedKind(k) && Suits(k, v) && (k.Sub? ==> Suits(k, o))
    ensures Suits(k, r)
    decreases k, 2
  {
    match k
    case Sub(schema) => Struct(Merged(schema, o.m, PiecesFrom(schema, v.m, 0)))
    case _ => ReceivedScalar(k, v)
  }

  /** Each item of an array is a new one. */
  ghost function MergedItems(k: Kind, fresh_: Datum, items: seq<Datum>): (r: seq<Datum>)
    requires WellFormedKind(k) && (k.Sub? ==> Suits(k, fresh_)) && forall j :: 0 <= j < |items| ==> Suits(k, items[j])
    ensures |r| == |items| && forall j :: 0 <= j < |items| ==> r[j] == MergedDatum(k, fresh_, items[j]) && Suits(k, r[j])
    decreases k, 3
  {
    seq(|items|, j requires 0 <= j < |items| => MergedDatum(k, fresh_, items[j]))
  }

  /** Items are appended; the data of a union is set up anew; any other field is replaced or merged into. */
  ghost function MergedSlot(f: Field, o: Slot, s: Slot): (r: Slot)
    requires WellFormedField(f) && SlotSuits(f, o) && SlotSuits(f, s)
    ensures SlotSuits(f, r)
    decreases f, 0
  {
    DefaultSuits(f);
    match f.rule
    case Repeated(_) => Slot(o.has, o.items + MergedItems(f.kind, DefaultDatum(f), s.items))
    case OneOf(_) => Slot(o.has, [MergedDatum(f.kind, DefaultDatum(f), s.items[0])])
    case Optional => Slot(true, [MergedDatum(f.kind, o.items[0], s.items[0])])
    case _ => Slot(o.has, [MergedDatum(f.kind, o.items[0], s.items[0])])
  }

  ghost function MergedField(schema: Schema, o: Message, p: Piece): (r: Message)
    requires WellFormed(schema) && HasShape(schema, o) && PieceSuits(schema, p)
    ensures HasShape(schema, r)
    decreases schema, 0
  {
    var f := schema.fields[p.i];
    if !f.rule.Repeated? && !Present(f, p.s, p.which) then o
    else Message(o.slots[p.i := MergedSlot(f, o.slots[p.i], p.s)], if f.rule.OneOf? then o.which[f.rule.union := f.tag] else o.which)
  }

  ghost function Merged(schema: Schema, o: Message, ps: seq<Piece>): (r: Message)
    requires WellFormed(schema) && HasShape(schema, o) && AllSuit(schema, ps)
    ensures HasShape(schema, r)
    decreases schema, 1, |ps|
  {
    if ps == [] then o else Merged(schema, MergedField(schema, o, ps[0]), ps[1..])
  }

  // ----- What the decoder rejects -----

  /** Every string sent ends before its buffer does, and every array has room for the items. */
  ghost predicate Taken(k: Kind, o: Datum, v: Datum)
    requires WellFormedKind(k) && Suits(k, v) && (k.Sub? ==> Suits(k, o))
    decreases k, 2
  {
    match k
    case Sub(schema) => AllTaken(schema, o.m, PiecesFrom(schema, v.m, 0))
    case _ => EndsInside(k, v)
  }

  ghost predicate ItemsTaken(k: Kind, fresh_: Datum, items: seq<Datum>)
    requires WellFormedKind(k) && (k.Sub? ==> Suits(k, fresh_)) && forall j :: 0 <= j < |items| ==> Suits(k, items[j])
    decreases k, 3
  {
    forall j :: 0 <= j < |items| ==> Taken(k, fresh_, items[j])
  }

  ghost predicate FieldTaken(f: Field, o: Slot, s: Slot, which: map<nat, nat>)
    requires WellFormedField(f) && SlotSuits(f, o) && SlotSuits(f, s)
    decreases f, 2
  {
    DefaultSuits(f);
    if f.rule.Repeated? then
      (s.items == [] || |o.items| + |s.items| <= f.rule.max) && ItemsTaken(f.kind, DefaultDatum(f), s.items)
    else Present(f, s, which) ==> Taken(f.kind, if f.rule.OneOf? then DefaultDatum(f) else o.items[0], s.items[0])
  }

  ghost predicate AllTaken(schema: Schema, o: Message, ps: seq<Piece>)
    requires WellFormed(schema) && HasShape(schema, o) && AllSuit(schema, ps)
    decreases schema, 1, |ps|
  {
    ps != [] ==>
      && FieldTaken(schema.fields[ps[0].i], o.slots[ps[0].i], ps[0].s, ps[0].which)
      && AllTaken(schema, MergedField(schema, o, ps[0]), ps[1..])
  }

  /** The required fields among the pieces, as far as the decoder keeps track of them. */
  ghost function SeenBy(fields: seq<Field>, ps: seq<Piece>): set<nat>
    requires forall j :: 0 <= j < |ps| ==> ps[j].i < |fields|
  {
    set j | 0 <= j < |ps| && fields[ps[j].i].rule.Required? && RequiredBefore(fields, ps[j].i) < MAX_REQUIRED :: ps[j].i
  }

  // ----- Decoding merges -----

  /** An item of any kind, decoded into one that is there. */
  lemma {:induction false} DatumMerges(k: Kind, o: Datum, v: Datum, rest: Bytes)
    requires WellFormedKind(k) && Suits(k, v) && (k.Sub? ==> Suits(k, o))
    requires EncodeDatum(k, v).Some? && |EncodeDatum(k, v).value| < TWO32
    ensures ParseDatum(k, o, EncodeDatum(k, v).value + rest) ==
      if Taken(k, o, v) then Some((MergedDatum(k, o, v), rest)) else None
    decreases k, 2
  {
    hide ParseFields, Merged, AllTaken, ParseScalar, EndsInside, ReceivedScalar, TakeSized;
    match k
    case Sub(schema) =>
      var b, ps := Encode(schema, v.m).value, PiecesFrom(schema, v.m, 0);
      SizedReads(b, rest);
      FieldsArePieces(schema, v.m, 0);
      PiecesMerge(schema, ps, o.m, {});
      AllSeen(schema, v.m);
    case _ => ScalarRoundTrip(k, v, rest);
  }

  lemma {:induction false} FieldsArePieces(schema: Schema, m: Message, i: nat)
    requires HasShape(schema, m) && i <= |schema.fields|
    ensures EncodePieces(schema, PiecesFrom(schema, m, i)) == EncodeFrom(schema, m, i)
    decreases |schema.fields| - i
  {
    hide EncodeField, SlotSuits;
    if i < |schema.fields| {
      FieldsArePieces(schema, m, i + 1);
      assert PiecesFrom(schema, m, i)[1..] == PiecesFrom(schema, m, i + 1);
    }
  }

  lemma {:induction false} PieceAtIndex(schema: Schema, m: Message, i: nat, j: nat)
    requires HasShape(schema, m) && i <= j < |schema.fields|
    ensures PiecesFrom(schema, m, i)[j - i] == Piece(j, m.slots[j], m.which)
    decreases j - i
  {
    hide SlotSuits;
    if i < j {
      PieceAtIndex(schema, m, i + 1, j);
    }
  }

  /** A message has all required fields. */
  lemma AllSeen(schema: Schema, m: Message)
    requires HasShape(schema, m)
    ensures Complete(schema.fields, SeenBy(schema.fields, PiecesFrom(schema, m, 0)))
  {
    hide SlotSuits;
    var fields, ps := schema.fields, PiecesFrom(schema, m, 0);
    forall i | 0 <= i < |fields| && fields[i].rule.Required? && RequiredBefore(fields, i) < MAX_REQUIRED
      ensures i in SeenBy(fields, ps)
    {
      PieceAtIndex(schema, m, 0, i);
      assert ps[i].i == i;
    }
  }

  lemma NextSeen(fields: seq<Field>, ps: seq<Piece>, seen: set<nat>)
    requires ps != [] && forall j :: 0 <= j < |ps| ==> ps[j].i < |fields|
    ensures NowSeen(fields, ps[0].i, seen) + SeenBy(fields, ps[1..]) == seen + SeenBy(fields, ps)
  {
    hide RequiredBefore;
    var all, rest := SeenBy(fields, ps), SeenBy(fields, ps[1..]);
    forall i | i in all ensures i in NowSeen(fields, ps[0].i, {}) + rest {
      var j :| 0 <= j < |ps| && ps[j].i == i && fields[i].rule.Required? && RequiredBefore(fields, i) < MAX_REQUIRED;
      assert j > 0 ==> ps[1..][j - 1] == ps[j];
    }
    forall i | i in rest ensures i in all {
      var j :| 0 <= j < |ps[1..]| && ps[1..][j].i == i && fields[i].rule.Required? && RequiredBefore(fields, i) < MAX_REQUIRED;
      assert ps[j + 1] == ps[1..][j];
    }
  }

  /** Encoded fields, whichever and however often, merge one after the other. */
  lemma {:induction false} PiecesMerge(schema: Schema, ps: seq<Piece>, o: Message, seen: set<nat>)
    requires WellFormed(schema) && HasShape(schema, o) && AllSuit(schema, ps)
    requires EncodePieces(schema, ps).Some? && |EncodePieces(schema, ps).value| < TWO32
    ensures ParseFields(schema, EncodePieces(schema, ps).value, o, seen) ==
      if AllTaken(schema, o, ps) && Complete(schema.fields, seen + SeenBy(schema.fields, ps)) then Some((Merged(schema, o, ps), []))
      else None
    decreases schema, 1, |ps|
  {
    hide ParseFields, EncodeField, FieldTaken, SlotSuits, WellFormedField, MergedField, SeenBy, NowSeen, Complete;
    if ps == [] {
      NothingToParse(schema, o, seen);
      NothingSeen(schema.fields, seen);
    } else {
      NextSeen(schema.fields, ps, seen);
      PieceMerges(schema, o, ps[0], EncodePieces(schema, ps[1..]).value, seen);
      PiecesMerge(schema, ps[1..], MergedField(schema, o, ps[0]), NowSeen(schema.fields, ps[0].i, seen));
    }
  }

  lemma NothingSeen(fields: seq<Field>, seen: set<nat>)
    ensures seen + SeenBy(fields, []) == seen
  {
  }

  /** One encoded field followed by anything. */
  lemma {:induction false} PieceMerges(schema: Schema, o: Message, p: Piece, rest: Bytes, seen: set<nat>)
    requires WellFormed(schema) && HasShape(schema, o) && PieceSuits(schema, p)
    requires var b := EncodeField(schema.fields[p.i], p.s, p.which); b.Some? && |b.value| < TWO32
    ensures var f := schema.fields[p.i];
      ParseFields(schema, EncodeField(f, p.s, p.which).value + rest, o, seen) ==
        if FieldTaken(f, o.slots[p.i], p.s, p.which)
        then ParseFields(schema, rest, MergedField(schema, o, p), NowSeen(schema.fields, p.i, seen))
        else None
    decreases schema, 0
  {
    hide ParseFields, ParseField, EncodeDatum, MergedDatum, Taken, RequiredBefore;
    var f := schema.fields[p.i];
    if f.rule.Repeated? {
      ArrayMerges(schema, o, p, rest, seen);
    } else if Present(f, p.s, p.which) {
      var tag, item := EncodeTag(WireType(f.kind), f.tag), EncodeDatum(f.kind, p.s.items[0]).value;
      assert tag + item + rest == tag + (item + rest);
      TurnAt(schema, o, p.i, WireType(f.kind), item + rest, seen);
      SingleMerges(f, o.slots[p.i], p.s, p.which, rest);
    } else {
      assert [] + rest == rest;
    }
  }

  /** The data of a field that is not repeated. */
  lemma {:induction false} SingleMerges(f: Field, o: Slot, s: Slot, which: map<nat, nat>, rest: Bytes)
    requires WellFormedField(f) && SlotSuits(f, o) && SlotSuits(f, s) && !f.rule.Repeated? && Present(f, s, which)
    requires EncodeDatum(f.kind, s.items[0]).Some? && |EncodeDatum(f.kind, s.items[0]).value| < TWO32
    ensures ParseField(f, WireType(f.kind), o, EncodeDatum(f.kind, s.items[0]).value + rest) ==
      if FieldTaken(f, o, s, which) then Some((MergedSlot(f, o, s), rest)) else None
    decreases f
  {
    hide ParseDatum, EncodeDatum, MergedDatum, Taken, Present;
    DefaultSuits(f);
    DatumMerges(f.kind, if f.rule.OneOf? then DefaultDatum(f) else o.items[0], s.items[0], rest);
  }

  /** All items of a repeated field, packed or not. */
  lemma {:induction false} ArrayMerges(schema: Schema, o: Message, p: Piece, rest: Bytes, seen: set<nat>)
    requires WellFormed(schema) && HasShape(schema, o) && PieceSuits(schema, p) && schema.fields[p.i].rule.Repeated?
    requires var b := EncodeField(schema.fields[p.i], p.s, p.which); b.Some? && |b.value| < TWO32
    ensures var f := schema.fields[p.i];
      ParseFields(schema, EncodeField(f, p.s, p.which).value + rest, o, seen) ==
        if FieldTaken(f, o.slots[p.i], p.s, p.which) then ParseFields(schema, rest, MergedField(schema, o, p), seen) else None
    decreases schema.fields[p.i], 2
  {
    hide ParseFields, EncodeDatum, MergedDatum, Taken, EncodeTag, Suits, WellFormedKind, EncodeItems, PackedField;
    var f, items := schema.fields[p.i], p.s.items;
    DefaultSuits(f);
    if items == [] {
      NoItems(f, o.slots[p.i], p.s);
      assert o.slots[p.i := o.slots[p.i]] == o.slots;
      assert [] + rest == rest;
    } else if Packable(f.kind) {
      PackedMerges(schema, o, p, rest, seen);
    } else {
      ItemsMerge(schema, p.i, o, items, rest, seen);
    }
  }

  lemma NoItems(f: Field, o: Slot, s: Slot)
    requires WellFormedField(f) && SlotSuits(f, o) && SlotSuits(f, s) && f.rule.Repeated? && s.items == []
    ensures MergedSlot(f, o, s) == o && FieldTaken(f, o, s, map[])
    ensures forall which :: FieldTaken(f, o, s, which)
  {
    assert o.items + [] == o.items;
  }

  lemma ScalarsAreMerged(k: Kind, fresh_: Datum, items: seq<Datum>)
    requires Packable(k) && WellFormedKind(k) && forall j :: 0 <= j < |items| ==> Suits(k, items[j])
    ensures MergedItems(k, fresh_, items) == ReceivedScalars(k, items) && ItemsTaken(k, fresh_, items)
  {
  }

  lemma {:induction false} PackedMerges(schema: Schema, o: Message, p: Piece, rest: Bytes, seen: set<nat>)
    requires WellFormed(schema) && HasShape(schema, o) && PieceSuits(schema, p) && p.s.items != []
    requires var f := schema.fields[p.i]; f.rule.Repeated? && Packable(f.kind)
    requires var b := EncodeField(schema.fields[p.i], p.s, p.which); b.Some? && |b.value| < TWO32
    ensures var f := schema.fields[p.i];
      ParseFields(schema, EncodeField(f, p.s, p.which).value + rest, o, seen) ==
        if FieldTaken(f, o.slots[p.i], p.s, p.which) then ParseFields(schema, rest, MergedField(schema, o, p), seen) else None
  {
    hide ParseFields, EncodeDatum, MergedDatum, MergedItems, ItemsTaken, ReceivedScalars, EncodeTag, Suits, WellFormedKind, EncodeItems,
         ParsePacked, TakeSized;
    var f, items, old_ := schema.fields[p.i], p.s.items, o.slots[p.i].items;
    var b := EncodeItems(f.kind, items, []).value;
    assert EncodeTag(WT_STRING, f.tag) + Sized(b) + rest == EncodeTag(WT_STRING, f.tag) + (Sized(b) + rest);
    TurnAt(schema, o, p.i, WT_STRING, Sized(b) + rest, seen);
    SizedReads(b, rest);
    PackedRoundTrip(f.kind, f.rule.max, old_, items);
    DefaultSuits(f);
    ScalarsAreMerged(f.kind, DefaultDatum(f), items);
  }

  /** Field `i` with more items. */
  ghost function Appended(schema: Schema, o: Message, i: nat, items: seq<Datum>): (r: Message)
    requires WellFormed(schema) && HasShape(schema, o) && i < |schema.fields| && schema.fields[i].rule.Repeated?
    requires forall j :: 0 <= j < |items| ==> Suits(schema.fields[i].kind, items[j])
    ensures HasShape(schema, r)
  {
    var f := schema.fields[i];
    DefaultSuits(f);
    var before, more := o.slots[i].items, MergedItems(f.kind, DefaultDatum(f), items);
    assert SlotSuits(f, o.slots[i]) && forall j :: 0 <= j < |before + more| ==> Suits(f.kind, (before + more)[j]);
    Message(o.slots[i := Slot(o.slots[i].has, before + more)], o.which)
  }

  lemma AppendedInTurn(schema: Schema, o: Message, i: nat, items: seq<Datum>)
    requires WellFormed(schema) && HasShape(schema, o) && i < |schema.fields| && schema.fields[i].rule.Repeated?
    requires forall j :: 0 <= j < |items| ==> Suits(schema.fields[i].kind, items[j])
    ensures items == [] ==> Appended(schema, o, i, items) == o
    ensures items != [] ==> Appended(schema, Appended(schema, o, i, items[..1]), i, items[1..]) == Appended(schema, o, i, items)
    ensures items != [] ==> |Appended(schema, o, i, items[..1]).slots[i].items| == |o.slots[i].items| + 1
  {
    hide MergedDatum, Suits;
    var f := schema.fields[i];
    DefaultSuits(f);
    if items == [] {
      assert o.slots[i].items + MergedItems(f.kind, DefaultDatum(f), items) == o.slots[i].items;
      assert o.slots[i := o.slots[i]] == o.slots;
    } else {
      var one := Appended(schema, o, i, items[..1]);
      var before, d := o.slots[i].items, DefaultDatum(f);
      assert before + MergedItems(f.kind, d, items[..1]) + MergedItems(f.kind, d, items[1..]) == before + MergedItems(f.kind, d, items);
      var t := Slot(o.slots[i].has, before + MergedItems(f.kind, d, items));
      assert one.slots[i := t] == o.slots[i := t];
    }
  }

  lemma OneAndOthers(k: Kind, fresh_: Datum, items: seq<Datum>)
    requires WellFormedKind(k) && (k.Sub? ==> Suits(k, fresh_)) && forall j :: 0 <= j < |items| ==> Suits(k, items[j])
    ensures items == [] ==> ItemsTaken(k, fresh_, items)
    ensures items != [] ==> (ItemsTaken(k, fresh_, items) <==> Taken(k, fresh_, items[0]) && ItemsTaken(k, fresh_, items[1..]))
  {
    hide Taken, Suits, WellFormedKind;
    if items != [] && Taken(k, fresh_, items[0]) && ItemsTaken(k, fresh_, items[1..]) {
      forall j | 0 <= j < |items| ensures Taken(k, fresh_, items[j]) {
        if j > 0 {
          assert items[j] == items[1..][j - 1];
        }
      }
    }
    if items != [] && ItemsTaken(k, fresh_, items) {
      forall j | 0 <= j < |items[1..]| ensures Taken(k, fresh_, items[1..][j]) {
        assert items[1..][j] == items[j + 1];
      }
    }
  }

  /** Items that each follow the field's tag. */
  lemma {:induction false} ItemsMerge(schema: Schema, i: nat, o: Message, items: seq<Datum>, rest: Bytes, seen: set<nat>)
    requires WellFormed(schema) && HasShape(schema, o) && i < |schema.fields|
    requires var f := schema.fields[i]; f.rule.Repeated? && !Packable(f.kind) && WellFormedField(f) && WellFormedKind(f.kind)
    requires forall j :: 0 <= j < |items| ==> Suits(schema.fields[i].kind, items[j])
    requires var f := schema.fields[i];
      var b := EncodeItems(f.kind, items, EncodeTag(WireType(f.kind), f.tag)); b.Some? && |b.value| < TWO32
    ensures var f := schema.fields[i];
      && (f.kind.Sub? ==> Suits(f.kind, DefaultDatum(f)))
      && ParseFields(schema, EncodeItems(f.kind, items, EncodeTag(WireType(f.kind), f.tag)).value + rest, o, seen) ==
           if (items == [] || |o.slots[i].items| + |items| <= f.rule.max) && ItemsTaken(f.kind, DefaultDatum(f), items)
           then ParseFields(schema, rest, Appended(schema, o, i, items), seen)
           else None
    decreases schema.fields[i], 1, |items|
  {
    hide ParseFields, EncodeDatum, MergedItems, ItemsTaken, Taken, EncodeTag, Suits, WellFormedKind, Appended;
    var f := schema.fields[i];
    var tag := EncodeTag(WireType(f.kind), f.tag);
    DefaultSuits(f);
    OneAndOthers(f.kind, DefaultDatum(f), items);
    AppendedInTurn(schema, o, i, items);
    if items == [] {
      assert [] + rest == rest;
    } else {
      var item, others := EncodeDatum(f.kind, items[0]).value, EncodeItems(f.kind, items[1..], tag).value;
      assert tag + item + others + rest == tag + (item + (others + rest));
      FirstItem(schema, i, o, items[0], others + rest, seen);
      assert items[..1] == [items[0]];
      if |o.slots[i].items| < f.rule.max && Taken(f.kind, DefaultDatum(f), items[0]) {
        ItemsMerge(schema, i, Appended(schema, o, i, [items[0]]), items[1..], rest, seen);
      }
    }
  }

  /** The first of some items that each follow the field's tag. */
  lemma {:induction false} FirstItem(schema: Schema, i: nat, o: Message, v: Datum, data: Bytes, seen: set<nat>)
    requires WellFormed(schema) && HasShape(schema, o) && i < |schema.fields|
    requires var f := schema.fields[i]; f.rule.Repeated? && !Packable(f.kind) && Suits(f.kind, v)
    requires WellFormedField(schema.fields[i]) && WellFormedKind(schema.fields[i].kind)
    requires var b := EncodeDatum(schema.fields[i].kind, v); b.Some? && |b.value| < TWO32
    ensures var f := schema.fields[i];
      && (f.kind.Sub? ==> Suits(f.kind, DefaultDatum(f)))
      && ParseFields(schema, EncodeTag(WireType(f.kind), f.tag) + (EncodeDatum(f.kind, v).value + data), o, seen) ==
           if |o.slots[i].items| < f.rule.max && Taken(f.kind, DefaultDatum(f), v)
           then ParseFields(schema, data, Appended(schema, o, i, [v]), seen)
           else None
    decreases schema.fields[i], 0
  {
    hide ParseFields, EncodeDatum, Taken, EncodeTag, Suits, WellFormedKind, ParseDatum, MergedDatum;
    var f := schema.fields[i];
    DefaultSuits(f);
    TurnAt(schema, o, i, WireType(f.kind), EncodeDatum(f.kind, v).value + data, seen);
    DatumMerges(f.kind, DefaultDatum(f), v, data);
    if |o.slots[i].items| < f.rule.max && Taken(f.kind, DefaultDatum(f), v) {
      assert MergedItems(f.kind, DefaultDatum(f), [v]) == [MergedDatum(f.kind, DefaultDatum(f), v)];
    }
  }
}
