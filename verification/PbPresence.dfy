/** Which fields go out, told from what the struct holds (encode_basic_field and pb_check_proto3_default_value in nanopb/pb_encode.c). */
module PbPresence {
  import opened DbFormat
  import opened Coding
  import opened PbFormat
  import opened PbItems

  ghost predicate NoUnionSet(schema: Schema, m: Message, i: nat)
    requires i <= |schema.fields|
  {
    forall j :: i <= j < |schema.fields| && schema.fields[j].rule.OneOf? ==> Which(m.which, schema.fields[j].rule.union) == 0
  }

  /** The value of a singular field is not zero; a message is zero if it takes no bytes and sets no union. */
  ghost predicate NotZero(k: Kind, v: Datum)
    requires Suits(k, v)
  {
    match k
    case Blob(_) => v.b != []
    case Text(_) => CString(v.b) != []
    case Inline(_) => true
    case Sub(schema) => Encode(schema, v.m) != Some([]) || !NoUnionSet(schema, v.m, 0)
    case _ => v.n != 0
  }

  /** What goes out: required fields, optional ones whose flag is set, singular ones that are not zero, arrays that are not empty,
      and the field a union is set to. */
  ghost predicate GoesOut(f: Field, s: Slot, which: map<nat, nat>)
    requires SlotSuits(f, s)
  {
    match f.rule
    case Required => true
    case Optional => s.has
    case Singular => NotZero(f.kind, s.items[0])
    case OneOf(union) => Which(which, union) == f.tag
    case Repeated(_) => s.items != []
  }

  lemma {:induction false} AbsentTakesNoBytes(schema: Schema, m: Message, i: nat)
    requires WellFormed(schema) && HasShape(schema, m) && i <= |schema.fields|
    ensures AllAbsent(schema, m, i) <==> EncodeFrom(schema, m, i) == Some([]) && NoUnionSet(schema, m, i)
    decreases |schema.fields| - i
  {
    hide EncodeField, FieldAbsent, SlotSuits, WellFormedField;
    if i < |schema.fields| {
      var f := schema.fields[i];
      AbsentTakesNone(f, m.slots[i], m.which);
      AbsentTakesNoBytes(schema, m, i + 1);
      NoUnionNext(schema, m, i);
      BothEmpty(EncodeField(f, m.slots[i], m.which), EncodeFrom(schema, m, i + 1));
    }
  }

  lemma BothEmpty(a: Option<Bytes>, b: Option<Bytes>)
    ensures Both(a, b) == Some([]) <==> a == Some([]) && b == Some([])
  {
    if Both(a, b) == Some([]) {
      assert |a.value| + |b.value| == |a.value + b.value| == 0;
    }
    if a == Some([]) && b == Some([]) {
      assert a.value + b.value == [];
    }
  }

  lemma NoUnionNext(schema: Schema, m: Message, i: nat)
    requires i < |schema.fields|
    ensures var f := schema.fields[i];
      NoUnionSet(schema, m, i) <==> (f.rule.OneOf? ==> Which(m.which, f.rule.union) == 0) && NoUnionSet(schema, m, i + 1)
  {
  }

  lemma AbsentTakesNone(f: Field, s: Slot, which: map<nat, nat>)
    requires WellFormedField(f) && SlotSuits(f, s)
    ensures FieldAbsent(f, s, which) <==>
      EncodeField(f, s, which) == Some([]) && (f.rule.OneOf? ==> Which(which, f.rule.union) == 0)
  {
    hide EncodeDatum, IsZero, EncodeTag, EncodeItems;
    TagNotEmpty(WireType(f.kind), f.tag);
    TagNotEmpty(WT_STRING, f.tag);
    if f.rule.Repeated? && s.items != [] {
      SomeItems(f.kind, s.items, EncodeTag(WireType(f.kind), f.tag));
    }
  }

  lemma SomeItems(k: Kind, items: seq<Datum>, prefix: Bytes)
    requires items != [] && prefix != [] && forall j :: 0 <= j < |items| ==> Suits(k, items[j])
    ensures EncodeItems(k, items, prefix) != Some([])
  {
  }

  /** A field takes bytes if and only if it is one that goes out. */
  lemma FieldGoesOut(f: Field, s: Slot, which: map<nat, nat>)
    requires WellFormedField(f) && SlotSuits(f, s)
    ensures EncodeField(f, s, which) == Some([]) <==> !GoesOut(f, s, which)
    ensures !f.rule.Repeated? ==> (Present(f, s, which) <==> GoesOut(f, s, which))
  {
    hide EncodeDatum, EncodeTag, EncodeItems;
    TagNotEmpty(WireType(f.kind), f.tag);
    TagNotEmpty(WT_STRING, f.tag);
    if f.rule.Repeated? && s.items != [] {
      SomeItems(f.kind, s.items, EncodeTag(WireType(f.kind), f.tag));
    }
    if f.rule.Singular? && f.kind.Sub? {
      AbsentTakesNoBytes(f.kind.schema, s.items[0].m, 0);
    }
  }
}
