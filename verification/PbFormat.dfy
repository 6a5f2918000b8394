/** Protocol Buffers messages as nanopb holds them, and the bytes they stand for (nanopb/pb.h, nanopb/pb_encode.c).

    A schema lists statically allocated fields; a message has one slot for each. */
module PbFormat {
  import opened DbFormat
  import opened Coding

  const WT_VARINT: nat := 0
  const WT_64BIT: nat := 1
  const WT_STRING: nat := 2
  const WT_32BIT: nat := 5

  /** PB_LTYPE, with the room the struct has for one item. */
  datatype Kind =
    | Bool
    | Varint(size: nat)
    | UVarint(size: nat)
    | SVarint(size: nat)
    | Fixed32
    | Fixed64
    | Blob(capacity: nat)
    | Text(capacity: nat)
    | Sub(schema: Schema)
    | Inline(length: nat)

  /** PB_HTYPE; an optional field without a has-flag, as in proto3, is Singular. */
  datatype Rule = Required | Optional | Singular | Repeated(max: nat) | OneOf(union: nat)

  datatype Field = Field(tag: nat, rule: Rule, kind: Kind, initial: Option<Datum>)

  datatype Schema = Schema(fields: seq<Field>)

  datatype Datum = Number(n: int) | Raw(b: Bytes) | Struct(m: Message)

  /** A repeated field has any number of items, every other field one. */
  datatype Slot = Slot(has: bool, items: seq<Datum>)

  /** `which` says which field of a union is set. */
  datatype Message = Message(slots: seq<Slot>, which: map<nat, nat>)

  predicate ValidSize(size: nat) {
    size == 1 || size == 2 || size == 4 || size == 8
  }

  /** Half the range of an integer of `size` bytes. */
  function Half(size: nat): nat {
    if size == 1 then 0x80 else if size == 2 then 0x8000 else if size == 4 then 0x8000_0000 else 0x8000_0000_0000_0000
  }

  predicate Signed(size: nat, n: int) {
    0 - Half(size) <= n < Half(size)
  }

  /** The value can be what the struct holds for a field of this kind. */
  ghost predicate Suits(k: Kind, v: Datum)
    decreases k
  {
    match k
    case Bool => v.Number? && 0 <= v.n < 256
    case Varint(size) => v.Number? && Signed(size, v.n)
    case UVarint(size) => v.Number? && 0 <= v.n < 2 * Half(size)
    case SVarint(size) => v.Number? && Signed(size, v.n)
    case Fixed32 => v.Number? && 0 <= v.n < TWO32
    case Fixed64 => v.Number? && 0 <= v.n < TWO64
    case Blob(_) => v.Raw? && |v.b| < TWO32
    case Text(capacity) => v.Raw? && |v.b| <= capacity
    case Sub(schema) => v.Struct? && HasShape(schema, v.m)
    case Inline(length) => v.Raw? && |v.b| == length
  }

  ghost predicate SlotSuits(f: Field, s: Slot)
    decreases f
  {
    && (!f.rule.Repeated? ==> |s.items| == 1)
    && forall j :: 0 <= j < |s.items| ==> Suits(f.kind, s.items[j])
  }

  ghost predicate HasShape(schema: Schema, m: Message)
    decreases schema
  {
    && |m.slots| == |schema.fields|
    && forall i :: 0 <= i < |schema.fields| ==> SlotSuits(schema.fields[i], m.slots[i])
  }

  /** The value fits where the struct keeps it, a string with its zero byte. */
  ghost predicate InRoom(k: Kind, v: Datum)
    requires Suits(k, v)
    decreases k
  {
    match k
    case Blob(capacity) => |v.b| <= capacity
    case Text(capacity) => |v.b| < capacity
    case Sub(schema) => MessageInRoom(schema, v.m)
    case _ => true
  }

  ghost predicate SlotInRoom(f: Field, s: Slot)
    requires SlotSuits(f, s)
    decreases f
  {
    && (f.rule.Repeated? ==> |s.items| <= f.rule.max)
    && forall j :: 0 <= j < |s.items| ==> InRoom(f.kind, s.items[j])
  }

  /** Every array, buffer and string of the message is inside the struct. */
  ghost predicate MessageInRoom(schema: Schema, m: Message)
    requires HasShape(schema, m)
    decreases schema
  {
    forall i :: 0 <= i < |schema.fields| ==> SlotInRoom(schema.fields[i], m.slots[i])
  }

  /** What the generator makes of a .proto file: distinct legal tags, sizes C has, no default value in proto3. */
  ghost predicate WellFormed(schema: Schema)
    decreases schema
  {
    && (forall i, j :: 0 <= i < j < |schema.fields| ==> schema.fields[i].tag != schema.fields[j].tag)
    && forall i :: 0 <= i < |schema.fields| ==> WellFormedField(schema.fields[i])
  }

  ghost predicate WellFormedField(f: Field)
    decreases f
  {
    && 0 < f.tag < 0x2000_0000
    && WellFormedKind(f.kind)
    && (f.initial.Some? ==> !f.kind.Sub? && !f.rule.Singular? && Suits(f.kind, f.initial.value) && InRoom(f.kind, f.initial.value))
  }

  ghost predicate WellFormedKind(k: Kind)
    decreases k
  {
    match k
    case Varint(size) => ValidSize(size)
    case UVarint(size) => ValidSize(size)
    case SVarint(size) => ValidSize(size)
    case Blob(capacity) => capacity < TWO32
    case Text(capacity) => 0 < capacity < TWO32
    case Sub(schema) => WellFormed(schema)
    case Inline(length) => 0 < length < TWO32
    case _ => true
  }

  // ----- What is encoded -----

  function Both(a: Option<Bytes>, b: Option<Bytes>): Option<Bytes> {
    if a.Some? && b.Some? then Some(a.value + b.value) else None
  }

  lemma BothAssociates(a: Option<Bytes>, b: Option<Bytes>, c: Option<Bytes>)
    ensures Both(Both(a, b), c) == Both(a, Both(b, c))
  {
    if a.Some? && b.Some? && c.Some? {
      assert a.value + b.value + c.value == a.value + (b.value + c.value);
    }
  }

  lemma NothingBefore(a: Option<Bytes>)
    ensures Both(Some([]), a) == a && Both(a, Some([])) == a
  {
    if a.Some? {
      assert [] + a.value == a.value && a.value + [] == a.value;
    }
  }

  function WireType(k: Kind): nat {
    match k
    case Fixed32 => WT_32BIT
    case Fixed64 => WT_64BIT
    case Blob(_) => WT_STRING
    case Text(_) => WT_STRING
    case Sub(_) => WT_STRING
    case Inline(_) => WT_STRING
    case _ => WT_VARINT
  }

  predicate Packable(k: Kind) {
    !k.Blob? && !k.Text? && !k.Sub? && !k.Inline?
  }

  function EncodeTag(wireType: nat, tag: nat): Bytes {
    EncodeVarint(8 * tag + wireType)
  }

  /** Small for numbers close to zero, of either sign. */
  function ZigZag(n: int): nat {
    if n < 0 then -2 * n - 1 else 2 * n
  }

  /** The string in a character buffer: up to the first zero byte, or all of it. */
  function CString(b: Bytes): (r: Bytes)
    ensures r <= b
    ensures |r| < |b| ==> b[|r|] == 0
    ensures forall i :: 0 <= i < |r| ==> r[i] != 0
  {
    if b == [] || b[0] == 0 then [] else
      var rest := CString(b[1..]);
      assert b == [b[0]] + b[1..];
      [b[0]] + rest
  }

  function Sized(b: Bytes): Bytes {
    EncodeVarint(|b|) + b
  }

  /** The bytes of one item, without a tag; none if the encoder rejects it. */
  function EncodeDatum(k: Kind, v: Datum): Option<Bytes>
    requires Suits(k, v)
    decreases k, 0
  {
    match k
    case Bool => Some(EncodeVarint(if v.n != 0 then 1 else 0))
    case Varint(size) => if ValidSize(size) then Some(EncodeVarint(v.n % TWO64)) else None
    case UVarint(size) => if ValidSize(size) then Some(EncodeVarint(v.n)) else None
    case SVarint(size) => if ValidSize(size) then Some(EncodeVarint(ZigZag(v.n))) else None
    case Fixed32 => Some(EncodeFixed32(v.n))
    case Fixed64 => Some(EncodeFixed64(v.n))
    case Blob(capacity) => if |v.b| <= capacity then Some(Sized(v.b)) else None
    case Text(_) => Some(Sized(CString(v.b)))
    case Sub(schema) =>
      (match EncodeFrom(schema, v.m, 0)
       case None => None
       case Some(b) => Some(Sized(b)))
    case Inline(_) => Some(Sized(v.b))
  }

  /** Each item after `prefix`. */
  function EncodeItems(k: Kind, items: seq<Datum>, prefix: Bytes): Option<Bytes>
    requires forall j :: 0 <= j < |items| ==> Suits(k, items[j])
    decreases k, |items| + 1
  {
    if items == [] then Some([]) else
      Both(Both(Some(prefix), EncodeDatum(k, items[0])), EncodeItems(k, items[1..], prefix))
  }

  /** encode_array: packed if the kind allows it. */
  function EncodeArray(f: Field, max: nat, items: seq<Datum>): Option<Bytes>
    requires forall j :: 0 <= j < |items| ==> Suits(f.kind, items[j])
    decreases f, 0
  {
    if items == [] then Some([])
    else if |items| > max then None
    else if Packable(f.kind) then
      match EncodeItems(f.kind, items, [])
      case None => None
      case Some(b) => Some(EncodeTag(WT_STRING, f.tag) + Sized(b))
    else EncodeItems(f.kind, items, EncodeTag(WireType(f.kind), f.tag))
  }

  function Which(which: map<nat, nat>, union: nat): nat {
    if union in which then which[union] else 0
  }

  /** A field that is not repeated goes out or does not. */
  predicate Present(f: Field, s: Slot, which: map<nat, nat>)
    requires |s.items| == 1 && SlotSuits(f, s)
    decreases f, 1
  {
    match f.rule
    case Required => true
    case Optional => s.has
    case Singular => !IsZero(f.kind, s.items[0])
    case Repeated(_) => true
    case OneOf(union) => Which(which, union) == f.tag
  }

  /** pb_check_proto3_default_value, for the data of a singular field. */
  predicate IsZero(k: Kind, v: Datum)
    requires Suits(k, v)
    decreases k, 0
  {
    match k
    case Blob(_) => v.b == []
    case Text(_) => v.b == [] || v.b[0] == 0
    case Sub(schema) => AllAbsent(schema, v.m, 0)
    case Inline(length) => length == 0
    case _ => v.n == 0
  }

  /** pb_check_proto3_default_value, for every field from `i` on. */
  predicate AllAbsent(schema: Schema, m: Message, i: nat)
    requires HasShape(schema, m) && i <= |schema.fields|
    decreases schema, |schema.fields| - i
  {
    i == |schema.fields| || (FieldAbsent(schema.fields[i], m.slots[i], m.which) && AllAbsent(schema, m, i + 1))
  }

  predicate FieldAbsent(f: Field, s: Slot, which: map<nat, nat>)
    requires SlotSuits(f, s)
    decreases f, 0
  {
    match f.rule
    case Required => false
    case Optional => !s.has
    case Singular => IsZero(f.kind, s.items[0])
    case Repeated(_) => s.items == []
    case OneOf(union) => Which(which, union) == 0
  }

  function EncodeField(f: Field, s: Slot, which: map<nat, nat>): Option<Bytes>
    requires SlotSuits(f, s)
    decreases f, 2
  {
    match f.rule
    case Repeated(max) => EncodeArray(f, max, s.items)
    case _ =>
      if Present(f, s, which) then Both(Some(EncodeTag(WireType(f.kind), f.tag)), EncodeDatum(f.kind, s.items[0]))
      else Some([])
  }

  /** The fields from `i` on, in order. */
  function EncodeFrom(schema: Schema, m: Message, i: nat): Option<Bytes>
    requires HasShape(schema, m) && i <= |schema.fields|
    decreases schema, |schema.fields| - i
  {
    if i == |schema.fields| then Some([]) else
      Both(EncodeField(schema.fields[i], m.slots[i], m.which), EncodeFrom(schema, m, i + 1))
  }

  function Encode(schema: Schema, m: Message): Option<Bytes>
    requires HasShape(schema, m)
  {
    EncodeFrom(schema, m, 0)
  }

  // ----- Where decoding starts -----

  function Zero(k: Kind): Datum
    requires !k.Sub?
  {
    match k
    case Blob(_) => Raw([])
    case Text(_) => Raw([])
    case Inline(length) => Raw(seq(length, _ => 0))
    case _ => Number(0)
  }

  function DefaultDatum(f: Field): Datum
    decreases f, 0
  {
    if f.kind.Sub? then Struct(Default(f.kind.schema))
    else if f.initial.Some? then f.initial.value
    else Zero(f.kind)
  }

  /** The data of a union is left alone by pb_field_set_to_default, and not read while nothing is set. */
  function DefaultSlot(f: Field): Slot
    decreases f, 1
  {
    Slot(false, if f.rule.Repeated? then [] else [DefaultDatum(f)])
  }

  /** pb_message_set_to_defaults. */
  function Default(schema: Schema): Message
    decreases schema
  {
    Message(seq(|schema.fields|, i requires 0 <= i < |schema.fields| => DefaultSlot(schema.fields[i])), map[])
  }

  /** What a field of a cleared struct holds: no flag, no item, the given initial value, or else zero bytes. */
  ghost predicate IsInitial(f: Field, v: Datum)
    decreases f, 0
  {
    if f.kind.Sub? then v.Struct? && AllInitial(f.kind.schema, v.m)
    else if f.initial.Some? then v == f.initial.value
    else
      match f.kind
      case Blob(_) => v == Raw([])
      case Text(_) => v == Raw([])
      case Inline(length) => v.Raw? && |v.b| == length && forall i :: 0 <= i < length ==> v.b[i] == 0
      case _ => v == Number(0)
  }

  ghost predicate SlotInitial(f: Field, s: Slot)
    decreases f, 1
  {
    !s.has && if f.rule.Repeated? then s.items == [] else |s.items| == 1 && IsInitial(f, s.items[0])
  }

  ghost predicate AllInitial(schema: Schema, m: Message)
    decreases schema
  {
    && |m.slots| == |schema.fields| && m.which == map[]
    && forall i :: 0 <= i < |schema.fields| ==> SlotInitial(schema.fields[i], m.slots[i])
  }

  lemma {:induction false} DefaultIsInitial(f: Field)
    ensures IsInitial(f, DefaultDatum(f)) && SlotInitial(f, DefaultSlot(f))
    decreases f
  {
    if f.kind.Sub? {
      DefaultsAreInitial(f.kind.schema);
    }
  }

  lemma {:induction false} DefaultsAreInitial(schema: Schema)
    ensures AllInitial(schema, Default(schema))
    decreases schema
  {
    forall i | 0 <= i < |schema.fields| ensures SlotInitial(schema.fields[i], Default(schema).slots[i]) {
      DefaultIsInitial(schema.fields[i]);
    }
  }

  lemma {:induction false} DefaultSuits(f: Field)
    requires WellFormedField(f)
    ensures Suits(f.kind, DefaultDatum(f)) && SlotSuits(f, DefaultSlot(f))
    decreases f
  {
    if f.kind.Sub? {
      DefaultHasShape(f.kind.schema);
    }
  }

  lemma {:induction false} DefaultHasShape(schema: Schema)
    requires WellFormed(schema)
    ensures HasShape(schema, Default(schema))
    decreases schema
  {
    forall i | 0 <= i < |schema.fields| ensures SlotSuits(schema.fields[i], Default(schema).slots[i]) {
      DefaultSuits(schema.fields[i]);
    }
  }
}
