/** One encoded item, decoded again. */
module PbItems {
  import opened DbFormat
  import opened Coding
  import opened PbFormat
  import opened PbParse
  import opened PbVarints

  /** A flag comes back as 0 or 1, a string without what follows its zero byte. */
  function ReceivedScalar(k: Kind, v: Datum): (r: Datum)
    requires !k.Sub? && Suits(k, v)
    ensures Suits(k, r)
  {
    match k
    case Bool => Number(if v.n != 0 then 1 else 0)
    case Text(_) => Raw(CString(v.b))
    case _ => v
  }

  /** A string ends before its buffer does. */
  predicate EndsInside(k: Kind, v: Datum)
    requires !k.Sub? && Suits(k, v)
  {
    k.Text? ==> |CString(v.b)| < k.capacity
  }

  lemma TagReads(wireType: nat, tag: nat, rest: Bytes)
    requires wireType < 8 && 0 < tag < 0x2000_0000
    ensures ParseTag(EncodeTag(wireType, tag) + rest) == TagRead(wireType, tag, rest)
  {
    hide EncodeVarint, Varint32;
    Varint32RoundTrip(8 * tag + wireType, rest);
  }

  lemma TagNotEmpty(wireType: nat, tag: nat)
    ensures EncodeTag(wireType, tag) != []
  {
  }

  lemma SizedReads(b: Bytes, rest: Bytes)
    requires |b| < TWO32
    ensures Varint32(Sized(b) + rest) == Some((|b|, b + rest)) && TakeSized(Sized(b) + rest) == Some((b, rest))
    ensures ParseRaw(b + rest, |b|) == Some((Raw(b), rest))
  {
    hide EncodeVarint, Varint32;
    Varint32RoundTrip(|b|, b + rest);
    assert Sized(b) + rest == EncodeVarint(|b|) + (b + rest);
    assert (b + rest)[..|b|] == b && (b + rest)[|b|..] == rest;
  }

  /** Sign extension to 64 bits, undone. */
  lemma SignRestored(size: nat, n: int)
    requires ValidSize(size) && Signed(size, n)
    ensures ToSigned(8, n % TWO64) == n && (size != 8 ==> ToSigned(4, n % TWO64) == n)
  {
    CutKeeps(8, n);
    CutKeeps(4, n);
  }

  lemma IntegerRoundTrip(k: Kind, v: Datum, rest: Bytes)
    requires (k.Varint? || k.UVarint? || k.SVarint?) && WellFormedKind(k) && Suits(k, v)
    ensures EncodeDatum(k, v).Some? && ParseScalar(k, EncodeDatum(k, v).value + rest) == Some((v, rest))
  {
    hide EncodeVarint, Varint64, ToSigned;
    match k
    case Varint(size) =>
      SignRestored(size, v.n);
      Varint64RoundTrip(v.n % TWO64, rest);
    case UVarint(_) => Varint64RoundTrip(v.n, rest);
    case SVarint(_) => Varint64RoundTrip(ZigZag(v.n), rest);
  }

  lemma ScalarRoundTrip(k: Kind, v: Datum, rest: Bytes)
    requires !k.Sub? && WellFormedKind(k) && Suits(k, v)
    requires EncodeDatum(k, v).Some? && |EncodeDatum(k, v).value| < TWO32
    ensures ParseScalar(k, EncodeDatum(k, v).value + rest) == if EndsInside(k, v) then Some((ReceivedScalar(k, v), rest)) else None
  {
    hide EncodeVarint, Varint32, Varint64, DecodeFixed32, DecodeFixed64, EncodeFixed32, EncodeFixed64, TakeSized, ParseRaw;
    match k
    case Bool => Varint32RoundTrip(if v.n != 0 then 1 else 0, rest);
    case Varint(_) => IntegerRoundTrip(k, v, rest);
    case UVarint(_) => IntegerRoundTrip(k, v, rest);
    case SVarint(_) => IntegerRoundTrip(k, v, rest);
    case Fixed32 =>
      Fixed32RoundTrip(v.n, rest);
      FixedEnds(EncodeFixed32(v.n), rest);
    case Fixed64 =>
      Fixed64RoundTrip(v.n, rest);
      FixedEnds(EncodeFixed64(v.n), rest);
    case Blob(_) => SizedReads(v.b, rest);
    case Text(_) => SizedReads(CString(v.b), rest);
    case Inline(_) => SizedReads(v.b, rest);
  }

  lemma FixedEnds(b: Bytes, rest: Bytes)
    ensures (b + rest)[|b|..] == rest
  {
  }

  lemma ItemNotEmpty(k: Kind, v: Datum)
    requires Suits(k, v) && EncodeDatum(k, v).Some?
    ensures EncodeDatum(k, v).value != []
  {
  }

  function ReceivedScalars(k: Kind, items: seq<Datum>): (r: seq<Datum>)
    requires !k.Sub? && forall j :: 0 <= j < |items| ==> Suits(k, items[j])
    ensures |r| == |items| && forall j :: 0 <= j < |items| ==> r[j] == ReceivedScalar(k, items[j])
  {
    seq(|items|, j requires 0 <= j < |items| => ReceivedScalar(k, items[j]))
  }

  /** The items of a packed array behind those already there: all of them if there is room, otherwise an error or bytes left over. */
  lemma {:induction false} PackedRoundTrip(k: Kind, max: nat, done: seq<Datum>, items: seq<Datum>)
    requires Packable(k) && WellFormedKind(k) && forall j :: 0 <= j < |items| ==> Suits(k, items[j])
    requires EncodeItems(k, items, []).Some? && |EncodeItems(k, items, []).value| < TWO32
    ensures var r := ParsePacked(k, max, done, EncodeItems(k, items, []).value);
      if items == [] || |done| + |items| <= max then r == Some((done + ReceivedScalars(k, items), []))
      else r.Some? && r.value.1 != []
    decreases |items|
  {
    hide ParseScalar, ReceivedScalar, ReceivedScalars, EncodeDatum, Suits, WellFormedKind;
    ScalarsInOrder(k, done, items);
    if items != [] {
      var item, rest := EncodeDatum(k, items[0]).value, EncodeItems(k, items[1..], []).value;
      assert EncodeItems(k, items, []).value == item + rest;
      ScalarRoundTrip(k, items[0], rest);
      ItemNotEmpty(k, items[0]);
      var next := done + [ReceivedScalar(k, items[0])];
      PackedRoundTrip(k, max, next, items[1..]);
    }
  }

  lemma ScalarsInOrder(k: Kind, done: seq<Datum>, items: seq<Datum>)
    requires !k.Sub? && forall j :: 0 <= j < |items| ==> Suits(k, items[j])
    ensures items == [] ==> done + ReceivedScalars(k, items) == done
    ensures items != [] ==>
      done + ReceivedScalars(k, items) == done + [ReceivedScalar(k, items[0])] + ReceivedScalars(k, items[1..])
  {
    hide ReceivedScalar, Suits;
  }

  /** Reading a field's tag leads to its slot. */
  lemma TurnAt(schema: Schema, m: Message, i: nat, wireType: nat, data: Bytes, seen: set<nat>)
    requires WellFormed(schema) && HasShape(schema, m) && i < |schema.fields| && wireType < 8
    ensures var f := schema.fields[i];
      var r := ParseField(f, wireType, m.slots[i], data);
      ParseFields(schema, EncodeTag(wireType, f.tag) + data, m, seen) ==
        if r.None? then None
        else ParseFields(schema, r.value.1, Stored(schema, m, i, r.value.0), NowSeen(schema.fields, i, seen))
  {
    hide ParseField, EncodeTag, ParseTag;
    var f := schema.fields[i];
    TagReads(wireType, f.tag, data);
    TagIsUnique(schema, i, f.tag);
    TagNotEmpty(wireType, f.tag);
  }
}
