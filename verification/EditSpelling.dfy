/** Which bytes are a version edit (db/version_edit.cc), and that exactly those are taken for one. */
module EditSpelling {
  import opened DbFormat
  import opened Coding
  import opened WriteBatches
  import opened Spelling
  import opened EditCodec

  /** A number cut to the width of the variable it is read into. */
  ghost predicate Spells(b: Bytes, limit: nat, modulus: nat, v: nat)
    requires modulus > 0
  {
    exists w: nat :: SpellsNumber(b, limit, w) && w % modulus == v
  }

  ghost predicate Spells32(b: Bytes, v: nat) {
    Spells(b, 5, TWO32, v)
  }

  ghost predicate Spells64(b: Bytes, v: nat) {
    Spells(b, 10, TWO64, v)
  }

  /** A field of an edit, one piece of bytes for each part after its tag. */
  datatype Field =
    | ComparatorField(name: Bytes)
    | ScalarField(tag: nat, value: Word64)
    | PointerField(level: nat, key: Bytes)
    | DeletedField(level: nat, number: Word64)
    | NewFileField(file: NewFile)

  ghost function Tag(f: Field): nat {
    match f
    case ComparatorField(_) => 1
    case ScalarField(tag, _) => tag
    case PointerField(_, _) => 5
    case DeletedField(_, _) => 6
    case NewFileField(_) => 7
  }

  /** The parts of a field, each spelt by its own piece of bytes. */
  ghost predicate SpellsParts(ps: seq<Bytes>, f: Field) {
    match f
    case ComparatorField(name) => |ps| == 1 && SpellsSlice(ps[0], name)
    case ScalarField(tag, value) => |ps| == 1 && (tag == 2 || tag == 3 || tag == 4 || tag == 9) && Spells64(ps[0], value)
    case PointerField(level, key) => |ps| == 2 && level < NUM_LEVELS && Spells32(ps[0], level) && SpellsSlice(ps[1], key)
    case DeletedField(level, number) => |ps| == 2 && level < NUM_LEVELS && Spells32(ps[0], level) && Spells64(ps[1], number)
    case NewFileField(file) =>
      && |ps| == 5 && file.level < NUM_LEVELS && Spells32(ps[0], file.level) && Spells64(ps[1], file.number)
      && Spells64(ps[2], file.fileSize) && SpellsSlice(ps[3], file.smallest) && SpellsSlice(ps[4], file.largest)
  }

  /** Its tag, then its parts. */
  ghost predicate SpellsField(b: Bytes, f: Field) {
    exists t: nat, ps :: t <= |b| && Spells32(b[..t], Tag(f)) && SpellsParts(ps, f) && b[t..] == Joined(ps)
  }

  /** What a field does to the edit: the last scalar of a kind counts, files and pointers pile up, deletions are a set. */
  ghost predicate Applies(f: Field, e: Edit, next: Edit) {
    match f
    case ComparatorField(name) => next == e.(comparator := Some(name))
    case ScalarField(tag, value) =>
      if tag == 2 then next == e.(logNumber := Some(value))
      else if tag == 3 then next == e.(nextFileNumber := Some(value))
      else if tag == 4 then next == e.(lastSequence := Some(value))
      else next == e.(prevLogNumber := Some(value))
    case PointerField(level, key) => next == e.(compactPointers := e.compactPointers + [(level, key)])
    case DeletedField(level, number) =>
      && next == e.(deletedFiles := next.deletedFiles)
      && InOrder(next.deletedFiles) && SetOf(next.deletedFiles) == SetOf(e.deletedFiles) + {(level, number)}
    case NewFileField(file) => next == e.(newFiles := e.newFiles + [file])
  }

  ghost function SetOf(ds: seq<(nat, Word64)>): set<(nat, Word64)> {
    set d | d in ds
  }

  lemma SpeltNumberIsRead(b: Bytes, rest: Bytes, v: nat)
    ensures Spells32(b, v) ==> Get32(b + rest) == Some((v, rest))
    ensures Spells64(b, v) ==> Get64(b + rest) == Some((v, rest))
  {
    hide DecodeVarint, SpellsNumber;
    assert (b + rest)[|b|..] == rest;
    if Spells32(b, v) {
      var w: nat :| SpellsNumber(b, 5, w) && w % TWO32 == v;
      NumberIsRead(b, rest, 5, w);
    }
    if Spells64(b, v) {
      var w: nat :| SpellsNumber(b, 10, w) && w % TWO64 == v;
      NumberIsRead(b, rest, 10, w);
    }
  }

  lemma ReadNumberIsSpelt(input: Bytes, limit: nat, modulus: nat) returns (b: Bytes)
    requires modulus > 0 && DecodeVarint(input, limit).Some?
    ensures var (v, n) := DecodeVarint(input, limit).value; input == b + input[n..] && Spells(b, limit, modulus, v % modulus)
  {
    hide DecodeVarint, SpellsNumber;
    var (v, n) := DecodeVarint(input, limit).value;
    b := input[..n];
    assert input == b + input[n..];
    NumberIsRead(b, input[n..], limit, v);
  }

  lemma Read32IsSpelt(input: Bytes) returns (b: Bytes)
    requires Get32(input).Some?
    ensures input == b + Get32(input).value.1 && Spells32(b, Get32(input).value.0)
  {
    b := ReadNumberIsSpelt(input, 5, TWO32);
  }

  lemma Read64IsSpelt(input: Bytes) returns (b: Bytes)
    requires Get64(input).Some?
    ensures input == b + Get64(input).value.1 && Spells64(b, Get64(input).value.0)
  {
    b := ReadNumberIsSpelt(input, 10, TWO64);
  }

  lemma {:induction false} InsertedSet(ds: seq<(nat, Word64)>, d: (nat, Word64))
    requires InOrder(ds)
    ensures InOrder(InsertDeleted(ds, d)) && SetOf(InsertDeleted(ds, d)) == SetOf(ds) + {d}
  {
    if ds != [] {
      var rest := ds[1..];
      InsertedSet(rest, d);
      assert ds == [ds[0]] + rest;
      forall x ensures x in SetOf(ds) <==> x == ds[0] || x in SetOf(rest) {
      }
      if Before(ds[0], d) {
        var more := InsertDeleted(rest, d);
        forall i | 0 <= i < |more| ensures Before(ds[0], more[i]) {
          assert more[i] in SetOf(more);
        }
        forall x ensures x in SetOf([ds[0]] + more) <==> x == ds[0] || x in SetOf(more) {
        }
      }
    }
  }

  lemma SomeElement(ds: seq<(nat, Word64)>)
    ensures ds == [] <==> SetOf(ds) == {}
  {
    if ds != [] {
      assert ds[0] in SetOf(ds);
    }
  }

  lemma {:induction false} OrderedOnce(a: seq<(nat, Word64)>, b: seq<(nat, Word64)>)
    requires InOrder(a) && InOrder(b) && SetOf(a) == SetOf(b)
    ensures a == b
    decreases |a|
  {
    SomeElement(a);
    SomeElement(b);
    if a != [] && b != [] {
      assert a[0] in SetOf(b) && b[0] in SetOf(a);
      assert a[0] == b[0];
      assert a == [a[0]] + a[1..] && b == [b[0]] + b[1..];
      forall d ensures d in SetOf(a[1..]) <==> d in SetOf(b[1..]) {
        assert d in SetOf(a) <==> d == a[0] || d in SetOf(a[1..]);
        assert d in SetOf(b) <==> d == b[0] || d in SetOf(b[1..]);
        assert a[0] !in a[1..] && b[0] !in b[1..];
      }
      OrderedOnce(a[1..], b[1..]);
    }
  }

  /** What GetField makes of a field. */
  ghost function Applied(f: Field, e: Edit): Edit {
    match f
    case ComparatorField(name) => e.(comparator := Some(name))
    case ScalarField(tag, value) => SetScalar(e, tag, Some(value))
    case PointerField(level, key) => e.(compactPointers := e.compactPointers + [(level, key)])
    case DeletedField(level, number) => e.(deletedFiles := InsertDeleted(e.deletedFiles, (level, number)))
    case NewFileField(file) => e.(newFiles := e.newFiles + [file])
  }

  lemma AppliedApplies(f: Field, e: Edit, next: Edit)
    requires InOrder(e.deletedFiles) && (f.ScalarField? ==> IsScalar(f.tag))
    ensures Applies(f, e, next) <==> next == Applied(f, e)
    ensures InOrder(Applied(f, e).deletedFiles)
  {
    hide InOrder, SetOf, InsertDeleted;
    if f.DeletedField? {
      var d := (f.level, f.number);
      InsertedSet(e.deletedFiles, d);
      if Applies(f, e, next) {
        OrderedOnce(next.deletedFiles, InsertDeleted(e.deletedFiles, d));
      }
    }
  }

  lemma TwoPieces(a: Bytes, b: Bytes)
    ensures Joined([a]) == a && Joined([a, b]) == a + b
  {
    assert [a][1..] == [] && [a, b][1..] == [b];
    assert Joined([b]) == b + Joined([b][1..]) == b;
  }

  lemma FivePieces(a: Bytes, b: Bytes, c: Bytes, d: Bytes, e: Bytes)
    ensures Joined([a, b, c, d, e]) == a + (b + (c + (d + e)))
  {
    var ps := [a, b, c, d, e];
    assert ps[1..] == [b, c, d, e] && [b, c, d, e][1..] == [c, d, e] && [c, d, e][1..] == [d, e];
    TwoPieces(d, e);
    assert Joined([c, d, e]) == c + (d + e);
    assert Joined([b, c, d, e]) == b + (c + (d + e));
  }

  lemma SpeltPartsAreRead(ps: seq<Bytes>, f: Field, rest: Bytes, e: Edit)
    requires SpellsParts(ps, f)
    ensures GetParts(Tag(f), Joined(ps) + rest, e) == Some((Applied(f, e), rest))
  {
    hide Spells32, Spells64, SpellsSlice, Get32, Get64, GetSlice;
    var input := Joined(ps) + rest;
    match f
    case ComparatorField(name) =>
      TwoPieces(ps[0], []);
      assert ps == [ps[0]];
      SliceIsRead(ps[0], rest, name);
    case ScalarField(tag, value) =>
      TwoPieces(ps[0], []);
      assert ps == [ps[0]];
      SpeltNumberIsRead(ps[0], rest, value);
    case PointerField(level, key) =>
      TwoPieces(ps[0], ps[1]);
      assert ps == [ps[0], ps[1]] && input == ps[0] + (ps[1] + rest);
      SpeltNumberIsRead(ps[0], ps[1] + rest, level);
      SliceIsRead(ps[1], rest, key);
    case DeletedField(level, number) =>
      TwoPieces(ps[0], ps[1]);
      assert ps == [ps[0], ps[1]] && input == ps[0] + (ps[1] + rest);
      SpeltNumberIsRead(ps[0], ps[1] + rest, level);
      SpeltNumberIsRead(ps[1], rest, number);
    case NewFileField(file) =>
      FivePieces(ps[0], ps[1], ps[2], ps[3], ps[4]);
      assert ps == [ps[0], ps[1], ps[2], ps[3], ps[4]];
      var t := ps[4] + rest;
      assert input == ps[0] + (ps[1] + (ps[2] + (ps[3] + t)));
      SpeltNumberIsRead(ps[0], ps[1] + (ps[2] + (ps[3] + t)), file.level);
      SpeltNumberIsRead(ps[1], ps[2] + (ps[3] + t), file.number);
      SpeltNumberIsRead(ps[2], ps[3] + t, file.fileSize);
      SliceIsRead(ps[3], t, file.smallest);
      SliceIsRead(ps[4], rest, file.largest);
  }

  lemma ReadPartsAreSpelt(tag: nat, input: Bytes, e: Edit) returns (ps: seq<Bytes>, f: Field)
    requires GetParts(tag, input, e).Some?
    ensures Tag(f) == tag && SpellsParts(ps, f)
    ensures GetParts(tag, input, e).value.0 == Applied(f, e) && input == Joined(ps) + GetParts(tag, input, e).value.1
  {
    hide Spells32, Spells64, SpellsSlice, Get32, Get64, GetSlice;
    if tag == COMPARATOR {
      var a := ReadSliceIsSpelt(input);
      TwoPieces(a, []);
      ps, f := [a], ComparatorField(GetSlice(input).value.0);
    } else if IsScalar(tag) {
      var a := Read64IsSpelt(input);
      TwoPieces(a, []);
      ps, f := [a], ScalarField(tag, Get64(input).value.0);
    } else if tag == COMPACT_POINTER {
      var a := Read32IsSpelt(input);
      var (level, rest) := Get32(input).value;
      var b := ReadSliceIsSpelt(rest);
      TwoPieces(a, b);
      ps, f := [a, b], PointerField(level, GetSlice(rest).value.0);
    } else if tag == DELETED_FILE {
      var a := Read32IsSpelt(input);
      var (level, rest) := Get32(input).value;
      var b := Read64IsSpelt(rest);
      TwoPieces(a, b);
      ps, f := [a, b], DeletedField(level, Get64(rest).value.0);
    } else {
      ps, f := ReadNewFileIsSpelt(input, e);
    }
  }

  lemma ReadNewFileIsSpelt(input: Bytes, e: Edit) returns (ps: seq<Bytes>, f: Field)
    requires GetNewFile(input, e).Some?
    ensures f.NewFileField? && SpellsParts(ps, f)
    ensures GetNewFile(input, e).value.0 == Applied(f, e) && input == Joined(ps) + GetNewFile(input, e).value.1
  {
    hide Spells32, Spells64, SpellsSlice, Get32, Get64, GetSlice;
    var p0 := Read32IsSpelt(input);
    var (level, a) := Get32(input).value;
    var p1 := Read64IsSpelt(a);
    var (number, b) := Get64(a).value;
    var p2 := Read64IsSpelt(b);
    var (size, c) := Get64(b).value;
    var p3 := ReadSliceIsSpelt(c);
    var (smallest, d) := GetSlice(c).value;
    var p4 := ReadSliceIsSpelt(d);
    FivePieces(p0, p1, p2, p3, p4);
    ps, f := [p0, p1, p2, p3, p4], NewFileField(NewFile(level, number, size, smallest, GetSlice(d).value.0));
  }

  lemma SpeltFieldIsRead(b: Bytes, f: Field, rest: Bytes, e: Edit)
    requires SpellsField(b, f)
    ensures b != [] && GetField(b + rest, e) == Some((Applied(f, e), rest))
  {
    hide Spells32, SpellsParts, GetParts, Get32, Applied;
    var t: nat, ps :| t <= |b| && Spells32(b[..t], Tag(f)) && SpellsParts(ps, f) && b[t..] == Joined(ps);
    assert b + rest == b[..t] + (b[t..] + rest);
    SpeltNumberIsRead(b[..t], b[t..] + rest, Tag(f));
    SpeltPartsAreRead(ps, f, rest, e);
  }

  lemma ReadFieldIsSpelt(input: Bytes, e: Edit) returns (b: Bytes, f: Field)
    requires GetField(input, e).Some?
    ensures SpellsField(b, f) && GetField(input, e).value.0 == Applied(f, e) && input == b + GetField(input, e).value.1
    ensures f.ScalarField? ==> IsScalar(f.tag)
  {
    hide Spells32, GetParts, Get32, Applied, Joined, SpellsSlice, Spells64;
    var t := Read32IsSpelt(input);
    var (tag, rest) := Get32(input).value;
    var ps;
    ps, f := ReadPartsAreSpelt(tag, rest, e);
    b := t + Joined(ps);
    assert b[..|t|] == t && b[|t|..] == Joined(ps);
  }

  ghost predicate SpellFields(bs: seq<Bytes>, fs: seq<Field>) {
    |bs| == |fs| && forall i :: 0 <= i < |bs| ==> SpellsField(bs[i], fs[i])
  }

  /** The fields, applied one after the other, make `e` of `start`. */
  ghost predicate Make(fs: seq<Field>, start: Edit, e: Edit)
    decreases fs
  {
    if fs == [] then e == start else exists next :: Applies(fs[0], start, next) && Make(fs[1..], next, e)
  }

  /** The tags of scalar fields are those of scalars. */
  lemma SpeltScalar(b: Bytes, f: Field)
    requires SpellsField(b, f)
    ensures f.ScalarField? ==> IsScalar(f.tag)
  {
  }

  lemma {:induction false} SpeltIsParsed(bs: seq<Bytes>, fs: seq<Field>, start: Edit, e: Edit)
    requires SpellFields(bs, fs) && Make(fs, start, e) && InOrder(start.deletedFiles)
    ensures Parse(Joined(bs), start) == Some(e)
    decreases bs
  {
    hide GetField, SpellsField, Applies, Applied, InOrder;
    if bs != [] {
      var next :| Applies(fs[0], start, next) && Make(fs[1..], next, e);
      SpeltScalar(bs[0], fs[0]);
      AppliedApplies(fs[0], start, next);
      SpeltFieldIsRead(bs[0], fs[0], Joined(bs[1..]), start);
      SpeltIsParsed(bs[1..], fs[1..], next, e);
    }
  }

  lemma {:induction false} ParsedIsSpelt(input: Bytes, start: Edit) returns (bs: seq<Bytes>, fs: seq<Field>)
    requires Parse(input, start).Some? && InOrder(start.deletedFiles)
    ensures SpellFields(bs, fs) && Joined(bs) == input && Make(fs, start, Parse(input, start).value)
    decreases |input|
  {
    hide GetField, SpellsField, Applies, Applied, InOrder;
    bs, fs := [], [];
    if input != [] {
      var b, f := ReadFieldIsSpelt(input, start);
      var (next, rest) := GetField(input, start).value;
      AppliedApplies(f, start, next);
      var bs1, fs1 := ParsedIsSpelt(rest, next);
      bs, fs := [b] + bs1, [f] + fs1;
      assert bs[1..] == bs1 && fs[1..] == fs1;
    }
  }

  /** The bytes spell fields that make the edit. */
  ghost predicate SpellsEdit(src: Bytes, e: Edit) {
    exists bs, fs :: SpellFields(bs, fs) && Joined(bs) == src && Make(fs, EMPTY, e)
  }

  /** A record is taken for an edit exactly if it spells that edit. */
  lemma EditsAreSpelt(src: Bytes, e: Edit)
    ensures Parse(src, EMPTY) == Some(e) <==> SpellsEdit(src, e)
  {
    hide SpellFields, Make, Parse;
    if Parse(src, EMPTY) == Some(e) {
      var bs, fs := ParsedIsSpelt(src, EMPTY);
    }
    if bs, fs :| SpellFields(bs, fs) && Joined(bs) == src && Make(fs, EMPTY, e) {
      SpeltIsParsed(bs, fs, EMPTY, e);
    }
  }

  lemma FieldStaysWritable(b: Bytes, f: Field, e: Edit)
    requires SpellsField(b, f) && Writable(e)
    ensures Writable(Applied(f, e))
  {
    hide Spells, Joined, SpellsNumber, InsertDeleted, InOrder;
    if f.DeletedField? {
      var ds := InsertDeleted(e.deletedFiles, (f.level, f.number));
      InsertedSet(e.deletedFiles, (f.level, f.number));
      forall i | 0 <= i < |ds| ensures ds[i].0 < NUM_LEVELS {
        assert ds[i] in SetOf(ds);
      }
    }
  }

  /** Whatever is taken for an edit can be written again, and then reads as itself. */
  lemma {:induction false} ParsedIsWritable(input: Bytes, start: Edit)
    requires Parse(input, start).Some? && Writable(start)
    ensures Writable(Parse(input, start).value)
    ensures Parse(EncodeEdit(Parse(input, start).value), EMPTY) == Parse(input, start)
    decreases |input|
  {
    hide GetField, SpellsField, Applied, Writable, EncodeEdit;
    if input == [] {
      EditRoundTrip(start);
    } else {
      var b, f := ReadFieldIsSpelt(input, start);
      FieldStaysWritable(b, f, start);
      ParsedIsWritable(GetField(input, start).value.1, GetField(input, start).value.0);
    }
  }
}
