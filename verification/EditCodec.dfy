/** Version edits as manifest records (db/version_edit.cc). */
module EditCodec {
  import opened DbFormat
  import opened Coding
  import opened WriteBatches

  datatype NewFile = NewFile(level: nat, number: Word64, fileSize: Word64, smallest: Bytes, largest: Bytes)

  /** An edit as it is written: keys by their bytes, the set of deleted files in its order. */
  datatype Edit = Edit(comparator: Option<Bytes>, logNumber: Option<Word64>, prevLogNumber: Option<Word64>,
                       nextFileNumber: Option<Word64>, lastSequence: Option<Word64>,
                       compactPointers: seq<(nat, Bytes)>, deletedFiles: seq<(nat, Word64)>, newFiles: seq<NewFile>)

  const EMPTY := Edit(None, None, None, None, None, [], [], [])

  const COMPARATOR: nat := 1
  const LOG_NUMBER: nat := 2
  const NEXT_FILE_NUMBER: nat := 3
  const LAST_SEQUENCE: nat := 4
  const COMPACT_POINTER: nat := 5
  const DELETED_FILE: nat := 6
  const NEW_FILE: nat := 7
  const PREV_LOG_NUMBER: nat := 9

  /** The order of the set of deleted files. */
  predicate Before(a: (nat, Word64), b: (nat, Word64)) {
    a.0 < b.0 || (a.0 == b.0 && a.1 < b.1)
  }

  ghost predicate InOrder(deleted: seq<(nat, Word64)>) {
    forall i, j :: 0 <= i < j < |deleted| ==> Before(deleted[i], deleted[j])
  }

  /** What an edit may hold to be written: levels that exist, and slices with 32-bit lengths. */
  ghost predicate Writable(e: Edit) {
    && (e.comparator.Some? ==> |e.comparator.value| < TWO32)
    && (forall i :: 0 <= i < |e.compactPointers| ==> e.compactPointers[i].0 < NUM_LEVELS && |e.compactPointers[i].1| < TWO32)
    && (forall i :: 0 <= i < |e.deletedFiles| ==> e.deletedFiles[i].0 < NUM_LEVELS) && InOrder(e.deletedFiles)
    && (forall i :: 0 <= i < |e.newFiles| ==> WritableFile(e.newFiles[i]))
  }

  predicate WritableFile(f: NewFile) {
    f.level < NUM_LEVELS && |f.smallest| < TWO32 && |f.largest| < TWO32
  }

  function Scalar(tag: nat, value: Option<Word64>): Bytes {
    if value.Some? then EncodeVarint(tag) + EncodeVarint(value.value) else []
  }

  function EncodePointer(p: (nat, Bytes)): Bytes {
    EncodeVarint(COMPACT_POINTER) + (EncodeVarint(p.0) + LengthPrefixed(p.1))
  }

  function EncodeDeleted(d: (nat, Word64)): Bytes {
    EncodeVarint(DELETED_FILE) + (EncodeVarint(d.0) + EncodeVarint(d.1))
  }

  function EncodeNewFile(f: NewFile): Bytes {
    EncodeVarint(NEW_FILE) + (EncodeVarint(f.level) + (EncodeVarint(f.number) + (EncodeVarint(f.fileSize)
    + (LengthPrefixed(f.smallest) + LengthPrefixed(f.largest)))))
  }

  function EncodePointers(ps: seq<(nat, Bytes)>): Bytes {
    if ps == [] then [] else EncodePointer(ps[0]) + EncodePointers(ps[1..])
  }

  function EncodeAllDeleted(ds: seq<(nat, Word64)>): Bytes {
    if ds == [] then [] else EncodeDeleted(ds[0]) + EncodeAllDeleted(ds[1..])
  }

  function EncodeNewFiles(fs: seq<NewFile>): Bytes {
    if fs == [] then [] else EncodeNewFile(fs[0]) + EncodeNewFiles(fs[1..])
  }

  /** EncodeTo. */
  function EncodeEdit(e: Edit): Bytes {
    (if e.comparator.Some? then EncodeVarint(COMPARATOR) + LengthPrefixed(e.comparator.value) else [])
    + (Scalar(LOG_NUMBER, e.logNumber) + (Scalar(PREV_LOG_NUMBER, e.prevLogNumber)
    + (Scalar(NEXT_FILE_NUMBER, e.nextFileNumber) + (Scalar(LAST_SEQUENCE, e.lastSequence)
    + (EncodePointers(e.compactPointers) + (EncodeAllDeleted(e.deletedFiles) + EncodeNewFiles(e.newFiles)))))))
  }

  // ----- Decoding -----

  function Get32(input: Bytes): (r: Option<(nat, Bytes)>)
    ensures r.Some? ==> |r.value.1| < |input|
  {
    match DecodeVarint(input, 5) case None => None case Some((v, n)) => Some((v % TWO32, input[n..]))
  }

  function Get64(input: Bytes): (r: Option<(Word64, Bytes)>)
    ensures r.Some? ==> |r.value.1| < |input|
  {
    match DecodeVarint(input, 10) case None => None case Some((v, n)) => Some((v % TWO64, input[n..]))
  }

  function GetLevel(input: Bytes): (r: Option<(nat, Bytes)>)
    ensures r.Some? ==> |r.value.1| < |input| && r.value.0 < NUM_LEVELS
  {
    match Get32(input) case None => None case Some((v, rest)) => if v < NUM_LEVELS then Some((v, rest)) else None
  }

  /** std::set::insert. */
  function InsertDeleted(ds: seq<(nat, Word64)>, d: (nat, Word64)): seq<(nat, Word64)> {
    if ds == [] then [d]
    else if Before(ds[0], d) then [ds[0]] + InsertDeleted(ds[1..], d)
    else if ds[0] == d then ds
    else [d] + ds
  }

  predicate IsScalar(tag: nat) {
    tag == LOG_NUMBER || tag == PREV_LOG_NUMBER || tag == NEXT_FILE_NUMBER || tag == LAST_SEQUENCE
  }

  function SetScalar(e: Edit, tag: nat, value: Option<Word64>): Edit {
    if tag == LOG_NUMBER then e.(logNumber := value)
    else if tag == PREV_LOG_NUMBER then e.(prevLogNumber := value)
    else if tag == NEXT_FILE_NUMBER then e.(nextFileNumber := value)
    else e.(lastSequence := value)
  }

  function GetScalar(input: Bytes, e: Edit, tag: nat): (r: Option<(Edit, Bytes)>)
    ensures r.Some? ==> |r.value.1| < |input|
  {
    match Get64(input) case None => None case Some((v, rest)) => Some((SetScalar(e, tag, Some(v)), rest))
  }

  function GetPointer(input: Bytes, e: Edit): (r: Option<(Edit, Bytes)>)
    ensures r.Some? ==> |r.value.1| < |input|
  {
    match GetLevel(input)
    case None => None
    case Some((level, rest)) =>
      match GetSlice(rest)
      case None => None
      case Some((key, after)) => Some((e.(compactPointers := e.compactPointers + [(level, key)]), after))
  }

  function GetDeleted(input: Bytes, e: Edit): (r: Option<(Edit, Bytes)>)
    ensures r.Some? ==> |r.value.1| < |input|
  {
    match GetLevel(input)
    case None => None
    case Some((level, rest)) =>
      match Get64(rest)
      case None => None
      case Some((number, after)) => Some((e.(deletedFiles := InsertDeleted(e.deletedFiles, (level, number))), after))
  }

  function GetNewFile(input: Bytes, e: Edit): (r: Option<(Edit, Bytes)>)
    ensures r.Some? ==> |r.value.1| < |input|
  {
    match GetLevel(input)
    case None => None
    case Some((level, a)) =>
      match Get64(a)
      case None => None
      case Some((number, b)) =>
        match Get64(b)
        case None => None
        case Some((fileSize, c)) =>
          match GetSlice(c)
          case None => None
          case Some((smallest, d)) =>
            match GetSlice(d)
            case None => None
            case Some((largest, after)) =>
              Some((e.(newFiles := e.newFiles + [NewFile(level, number, fileSize, smallest, largest)]), after))
  }

  function GetComparator(input: Bytes, e: Edit): (r: Option<(Edit, Bytes)>)
    ensures r.Some? ==> |r.value.1| < |input|
  {
    match GetSlice(input) case None => None case Some((name, rest)) => Some((e.(comparator := Some(name)), rest))
  }

  /** What follows the tag of a field. */
  function GetParts(tag: nat, input: Bytes, e: Edit): (r: Option<(Edit, Bytes)>)
    ensures r.Some? ==> |r.value.1| < |input|
  {
    if tag == COMPARATOR then GetComparator(input, e)
    else if IsScalar(tag) then GetScalar(input, e, tag)
    else if tag == COMPACT_POINTER then GetPointer(input, e)
    else if tag == DELETED_FILE then GetDeleted(input, e)
    else if tag == NEW_FILE then GetNewFile(input, e)
    else None
  }

  /** One turn of DecodeFrom's loop: a tag and its field. */
  function GetField(input: Bytes, e: Edit): (r: Option<(Edit, Bytes)>)
    ensures r.Some? ==> |r.value.1| < |input|
  {
    match Get32(input) case None => None case Some((tag, rest)) => GetParts(tag, rest, e)
  }

  /** DecodeFrom into `e`: all fields, or None for corruption. */
  function Parse(input: Bytes, e: Edit): Option<Edit>
    decreases |input|
  {
    if input == [] then Some(e) else
      match GetField(input, e) case None => None case Some((next, rest)) => Parse(rest, next)
  }

  method DecodeFrom(src: Bytes) returns (e: Option<Edit>)
    ensures e == Parse(src, EMPTY)
  {
    hide GetField;
    var input, edit := src, EMPTY;
    while input != []
      invariant Parse(input, edit) == Parse(src, EMPTY)
      decreases |input|
    {
      match GetField(input, edit) {
        case None => return None;
        case Some((next, rest)) => input, edit := rest, next;
      }
    }
    return Some(edit);
  }

  // ----- Round trip -----

  lemma Reads32(v: nat, rest: Bytes)
    requires v < TWO32
    ensures Get32(EncodeVarint(v) + rest) == Some((v, rest))
  {
    assert Power128(5) >= TWO32 by {
      assert Power128(1) == 128 && Power128(2) == 0x4000 && Power128(3) == 0x20_0000 && Power128(4) == 0x1000_0000;
    }
    VarintRoundTrip(v, 5, rest);
  }

  lemma Reads64(v: Word64, rest: Bytes)
    ensures Get64(EncodeVarint(v) + rest) == Some((v, rest))
  {
    assert Power128(10) >= TWO64 by {
      assert Power128(2) == 0x4000 && Power128(4) == 0x1000_0000 && Power128(6) == 0x400_0000_0000 && Power128(8) == 0x100_0000_0000_0000;
    }
    VarintRoundTrip(v, 10, rest);
  }

  lemma ReadsLevel(level: nat, rest: Bytes)
    requires level < NUM_LEVELS
    ensures GetLevel(EncodeVarint(level) + rest) == Some((level, rest))
  {
    Reads32(level, rest);
  }

  /** What is after a field is untouched by how the field is written. */
  lemma ParseField(field: Bytes, rest: Bytes, e: Edit, next: Edit)
    requires GetField(field + rest, e) == Some((next, rest)) && field != []
    ensures Parse(field + rest, e) == Parse(rest, next)
  {
    hide GetField;
  }

  lemma ParseScalar(tag: nat, value: Option<Word64>, rest: Bytes, e: Edit, next: Edit)
    requires IsScalar(tag) && next == if value.Some? then SetScalar(e, tag, value) else e
    ensures Parse(Scalar(tag, value) + rest, e) == Parse(rest, next)
  {
    hide EncodeVarint, Get32, Get64, Parse;
    if value.Some? {
      var field := Scalar(tag, value);
      assert field + rest == EncodeVarint(tag) + (EncodeVarint(value.value) + rest);
      Reads32(tag, EncodeVarint(value.value) + rest);
      Reads64(value.value, rest);
      ParseField(field, rest, e, next);
    } else {
      assert Scalar(tag, value) + rest == rest;
    }
  }

  lemma ParseComparator(name: Bytes, rest: Bytes, e: Edit)
    requires |name| < TWO32
    ensures Parse(EncodeVarint(COMPARATOR) + LengthPrefixed(name) + rest, e) == Parse(rest, e.(comparator := Some(name)))
  {
    hide EncodeVarint, Get32, GetSlice, LengthPrefixed, Parse;
    var field := EncodeVarint(COMPARATOR) + LengthPrefixed(name);
    assert field + rest == EncodeVarint(COMPARATOR) + (LengthPrefixed(name) + rest);
    Reads32(COMPARATOR, LengthPrefixed(name) + rest);
    SliceRoundTrip(name, rest);
    ParseField(field, rest, e, e.(comparator := Some(name)));
  }

  lemma {:induction false} ParsePointers(ps: seq<(nat, Bytes)>, rest: Bytes, e: Edit)
    requires forall i :: 0 <= i < |ps| ==> ps[i].0 < NUM_LEVELS && |ps[i].1| < TWO32
    ensures Parse(EncodePointers(ps) + rest, e) == Parse(rest, e.(compactPointers := e.compactPointers + ps))
    decreases |ps|
  {
    hide EncodeVarint, Get32, GetLevel, GetSlice, LengthPrefixed, Parse;
    if ps == [] {
      assert EncodePointers(ps) + rest == rest && e.compactPointers + ps == e.compactPointers;
    } else {
      var p := ps[0];
      var more := EncodePointers(ps[1..]) + rest;
      var field, tail := EncodePointer(p), LengthPrefixed(p.1) + more;
      assert EncodePointers(ps) + rest == field + more;
      assert field + more == EncodeVarint(COMPACT_POINTER) + (EncodeVarint(p.0) + tail);
      Reads32(COMPACT_POINTER, EncodeVarint(p.0) + tail);
      ReadsLevel(p.0, tail);
      SliceRoundTrip(p.1, more);
      var next := e.(compactPointers := e.compactPointers + [p]);
      ParseField(field, more, e, next);
      ParsePointers(ps[1..], rest, next);
      assert e.compactPointers + [p] + ps[1..] == e.compactPointers + ps;
    }
  }

  lemma {:induction false} InsertLast(ds: seq<(nat, Word64)>, d: (nat, Word64))
    requires forall i :: 0 <= i < |ds| ==> Before(ds[i], d)
    ensures InsertDeleted(ds, d) == ds + [d]
  {
    if ds != [] {
      InsertLast(ds[1..], d);
    }
  }

  lemma DeletedReads(d: (nat, Word64), more: Bytes, e: Edit)
    requires d.0 < NUM_LEVELS
    ensures EncodeDeleted(d) != []
    ensures GetField(EncodeDeleted(d) + more, e) == Some((e.(deletedFiles := InsertDeleted(e.deletedFiles, d)), more))
  {
    hide EncodeVarint, Get32, GetLevel, Get64, InsertDeleted;
    var tail := EncodeVarint(d.1) + more;
    assert EncodeDeleted(d) + more == EncodeVarint(DELETED_FILE) + (EncodeVarint(d.0) + tail);
    Reads32(DELETED_FILE, EncodeVarint(d.0) + tail);
    ReadsLevel(d.0, tail);
    Reads64(d.1, more);
  }

  lemma {:induction false} ParseDeleted(ds: seq<(nat, Word64)>, rest: Bytes, e: Edit)
    requires forall i :: 0 <= i < |ds| ==> ds[i].0 < NUM_LEVELS
    requires InOrder(e.deletedFiles + ds)
    ensures Parse(EncodeAllDeleted(ds) + rest, e) == Parse(rest, e.(deletedFiles := e.deletedFiles + ds))
    decreases |ds|
  {
    hide EncodeDeleted, GetField, Parse;
    if ds == [] {
      assert EncodeAllDeleted(ds) + rest == rest && e.deletedFiles + ds == e.deletedFiles;
    } else {
      var d := ds[0];
      var all := e.deletedFiles + ds;
      var more := EncodeAllDeleted(ds[1..]) + rest;
      assert EncodeAllDeleted(ds) + rest == EncodeDeleted(d) + more;
      DeletedReads(d, more, e);
      assert all[|e.deletedFiles|] == d && forall i :: 0 <= i < |e.deletedFiles| ==> all[i] == e.deletedFiles[i];
      InsertLast(e.deletedFiles, d);
      var next := e.(deletedFiles := e.deletedFiles + [d]);
      ParseField(EncodeDeleted(d), more, e, next);
      assert next.deletedFiles + ds[1..] == all;
      ParseDeleted(ds[1..], rest, next);
    }
  }

  lemma {:induction false} ParseNewFiles(fs: seq<NewFile>, e: Edit)
    requires forall i :: 0 <= i < |fs| ==> WritableFile(fs[i])
    ensures Parse(EncodeNewFiles(fs), e) == Some(e.(newFiles := e.newFiles + fs))
    decreases |fs|
  {
    hide EncodeVarint, Get32, GetLevel, Get64, GetSlice, LengthPrefixed;
    if fs == [] {
      assert e.newFiles + fs == e.newFiles;
    } else {
      var f := fs[0];
      var more := EncodeNewFiles(fs[1..]);
      var field := EncodeNewFile(f);
      NewFileReads(f, more, e);
      var next := e.(newFiles := e.newFiles + [f]);
      ParseField(field, more, e, next);
      ParseNewFiles(fs[1..], next);
      assert e.newFiles + [f] + fs[1..] == e.newFiles + fs;
    }
  }

  lemma NewFileReads(f: NewFile, more: Bytes, e: Edit)
    requires WritableFile(f)
    ensures EncodeNewFile(f) != [] && GetField(EncodeNewFile(f) + more, e) == Some((e.(newFiles := e.newFiles + [f]), more))
  {
    hide EncodeVarint, Get32, GetLevel, Get64, GetSlice, LengthPrefixed;
    var t5 := LengthPrefixed(f.largest) + more;
    var t4 := LengthPrefixed(f.smallest) + t5;
    var t3 := EncodeVarint(f.fileSize) + t4;
    var t2 := EncodeVarint(f.number) + t3;
    var t1 := EncodeVarint(f.level) + t2;
    assert EncodeNewFile(f) + more == EncodeVarint(NEW_FILE) + t1;
    Reads32(NEW_FILE, t1);
    ReadsLevel(f.level, t2);
    Reads64(f.number, t3);
    Reads64(f.fileSize, t4);
    SliceRoundTrip(f.smallest, t5);
    SliceRoundTrip(f.largest, more);
  }

  /** Decoding an encoded edit into a fresh one gives the edit back. */
  lemma EditRoundTrip(e: Edit)
    requires Writable(e)
    ensures Parse(EncodeEdit(e), EMPTY) == Some(e)
  {
    hide Parse, Scalar, EncodePointers, EncodeAllDeleted, EncodeNewFiles, LengthPrefixed, EncodeVarint;
    var files := EncodeNewFiles(e.newFiles);
    var deleted := EncodeAllDeleted(e.deletedFiles) + files;
    var pointers := EncodePointers(e.compactPointers) + deleted;
    var sequence := Scalar(LAST_SEQUENCE, e.lastSequence) + pointers;
    var next := Scalar(NEXT_FILE_NUMBER, e.nextFileNumber) + sequence;
    var prev := Scalar(PREV_LOG_NUMBER, e.prevLogNumber) + next;
    var log := Scalar(LOG_NUMBER, e.logNumber) + prev;
    var e1 := EMPTY.(comparator := e.comparator);
    if e.comparator.Some? {
      ParseComparator(e.comparator.value, log, EMPTY);
    } else {
      assert EncodeEdit(e) == log;
    }
    var e2 := e1.(logNumber := e.logNumber);
    ParseScalar(LOG_NUMBER, e.logNumber, prev, e1, e2);
    var e3 := e2.(prevLogNumber := e.prevLogNumber);
    ParseScalar(PREV_LOG_NUMBER, e.prevLogNumber, next, e2, e3);
    var e4 := e3.(nextFileNumber := e.nextFileNumber);
    ParseScalar(NEXT_FILE_NUMBER, e.nextFileNumber, sequence, e3, e4);
    var e5 := e4.(lastSequence := e.lastSequence);
    ParseScalar(LAST_SEQUENCE, e.lastSequence, pointers, e4, e5);
    ParsePointers(e.compactPointers, deleted, e5);
    var e6 := e5.(compactPointers := e.compactPointers);
    assert e5.compactPointers + e.compactPointers == e.compactPointers;
    assert e6.deletedFiles + e.deletedFiles == e.deletedFiles;
    ParseDeleted(e.deletedFiles, files, e6);
    var e7 := e6.(deletedFiles := e.deletedFiles);
    ParseNewFiles(e.newFiles, e7);
    assert e7.newFiles + e.newFiles == e.newFiles;
  }
}
