/** Recovering the version set from its manifest (VersionSet::Recover in db/version_set.cc). */
module Manifests {
  import opened DbFormat
  import opened Coding
  import opened LogFormat
  import opened LogRoundTrip
  import LogReaders
  import opened EditCodec
  import EditSpelling
  import opened Files
  import opened Versions
  import opened Builders
  import E = Edits

  /** The table file that a manifest entry names. */
  type Open = NewFile -> FileMeta

  /** A decoded edit as the builder takes it. */
  function ToVersionEdit(e: Edit, open: Open): VersionEdit {
    VersionEdit(set d | d in e.deletedFiles :: (d.0, d.1 as nat),
                seq(|e.newFiles|, i requires 0 <= i < |e.newFiles| => (e.newFiles[i].level, open(e.newFiles[i]))))
  }

  function ToVersionEdits(es: seq<Edit>, open: Open): seq<VersionEdit> {
    seq(|es|, i requires 0 <= i < |es| => ToVersionEdit(es[i], open))
  }

  datatype Counters = Counters(logNumber: Option<Word64>, prevLogNumber: Option<Word64>, nextFile: Option<Word64>,
                               lastSequence: Option<Word64>)

  function Newer<T>(old_: Option<T>, new_: Option<T>): Option<T> {
    if new_.Some? then new_ else old_
  }

  /** The last value of each counter. */
  function CountersOf(es: seq<Edit>): Counters {
    if es == [] then Counters(None, None, None, None) else
      var c, e := CountersOf(es[..|es| - 1]), es[|es| - 1];
      Counters(Newer(c.logNumber, e.logNumber), Newer(c.prevLogNumber, e.prevLogNumber),
               Newer(c.nextFile, e.nextFileNumber), Newer(c.lastSequence, e.lastSequence))
  }

  predicate Complete(c: Counters) {
    c.nextFile.Some? && c.logNumber.Some? && c.lastSequence.Some?
  }

  /** A record is an edit made under this comparator. */
  predicate Acceptable(record: Bytes, comparator: Bytes) {
    var e := Parse(record, EMPTY);
    e.Some? && (e.value.comparator.Some? ==> e.value.comparator.value == comparator)
  }

  predicate AllAcceptable(records: seq<Bytes>, comparator: Bytes) {
    forall i :: 0 <= i < |records| ==> Acceptable(records[i], comparator)
  }

  function Edits(records: seq<Bytes>, comparator: Bytes): seq<Edit>
    requires AllAcceptable(records, comparator)
  {
    seq(|records|, i requires 0 <= i < |records| => Parse(records[i], EMPTY).value)
  }

  /** The records spell edits, all made under this comparator or none in particular, and each of the three counters that a
      database needs is in one of them. */
  ghost predicate Restorable(records: seq<Bytes>, comparator: Bytes) {
    exists es :: AllSpelt(records, es, comparator) && SetsAll(es)
  }

  ghost predicate SetsAll(es: seq<Edit>) {
    && (exists i :: 0 <= i < |es| && es[i].nextFileNumber.Some?)
    && (exists i :: 0 <= i < |es| && es[i].logNumber.Some?)
    && (exists i :: 0 <= i < |es| && es[i].lastSequence.Some?)
  }

  ghost predicate AllSpelt(records: seq<Bytes>, es: seq<Edit>, comparator: Bytes)
  {
    |es| == |records| &&
    forall i :: 0 <= i < |es| ==> EditSpelling.SpellsEdit(records[i], es[i]) && (es[i].comparator.Some? ==> es[i].comparator.value == comparator)
  }

  /** The value of a counter is the last one set. */
  ghost predicate LastSet(values: seq<Option<Word64>>, last: Option<Word64>) {
    match last
    case None => forall i :: 0 <= i < |values| ==> values[i].None?
    case Some(v) => exists i :: 0 <= i < |values| && values[i] == last && forall j :: i < j < |values| ==> values[j].None?
  }

  ghost function LogNumbers(es: seq<Edit>): seq<Option<Word64>> {
    seq(|es|, i requires 0 <= i < |es| => es[i].logNumber)
  }

  ghost function PrevLogNumbers(es: seq<Edit>): seq<Option<Word64>> {
    seq(|es|, i requires 0 <= i < |es| => es[i].prevLogNumber)
  }

  ghost function NextFiles(es: seq<Edit>): seq<Option<Word64>> {
    seq(|es|, i requires 0 <= i < |es| => es[i].nextFileNumber)
  }

  ghost function LastSequences(es: seq<Edit>): seq<Option<Word64>> {
    seq(|es|, i requires 0 <= i < |es| => es[i].lastSequence)
  }

  lemma {:induction false} LastCounts(es: seq<Edit>)
    ensures var c := CountersOf(es);
      && LastSet(LogNumbers(es), c.logNumber) && LastSet(PrevLogNumbers(es), c.prevLogNumber)
      && LastSet(NextFiles(es), c.nextFile) && LastSet(LastSequences(es), c.lastSequence)
  {
    hide LastSet;
    if es == [] {
      NothingSet([]);
      assert LogNumbers(es) == [] && PrevLogNumbers(es) == [] && NextFiles(es) == [] && LastSequences(es) == [];
    } else {
      var n := |es| - 1;
      var before, e := es[..n], es[n];
      LastCounts(before);
      var c := CountersOf(before);
      OneMoreSet(LogNumbers(before), c.logNumber, e.logNumber);
      OneMoreSet(PrevLogNumbers(before), c.prevLogNumber, e.prevLogNumber);
      OneMoreSet(NextFiles(before), c.nextFile, e.nextFileNumber);
      OneMoreSet(LastSequences(before), c.lastSequence, e.lastSequence);
      assert LogNumbers(es) == LogNumbers(before) + [e.logNumber];
      assert PrevLogNumbers(es) == PrevLogNumbers(before) + [e.prevLogNumber];
      assert NextFiles(es) == NextFiles(before) + [e.nextFileNumber];
      assert LastSequences(es) == LastSequences(before) + [e.lastSequence];
    }
  }

  lemma NothingSet(values: seq<Option<Word64>>)
    requires values == []
    ensures LastSet(values, None)
  {
  }

  lemma OneMoreSet(values: seq<Option<Word64>>, last: Option<Word64>, value: Option<Word64>)
    requires LastSet(values, last)
    ensures LastSet(values + [value], Newer(last, value))
  {
    if value.Some? {
      assert (values + [value])[|values|] == value;
    } else if last.Some? {
      var i :| 0 <= i < |values| && values[i] == last && forall j :: i < j < |values| ==> values[j].None?;
      assert (values + [value])[i] == last;
    }
  }

  /** Recovery can go through exactly if the records are sound and complete. */
  lemma RestorableExactly(records: seq<Bytes>, comparator: Bytes)
    ensures Restorable(records, comparator) <==> AllAcceptable(records, comparator) && Complete(CountersOf(Edits(records, comparator)))
  {
    hide Parse, CountersOf, EditSpelling.SpellsEdit, LastSet;
    if AllAcceptable(records, comparator) {
      var es := Edits(records, comparator);
      forall i | 0 <= i < |es| ensures EditSpelling.SpellsEdit(records[i], es[i]) {
        EditSpelling.EditsAreSpelt(records[i], es[i]);
      }
      CompleteIsSet(es);
    }
    if es :| AllSpelt(records, es, comparator) && SetsAll(es) {
      forall i | 0 <= i < |es| ensures Parse(records[i], EMPTY) == Some(es[i]) {
        EditSpelling.EditsAreSpelt(records[i], es[i]);
      }
      assert Edits(records, comparator) == es;
      CompleteIsSet(es);
    }
  }

  lemma CompleteIsSet(es: seq<Edit>)
    ensures Complete(CountersOf(es)) <==> SetsAll(es)
  {
    hide CountersOf;
    LastCounts(es);
    forall i | 0 <= i < |es|
      ensures LogNumbers(es)[i] == es[i].logNumber && NextFiles(es)[i] == es[i].nextFileNumber && LastSequences(es)[i] == es[i].lastSequence {
    }
  }

  /** Recover: decode every record, fold all edits at once, take the last counters; any corruption, foreign comparator or
      missing counter fails it. */
  method Recover(reader: LogReaders.Reader, comparator: Bytes, base: Version, open: Open) returns (r: Option<(Version, Counters)>)
    requires reader.Valid() && reader.Position() == 0 && reader.reports == 0
    requires |base.files| == NUM_LEVELS && forall l :: 0 <= l < NUM_LEVELS ==> SortedBySmallest(base.files[l])
    requires var (records, _) := ReadAll(reader.crc, reader.file, 0);
      AllAcceptable(records, comparator) ==> EditsApply(base, ToVersionEdits(Edits(records, comparator), open))
    modifies reader
    ensures var (records, reports) := ReadAll(reader.crc, reader.file, 0);
      && (r.Some? <==> reports == 0 && Restorable(records, comparator))
      && (r.Some? ==> AllAcceptable(records, comparator))
      && (r.Some? ==>
            && IsFold(r.value.0, base, ToVersionEdits(Edits(records, comparator), open))
            && r.value.1 == CountersOf(Edits(records, comparator)))
  {
    hide Parse, EditsApply, IsFold, LogReaders.Reader.Buffered, BufferEnd, ReadLogical, ReadAll, CountersOf, Restorable;
    ghost var all := ReadAll(reader.crc, reader.file, 0);
    RestorableExactly(all.0, comparator);
    ghost var records: seq<Bytes> := [];
    var edits: seq<Edit> := [];
    var counters := Counters(None, None, None, None);
    NoCounters();
    assert [] + all.0 == all.0;
    var ok := true;
    while ok
      invariant reader.Valid()
      invariant ok ==> reader.reports == 0
      invariant all.0 == records + ReadAll(reader.crc, reader.file, reader.Position()).0 || !ok
      invariant ok ==> all.1 == ReadAll(reader.crc, reader.file, reader.Position()).1
      invariant AllAcceptable(records, comparator) && edits == Edits(records, comparator) && counters == CountersOf(edits)
      invariant !ok ==> all.0 == records && all.1 == reader.reports
      decreases ok, |reader.file| - reader.Position()
    {
      NextRecord(reader.crc, reader.file, reader.Position());
      var more, record := reader.ReadRecord();
      if !more {
        assert records + [] == records;
        ok := false;
      } else {
        assert records + ([record] + ReadAll(reader.crc, reader.file, reader.Position()).0)
            == (records + [record]) + ReadAll(reader.crc, reader.file, reader.Position()).0;
        if reader.reports > 0 {
          return None;
        }
        assert all.0[|records|] == record;
        var decoded := DecodeFrom(record);
        if decoded.None? || (decoded.value.comparator.Some? && decoded.value.comparator.value != comparator) {
          assert !Acceptable(all.0[|records|], comparator);
          return None;
        }
        var e := decoded.value;
        records := records + [record];
        OneMoreEdit(edits, e);
        edits := edits + [e];
        counters := Counters(Newer(counters.logNumber, e.logNumber), Newer(counters.prevLogNumber, e.prevLogNumber),
                             Newer(counters.nextFile, e.nextFileNumber), Newer(counters.lastSequence, e.lastSequence));
      }
    }
    if reader.reports > 0 || !Complete(counters) {
      return None;
    }
    var v := ReplayEdits(base, ToVersionEdits(edits, open));
    return Some((v, counters));
  }

  lemma NoCounters()
    ensures CountersOf([]) == Counters(None, None, None, None)
  {
  }

  lemma OneMoreEdit(es: seq<Edit>, e: Edit)
    ensures var c := CountersOf(es);
      CountersOf(es + [e]) == Counters(Newer(c.logNumber, e.logNumber), Newer(c.prevLogNumber, e.prevLogNumber),
                                       Newer(c.nextFile, e.nextFileNumber), Newer(c.lastSequence, e.lastSequence))
  {
    assert (es + [e])[..|es|] == es;
  }

  // ----- The manifest of installed edits -----

  function Records(es: seq<Edit>): seq<Bytes> {
    seq(|es|, i requires 0 <= i < |es| => EncodeEdit(es[i]))
  }

  ghost predicate AllWritable(es: seq<Edit>, comparator: Bytes) {
    forall i :: 0 <= i < |es| ==> Writable(es[i]) && (es[i].comparator.Some? ==> es[i].comparator.value == comparator)
  }

  /** Written edits decode to themselves. */
  lemma RecordsDecode(es: seq<Edit>, comparator: Bytes)
    requires AllWritable(es, comparator)
    ensures AllAcceptable(Records(es), comparator) && Edits(Records(es), comparator) == es
  {
    hide EncodeEdit, Parse, Writable;
    forall i | 0 <= i < |es| ensures Parse(Records(es)[i], EMPTY) == Some(es[i]) {
      EditRoundTrip(es[i]);
    }
  }

  /** Versions installed one edit at a time. */
  ghost predicate Installs(versions: seq<Version>, edits: seq<VersionEdit>) {
    |versions| == |edits| + 1 && forall i :: 0 <= i < |edits| ==> InstalledAt(versions, edits, i)
  }

  ghost predicate InstalledAt(versions: seq<Version>, edits: seq<VersionEdit>, i: nat)
    requires i < |edits| && i + 1 < |versions|
  {
    IsFold(versions[i + 1], versions[i], [edits[i]])
  }

  /** Installing edits one by one is folding them all. */
  lemma {:induction false} InstallsFold(versions: seq<Version>, edits: seq<VersionEdit>, n: nat)
    requires Installs(versions, edits) && 0 < n <= |edits|
    ensures IsFold(versions[n], versions[0], edits[..n])
  {
    assert InstalledAt(versions, edits, n - 1);
    if n == 1 {
      assert edits[..1] == [edits[0]];
    } else {
      InstallsFold(versions, edits, n - 1);
      assert edits[..n][..n - 1] == edits[..n - 1];
      forall l | 0 <= l < NUM_LEVELS
        ensures MembersOf(versions[n].files[l]) == FoldEdits(MembersOf(versions[0].files[l]), edits[..n], l)
      {
        FoldOne(MembersOf(versions[n - 1].files[l]), edits[n - 1], l);
      }
    }
  }

  lemma FoldOne(files: set<FileMeta>, edit: VersionEdit, l: nat)
    ensures FoldEdits(files, [edit], l) == ApplyEdit(files, edit, l)
  {
    assert [edit][..0] == [];
    assert FoldEdits(files, [edit][..0], l) == files;
  }

  /** Two foldings of the same edits are the same version. */
  lemma FoldIsUnique(a: Version, b: Version, base: Version, edits: seq<VersionEdit>)
    requires IsFold(a, base, edits) && IsFold(b, base, edits)
    ensures a == b
  {
    forall l | 0 <= l < NUM_LEVELS ensures a.files[l] == b.files[l] {
      SortedLevelIsUnique(a.files[l], b.files[l]);
    }
  }

  /** Where recovery starts. */
  function NoFiles(): Version {
    Version(seq(NUM_LEVELS, _ => []))
  }

  /** The files of a version level by level, as WriteSnapshot lists them. */
  function FilesFrom(v: Version, l: nat): seq<(nat, FileMeta)>
    requires |v.files| == NUM_LEVELS && l <= NUM_LEVELS
    decreases NUM_LEVELS - l
  {
    if l == NUM_LEVELS then [] else E.AdditionsAt(v.files[l], l) + FilesFrom(v, l + 1)
  }

  lemma {:induction false} FilesAt(v: Version, from: nat, l: nat)
    requires |v.files| == NUM_LEVELS && from <= NUM_LEVELS && l < NUM_LEVELS
    ensures AddedAt(FilesFrom(v, from), l) == if from <= l then MembersOf(v.files[l]) else {}
    decreases NUM_LEVELS - from
  {
    if from < NUM_LEVELS {
      E.AdditionsMembers(v.files[from], from, l);
      FilesAt(v, from + 1, l);
      AddedConcat(E.AdditionsAt(v.files[from], from), FilesFrom(v, from + 1), l);
    }
  }

  lemma AddedConcat(a: seq<(nat, FileMeta)>, b: seq<(nat, FileMeta)>, l: nat)
    ensures AddedAt(a + b, l) == AddedAt(a, l) + AddedAt(b, l)
  {
  }

  ghost predicate LevelsSorted(v: Version) {
    |v.files| == NUM_LEVELS && forall l :: 0 <= l < NUM_LEVELS ==> SortedBySmallest(v.files[l])
  }

  /** The snapshot of a version, folded over nothing, is the version. */
  lemma SnapshotFolds(v: Version)
    requires LevelsSorted(v)
    ensures IsFold(v, NoFiles(), [VersionEdit({}, FilesFrom(v, 0))])
  {
    var edit := VersionEdit({}, FilesFrom(v, 0));
    forall l | 0 <= l < NUM_LEVELS
      ensures MembersOf(v.files[l]) == FoldEdits(MembersOf(NoFiles().files[l]), [edit], l)
    {
      FoldOne(MembersOf(NoFiles().files[l]), edit, l);
      FilesAt(v, 0, l);
    }
  }

  /** WriteSnapshot's record of a version: the comparator and all files, but no counters. */
  ghost predicate IsSnapshot(e: Edit, v: Version, comparator: Bytes, open: Open) {
    && e.comparator == Some(comparator)
    && e.logNumber == None && e.prevLogNumber == None && e.nextFileNumber == None && e.lastSequence == None
    && e.deletedFiles == []
    && LevelsSorted(v) && ToVersionEdit(e, open).newFiles == FilesFrom(v, 0)
  }

  /** LogAndApply's record of an edit: all counters, and no comparator. */
  ghost predicate CarriesCounters(e: Edit) {
    e.comparator == None && e.logNumber.Some? && e.prevLogNumber.Some? && e.nextFileNumber.Some? && e.lastSequence.Some?
  }

  function CountersIn(e: Edit): Counters {
    Counters(e.logNumber, e.prevLogNumber, e.nextFileNumber, e.lastSequence)
  }

  /** A manifest as LogAndApply writes it: a snapshot and the edits installed since; `versions[i]` was current after record
      `i`. A file number added at a level always names the same file. */
  ghost predicate IsManifest(es: seq<Edit>, versions: seq<Version>, comparator: Bytes, open: Open) {
    && es != [] && |versions| == |es| && AllWritable(es, comparator)
    && IsSnapshot(es[0], versions[0], comparator, open)
    && (forall i :: 0 < i < |es| ==> CarriesCounters(es[i]) && FollowsFrom(es, versions, open, i))
    && EditsApply(NoFiles(), ToVersionEdits(es, open))
  }

  ghost predicate FollowsFrom(es: seq<Edit>, versions: seq<Version>, open: Open, i: nat)
    requires 0 < i < |es| && |versions| == |es|
  {
    IsFold(versions[i], versions[i - 1], [ToVersionEdit(es[i], open)])
  }

  /** The version after record `n - 1` is the fold of the first `n` records over nothing. */
  lemma {:induction false} ManifestFolds(es: seq<Edit>, versions: seq<Version>, comparator: Bytes, open: Open, n: nat)
    requires IsManifest(es, versions, comparator, open) && 0 < n <= |es|
    ensures IsFold(versions[n - 1], NoFiles(), ToVersionEdits(es[..n], open))
  {
    hide Writable, EditsApply, FilesFrom, IsFold, CarriesCounters;
    SnapshotFolds(versions[0]);
    var edits := ToVersionEdits(es[..n], open);
    var all := [NoFiles()] + versions[..n];
    assert ToVersionEdit(es[0], open) == VersionEdit({}, FilesFrom(versions[0], 0));
    forall i | 0 <= i < n ensures InstalledAt(all, edits, i) {
      assert edits[i] == ToVersionEdit(es[i], open);
      if i > 0 {
        assert FollowsFrom(es, versions, open, i);
      }
    }
    InstallsFold(all, edits, n);
    assert edits[..n] == edits;
  }

  lemma FewerEditsApply(es: seq<Edit>, open: Open, n: nat)
    requires EditsApply(NoFiles(), ToVersionEdits(es, open)) && n <= |es|
    ensures EditsApply(NoFiles(), ToVersionEdits(es[..n], open))
  {
    var some, all := ToVersionEdits(es[..n], open), ToVersionEdits(es, open);
    assert some == all[..n];
    forall l | 0 <= l < NUM_LEVELS ensures AddedByEdits(some, l) <= AddedByEdits(all, l) {
      assert forall e :: e in some ==> e in all;
    }
  }

  /** The snapshot alone has no counters; with any later record, the last one's count. */
  lemma {:induction false} ManifestCounters(es: seq<Edit>, versions: seq<Version>, comparator: Bytes, open: Open, n: nat)
    requires IsManifest(es, versions, comparator, open) && n <= |es|
    ensures CountersOf(es[..n]) == if n >= 2 then CountersIn(es[n - 1]) else Counters(None, None, None, None)
  {
    if n > 0 {
      ManifestCounters(es, versions, comparator, open, n - 1);
      assert es[..n][..n - 1] == es[..n - 1];
    }
  }

  /** A manifest cut off after any byte reads, without a report, as its first `n` records, those wholly before the cut. They
      meet what Recover asks of a manifest, fold to the version that was current after them, and hold all counters if and
      only if an edit after the snapshot is among them; the counters are then those of the last one. */
  lemma TruncatedManifestRecovers(crc: Checksum, es: seq<Edit>, versions: seq<Version>, comparator: Bytes, open: Open, cut: nat)
    requires IsManifest(es, versions, comparator, open)
    requires cut <= |Log(crc, 0, Records(es))|
    ensures var n := Whole(crc, 0, Records(es), cut);
      var (records, reports) := ReadAll(crc, Log(crc, 0, Records(es))[..cut], 0);
      && n <= |es| == |versions| && reports == 0 && AllAcceptable(records, comparator) && Edits(records, comparator) == es[..n]
      && EditsApply(NoFiles(), ToVersionEdits(es[..n], open))
      && (Complete(CountersOf(es[..n])) <==> n >= 2)
      && (n >= 2 ==> CountersOf(es[..n]) == CountersIn(es[n - 1]))
      && (n > 0 ==> IsFold(versions[n - 1], NoFiles(), ToVersionEdits(es[..n], open)))
  {
    hide EncodeEdit, Parse, Log, Whole, ReadAll, IsFold, Writable, EditsApply, CountersOf;
    var n := Whole(crc, 0, Records(es), cut);
    LogSurvivesTruncation(crc, Records(es), cut);
    assert Records(es)[..n] == Records(es[..n]);
    RecordsDecode(es[..n], comparator);
    FewerEditsApply(es, open, n);
    ManifestCounters(es, versions, comparator, open, n);
    if n > 0 {
      ManifestFolds(es, versions, comparator, open, n);
    }
  }

  /** What Recover finds in a manifest cut off after any byte. */
  lemma TruncatedIsRestorable(crc: Checksum, file: Bytes, es: seq<Edit>, versions: seq<Version>, comparator: Bytes, open: Open)
    requires IsManifest(es, versions, comparator, open) && file <= Log(crc, 0, Records(es))
    ensures var n := Whole(crc, 0, Records(es), |file|);
      var (records, reports) := ReadAll(crc, file, 0);
      && n <= |es| == |versions| && reports == 0 && (Restorable(records, comparator) <==> n >= 2) && AllAcceptable(records, comparator)
      && EditsApply(NoFiles(), ToVersionEdits(Edits(records, comparator), open))
      && (n >= 2 ==> CountersOf(Edits(records, comparator)) == CountersIn(es[n - 1]))
      && (n >= 2 ==> IsFold(versions[n - 1], NoFiles(), ToVersionEdits(Edits(records, comparator), open)))
  {
    hide ReadAll, IsFold, EditsApply, CountersOf, IsManifest, Log, Whole, Edits, Parse, Restorable, Records, AllAcceptable, ToVersionEdits;
    RestorableExactly(ReadAll(crc, file, 0).0, comparator);
    assert Log(crc, 0, Records(es))[..|file|] == file;
    TruncatedManifestRecovers(crc, es, versions, comparator, open, |file|);
  }

  /** Recovery from a manifest cut off after any byte: the version and the counters as of its last surviving edit, or
      failure if only the snapshot survived, or less. */
  method RecoverTruncated(crc: Checksum, file: Bytes, comparator: Bytes, open: Open, ghost es: seq<Edit>,
                          ghost versions: seq<Version>) returns (r: Option<(Version, Counters)>)
    requires IsManifest(es, versions, comparator, open) && file <= Log(crc, 0, Records(es))
    ensures var n := Whole(crc, 0, Records(es), |file|);
      && n <= |es|
      && r == if n >= 2 then Some((versions[n - 1], CountersIn(es[n - 1]))) else None
  {
    hide ReadAll, IsFold, EditsApply, CountersOf, IsManifest, Log, Whole, Edits, Parse, Restorable, AllAcceptable, Records, ToVersionEdits,
         CountersIn;
    TruncatedIsRestorable(crc, file, es, versions, comparator, open);
    var reader := new LogReaders.Reader(crc, file);
    r := Recover(reader, comparator, NoFiles(), open);
    if r.Some? {
      ghost var n := Whole(crc, 0, Records(es), |file|);
      FoldIsUnique(r.value.0, versions[n - 1], NoFiles(), ToVersionEdits(Edits(ReadAll(crc, file, 0).0, comparator), open));
    }
  }
}
