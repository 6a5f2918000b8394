/** Installing edits and writing them to the manifest (VersionSet::LogAndApply and WriteSnapshot in db/version_set.cc). */
module ManifestWriters {
  import opened DbFormat
  import opened Coding
  import opened LogFormat
  import opened LogRoundTrip
  import LogWriters
  import opened EditCodec
  import opened Files
  import opened Versions
  import opened Builders
  import opened Manifests
  import E = Edits

  /** How a file is named in a manifest. */
  type Describe = (nat, FileMeta) -> NewFile

  /** `describe` names each file of a version so that `open` finds it. */
  ghost predicate Described(v: Version, describe: Describe, open: Open)
    requires |v.files| == NUM_LEVELS
  {
    forall l, f :: 0 <= l < NUM_LEVELS && f in v.files[l] ==> Names(describe(l, f), l, f, open)
  }

  ghost predicate Names(n: NewFile, l: nat, f: FileMeta, open: Open) {
    n.level == l && open(n) == f && WritableFile(n)
  }

  /** Builder::Apply's part in the compaction pointers: the last one of a level counts. */
  function SetPointers(pointers: seq<Bytes>, ps: seq<(nat, Bytes)>): (r: seq<Bytes>)
    ensures |r| == |pointers|
  {
    if ps == [] then pointers else
      var before := SetPointers(pointers, ps[..|ps| - 1]);
      var (level, key) := ps[|ps| - 1];
      if level < |before| then before[level := key] else before
  }

  /** The record of a version that WriteSnapshot writes. */
  method Snapshot(v: Version, comparator: Bytes, pointers: seq<Bytes>, describe: Describe, ghost open: Open) returns (e: Edit)
    requires LevelsSorted(v) && |pointers| == NUM_LEVELS && Described(v, describe, open)
    requires |comparator| < TWO32 && forall l :: 0 <= l < NUM_LEVELS ==> |pointers[l]| < TWO32
    ensures IsSnapshot(e, v, comparator, open) && Writable(e)
    ensures forall l :: 0 <= l < NUM_LEVELS ==> (pointers[l] != [] <==> (l, pointers[l]) in e.compactPointers)
  {
    var saved := SavedPointers(pointers);
    var files := DescribeFiles(v, describe, open);
    e := EMPTY.(comparator := Some(comparator), compactPointers := saved, newFiles := files);
  }

  method SavedPointers(pointers: seq<Bytes>) returns (saved: seq<(nat, Bytes)>)
    ensures forall p :: p in saved ==> p.0 < |pointers| && p.1 == pointers[p.0]
    ensures forall l :: 0 <= l < |pointers| ==> (pointers[l] != [] <==> (l, pointers[l]) in saved)
  {
    saved := [];
    for l := 0 to |pointers|
      invariant forall p :: p in saved ==> p.0 < l && p.1 == pointers[p.0] != []
      invariant forall m :: 0 <= m < l && pointers[m] != [] ==> (m, pointers[m]) in saved
    {
      if pointers[l] != [] {
        saved := saved + [(l, pointers[l])];
      }
    }
  }

  method DescribeFiles(v: Version, describe: Describe, ghost open: Open) returns (files: seq<NewFile>)
    requires |v.files| == NUM_LEVELS && Described(v, describe, open)
    ensures Opened(files, open) == FilesFrom(v, 0)
    ensures forall i :: 0 <= i < |files| ==> WritableFile(files[i])
  {
    hide FilesFrom, E.AdditionsAt;
    files := [];
    assert Opened([], open) + FilesFrom(v, 0) == FilesFrom(v, 0);
    for l := 0 to NUM_LEVELS
      invariant Opened(files, open) + FilesFrom(v, l) == FilesFrom(v, 0)
      invariant forall i :: 0 <= i < |files| ==> WritableFile(files[i])
    {
      var level := DescribeLevel(v.files[l], l, describe, open);
      OpenedConcat(files, level, open, FilesFrom(v, l + 1));
      FilesStep(v, l);
      files := files + level;
    }
    NoFilesLeft(v);
    assert Opened(files, open) + [] == Opened(files, open);
  }

  lemma FilesStep(v: Version, l: nat)
    requires |v.files| == NUM_LEVELS && l < NUM_LEVELS
    ensures FilesFrom(v, l) == E.AdditionsAt(v.files[l], l) + FilesFrom(v, l + 1)
  {
  }

  lemma NoFilesLeft(v: Version)
    requires |v.files| == NUM_LEVELS
    ensures FilesFrom(v, NUM_LEVELS) == []
  {
  }

  lemma OpenedConcat(a: seq<NewFile>, b: seq<NewFile>, open: Open, rest: seq<(nat, FileMeta)>)
    ensures Opened(a + b, open) + rest == Opened(a, open) + (Opened(b, open) + rest)
  {
    assert Opened(a + b, open) == Opened(a, open) + Opened(b, open);
  }

  ghost function Opened(files: seq<NewFile>, open: Open): seq<(nat, FileMeta)> {
    seq(|files|, i requires 0 <= i < |files| => (files[i].level, open(files[i])))
  }

  method DescribeLevel(files: seq<FileMeta>, l: nat, describe: Describe, ghost open: Open) returns (r: seq<NewFile>)
    requires forall f :: f in files ==> Names(describe(l, f), l, f, open)
    ensures Opened(r, open) == E.AdditionsAt(files, l)
    ensures forall i :: 0 <= i < |r| ==> WritableFile(r[i])
  {
    r := [];
    for i := 0 to |files|
      invariant |r| == i
      invariant forall j :: 0 <= j < i ==> Names(r[j], l, files[j], open)
    {
      assert files[i] in files;
      r := r + [describe(l, files[i])];
    }
  }

  /** The part of VersionSet that keeps the current version and its manifest. */
  class VersionLog {
    const crc: Checksum
    const comparator: Bytes
    const describe: Describe
    /** The tables on disk. */
    var open: Open
    var current: Version
    var logNumber: Word64
    var prevLogNumber: Word64
    var nextFileNumber: Word64
    var lastSequence: Word64
    var compactPointers: seq<Bytes>
    /** descriptor_log_: none until the first edit. */
    var descriptor: LogWriters.Writer?
    /** The records of the manifest and the versions that were current after them. */
    ghost var es: seq<Edit>
    ghost var versions: seq<Version>

    ghost predicate Valid()
      reads this, descriptor
    {
      && LevelsSorted(current) && |comparator| < TWO32
      && |compactPointers| == NUM_LEVELS && (forall l :: 0 <= l < NUM_LEVELS ==> |compactPointers[l]| < TWO32)
      && (if descriptor == null then es == [] && versions == [] else
            && descriptor.Valid() && descriptor.crc == crc && descriptor.before == [] && descriptor.records == Records(es)
            && es != [] && |versions| == |es| && IsManifest(es, versions, comparator, open) && versions[|versions| - 1] == current)
    }

    /** The bytes of the manifest file. */
    function Contents(): Bytes
      reads this, descriptor
    {
      if descriptor == null then [] else descriptor.dest
    }

    /** A version set as recovery leaves it, or a new one. */
    constructor (crc: Checksum, comparator: Bytes, describe: Describe, open: Open, v: Version, counters: (Word64, Word64, Word64, Word64))
      requires LevelsSorted(v) && |comparator| < TWO32
      ensures Valid() && current == v && descriptor == null && es == [] && this.crc == crc && this.comparator == comparator
      ensures (logNumber, prevLogNumber, nextFileNumber, lastSequence) == counters
      ensures this.describe == describe && this.open == open
    {
      this.crc, this.comparator, this.describe, this.open := crc, comparator, describe, open;
      current, descriptor := v, null;
      logNumber, prevLogNumber, nextFileNumber, lastSequence := counters.0, counters.1, counters.2, counters.3;
      compactPointers := seq(NUM_LEVELS, _ => []);
      es, versions := [], [];
    }

    /** The files that `e` adds have numbers of their own: new to the current level, and new to the manifest unless the same
        file was there before. */
    ghost predicate NumbersAreNew(e: Edit)
      reads this
      requires LevelsSorted(current)
    {
      && EditsApply(current, [ToVersionEdit(e, open)])
      && EditsApply(NoFiles(), Before() + [ToVersionEdit(e, open)])
    }

    /** The edits that lead from nothing to the current version. */
    ghost function Before(): seq<VersionEdit>
      reads this
      requires LevelsSorted(current)
    {
      if es == [] then [VersionEdit({}, FilesFrom(current, 0))] else ToVersionEdits(es, open)
    }

    /** Install an edit: fill in the counters, build the version, write the record, and before the first one a snapshot of the
        version so far. */
    method LogAndApply(edit: Edit)
      requires Valid() && Writable(edit) && edit.comparator == None && NumbersAreNew(edit)
      requires edit.logNumber.Some? ==> logNumber <= edit.logNumber.value < nextFileNumber
      requires descriptor == null ==> Described(current, describe, open)
      modifies this`current, this`logNumber, this`prevLogNumber, this`compactPointers, this`descriptor, this`es, this`versions, descriptor
      ensures Valid() && IsFold(current, old(current), [ToVersionEdit(edit, open)])
      ensures OneMoreRecord(edit, old(es), old(versions), old(current), old(logNumber), old(prevLogNumber))
      ensures descriptor != null && (old(descriptor) != null ==> descriptor == old(descriptor)) && (descriptor == old(descriptor) || fresh(descriptor))
      ensures compactPointers == SetPointers(old(compactPointers), edit.compactPointers)
    {
      hide EditsApply, IsManifest, Writable, EncodeEdit, LogWriters.Writer.Valid, Described, SetPointers, FilesFrom, IsFold,
           LevelsSorted, OneMoreRecord;
      SortedLevels(current);
      var v := ReplayEdits(current, [ToVersionEdit(edit, open)]);
      Install(edit, v);
    }

    /** After an edit: its counters count, its record is the manifest's last, behind the ones before or a snapshot of the version
        before. */
    ghost predicate OneMoreRecord(edit: Edit, es0: seq<Edit>, versions0: seq<Version>, current0: Version, log0: Word64, prevLog0: Word64)
      reads this
    {
      && logNumber == (if edit.logNumber.Some? then edit.logNumber.value else log0)
      && prevLogNumber == (if edit.prevLogNumber.Some? then edit.prevLogNumber.value else prevLog0)
      && |es| == |versions| == (if es0 == [] then 2 else |es0| + 1) && es0 <= es && versions0 <= versions
      && versions[|versions| - 1] == current
      && es[|es| - 1] == edit.(logNumber := Some(logNumber), prevLogNumber := Some(prevLogNumber),
                               nextFileNumber := Some(nextFileNumber), lastSequence := Some(lastSequence))
      && (es0 == [] ==> versions[0] == current0)
    }

    /** The part of LogAndApply behind the builder. */
    method Install(edit: Edit, v: Version)
      requires Valid() && Writable(edit) && edit.comparator == None && NumbersAreNew(edit)
      requires edit.logNumber.Some? ==> logNumber <= edit.logNumber.value < nextFileNumber
      requires descriptor == null ==> Described(current, describe, open)
      requires IsFold(v, current, [ToVersionEdit(edit, open)])
      modifies this`current, this`logNumber, this`prevLogNumber, this`compactPointers, this`descriptor, this`es, this`versions, descriptor
      ensures Valid() && current == v
      ensures OneMoreRecord(edit, old(es), old(versions), old(current), old(logNumber), old(prevLogNumber))
      ensures descriptor != null && (old(descriptor) != null ==> descriptor == old(descriptor)) && (descriptor == old(descriptor) || fresh(descriptor))
      ensures compactPointers == SetPointers(old(compactPointers), edit.compactPointers)
    {
      hide EditsApply, IsManifest, Writable, EncodeEdit, LogWriters.Writer.Valid, Described, SetPointers, FilesFrom, IsFold, LevelsSorted,
           ToVersionEdit, CarriesCounters, Records;
      var e := FillIn(edit);
      FoldIsSorted(v, current, [ToVersionEdit(e, open)]);
      PointersFit(compactPointers, e.compactPointers);
      compactPointers := SetPointers(compactPointers, e.compactPointers);
      if descriptor == null {
        PrefixApplies(Before(), [ToVersionEdit(e, open)]);
        WriteSnapshot();
      }
      Append(e, v);
      logNumber, prevLogNumber := e.logNumber.value, e.prevLogNumber.value;
    }

    /** The counters as the rest of the version set has them. */
    method SetCounters(nextFile: Word64, last: Word64)
      requires Valid()
      modifies this`nextFileNumber, this`lastSequence
      ensures Valid() && nextFileNumber == nextFile && lastSequence == last
    {
      hide IsManifest, LevelsSorted, LogWriters.Writer.Valid, EncodeEdit;
      nextFileNumber, lastSequence := nextFile, last;
    }

    /** More tables on disk: what the manifest names is where it was. */
    method OpenMore(more: Open)
      requires Valid() && ToVersionEdits(es, more) == ToVersionEdits(es, open)
      modifies this`open
      ensures Valid() && open == more
    {
      hide EditsApply, Writable, EncodeEdit, LogWriters.Writer.Valid, FilesFrom, IsFold, LevelsSorted, CarriesCounters, AllWritable;
      if descriptor != null {
        SameManifest(es, versions, comparator, open, more);
      }
      open := more;
    }

    /** The edit with all counters. */
    method FillIn(edit: Edit) returns (e: Edit)
      requires Writable(edit) && edit.comparator == None
      ensures e == edit.(logNumber := Some(if edit.logNumber.Some? then edit.logNumber.value else logNumber),
                         prevLogNumber := Some(if edit.prevLogNumber.Some? then edit.prevLogNumber.value else prevLogNumber),
                         nextFileNumber := Some(nextFileNumber), lastSequence := Some(lastSequence))
      ensures Writable(e) && CarriesCounters(e) && ToVersionEdit(e, open) == ToVersionEdit(edit, open)
      ensures forall i :: 0 <= i < |e.compactPointers| ==> |e.compactPointers[i].1| < TWO32
    {
      e := edit;
      if e.logNumber.None? {
        e := e.(logNumber := Some(logNumber));
      }
      if e.prevLogNumber.None? {
        e := e.(prevLogNumber := Some(prevLogNumber));
      }
      e := e.(nextFileNumber := Some(nextFileNumber), lastSequence := Some(lastSequence));
      assert ToVersionEdit(e, open) == ToVersionEdit(edit, open);
    }

    /** Write an edit's record and make its version current. */
    method Append(e: Edit, v: Version)
      requires Valid() && descriptor != null && Writable(e) && CarriesCounters(e)
      requires LevelsSorted(v) && IsFold(v, current, [ToVersionEdit(e, open)])
      requires EditsApply(NoFiles(), ToVersionEdits(es, open) + [ToVersionEdit(e, open)])
      modifies this`current, this`es, this`versions, descriptor
      ensures Valid() && current == v && es == old(es) + [e] && versions == old(versions) + [v]
    {
      hide IsFold, EditsApply, IsManifest, Writable, EncodeEdit, LogWriters.Writer.Valid, CarriesCounters, LevelsSorted;
      NextInstalled(es, versions, comparator, open, e, v);
      assert Records(es + [e]) == Records(es) + [EncodeEdit(e)];
      descriptor.AddRecord(EncodeEdit(e));
      es, versions, current := es + [e], versions + [v], v;
    }

    /** Start the manifest with a snapshot of the current version. */
    method WriteSnapshot()
      requires Valid() && descriptor == null && Described(current, describe, open)
      requires EditsApply(NoFiles(), Before())
      modifies this`descriptor, this`es, this`versions
      ensures Valid() && fresh(descriptor) && |es| == 1 && versions == [current] && Before() == old(Before())
    {
      hide EditsApply, Writable, EncodeEdit, LogWriters.Writer.Valid, FilesFrom, Described, IsManifest, IsSnapshot;
      var e := Snapshot(current, comparator, compactPointers, describe, open);
      assert ToVersionEdit(e, open) == VersionEdit({}, FilesFrom(current, 0));
      assert ToVersionEdits([e], open) == [VersionEdit({}, FilesFrom(current, 0))];
      FirstRecord(e, current, comparator, open);
      descriptor := new LogWriters.Writer(crc, []);
      descriptor.AddRecord(EncodeEdit(e));
      es, versions := [e], [current];
      assert Records(es) == [EncodeEdit(e)];
    }

    lemma ContentsAreLog()
      requires Valid() && descriptor != null
      ensures Contents() == Log(crc, 0, Records(es))
    {
      assert [] + Log(crc, 0, Records(es)) == Log(crc, 0, Records(es));
    }

    /** Recovery from what is left of the manifest after a crash: the version that was current after the last record wholly
        before the cut, and the counters in it; failure if not even one edit after the snapshot survived. */
    method RecoverAfterCrash(cut: nat) returns (r: Option<(Version, Counters)>)
      requires Valid() && descriptor != null && cut <= |Contents()|
      ensures var n := Whole(crc, 0, Records(es), cut);
        && n <= |es| == |versions|
        && r == if n >= 2 then Some((versions[n - 1], CountersIn(es[n - 1]))) else None
    {
      hide IsManifest, Log, LogWriters.Writer.Valid, LevelsSorted;
      ContentsAreLog();
      r := RecoverTruncated(crc, descriptor.dest[..cut], comparator, open, es, versions);
    }
  }

  /** After an edit, the pointer of a level is the last one that the edit has for it, or as before. */
  lemma {:induction false} PointersAt(pointers: seq<Bytes>, ps: seq<(nat, Bytes)>, l: nat)
    requires l < |pointers|
    ensures var p := SetPointers(pointers, ps)[l];
      || (p == pointers[l] && forall j :: 0 <= j < |ps| ==> ps[j].0 != l)
      || exists i :: 0 <= i < |ps| && LastFor(ps, l, i) && p == ps[i].1
    decreases |ps|
  {
    if ps != [] {
      var n := |ps| - 1;
      var before := ps[..n];
      PointersAt(pointers, before, l);
      if ps[n].0 == l {
        assert LastFor(ps, l, n);
      } else if i :| 0 <= i < n && LastFor(before, l, i) && SetPointers(pointers, before)[l] == before[i].1 {
        assert forall j :: i < j < n ==> before[j] == ps[j];
        assert LastFor(ps, l, i);
      } else {
        assert forall j :: 0 <= j < n ==> before[j] == ps[j];
      }
    }
  }

  /** Entry `i` is the last one for level `l`. */
  ghost predicate LastFor(ps: seq<(nat, Bytes)>, l: nat, i: nat) {
    i < |ps| && ps[i].0 == l && forall j :: i < j < |ps| ==> ps[j].0 != l
  }

  lemma {:induction false} PointersFit(pointers: seq<Bytes>, ps: seq<(nat, Bytes)>)
    requires forall l :: 0 <= l < |pointers| ==> |pointers[l]| < TWO32
    requires forall i :: 0 <= i < |ps| ==> |ps[i].1| < TWO32
    ensures forall l :: 0 <= l < |pointers| ==> |SetPointers(pointers, ps)[l]| < TWO32
    decreases |ps|
  {
    if ps != [] {
      PointersFit(pointers, ps[..|ps| - 1]);
    }
  }

  lemma SortedLevels(v: Version)
    requires LevelsSorted(v)
    ensures |v.files| == NUM_LEVELS && forall l :: 0 <= l < NUM_LEVELS ==> SortedBySmallest(v.files[l])
  {
  }

  lemma FoldIsSorted(v: Version, base: Version, edits: seq<VersionEdit>)
    requires IsFold(v, base, edits)
    ensures LevelsSorted(v)
  {
  }

  lemma PrefixApplies(a: seq<VersionEdit>, b: seq<VersionEdit>)
    requires EditsApply(NoFiles(), a + b)
    ensures EditsApply(NoFiles(), a)
  {
    forall l | 0 <= l < NUM_LEVELS ensures AddedByEdits(a, l) <= AddedByEdits(a + b, l) {
      assert forall e :: e in a ==> e in a + b;
    }
    assert forall e :: e in a ==> e in a + b;
  }

  lemma FirstRecord(e: Edit, v: Version, comparator: Bytes, open: Open)
    requires IsSnapshot(e, v, comparator, open) && Writable(e) && EditsApply(NoFiles(), ToVersionEdits([e], open))
    ensures IsManifest([e], [v], comparator, open)
  {
    hide EditsApply, Writable;
  }

  /** One more installed edit. */
  lemma NextInstalled(es: seq<Edit>, versions: seq<Version>, comparator: Bytes, open: Open, e: Edit, v: Version)
    requires IsManifest(es, versions, comparator, open) && Writable(e) && CarriesCounters(e)
    requires IsFold(v, versions[|versions| - 1], [ToVersionEdit(e, open)])
    requires EditsApply(NoFiles(), ToVersionEdits(es, open) + [ToVersionEdit(e, open)])
    ensures IsManifest(es + [e], versions + [v], comparator, open)
  {
    hide EditsApply, IsFold, Writable, IsSnapshot;
    var moreEs, moreVersions := es + [e], versions + [v];
    assert ToVersionEdits(moreEs, open) == ToVersionEdits(es, open) + [ToVersionEdit(e, open)];
    forall i | 0 < i < |moreEs| ensures CarriesCounters(moreEs[i]) && FollowsFrom(moreEs, moreVersions, open, i) {
      if i < |es| {
        assert FollowsFrom(es, versions, open, i);
      }
    }
  }

  lemma SameManifest(es: seq<Edit>, versions: seq<Version>, comparator: Bytes, open: Open, more: Open)
    requires IsManifest(es, versions, comparator, open) && ToVersionEdits(es, more) == ToVersionEdits(es, open)
    ensures IsManifest(es, versions, comparator, more)
  {
    hide EditsApply, IsFold, AllWritable, CarriesCounters;
    assert ToVersionEdits(es, open)[0] == ToVersionEdits(es, more)[0];
    forall i | 0 < i < |es| ensures FollowsFrom(es, versions, more, i) {
      assert FollowsFrom(es, versions, open, i) && ToVersionEdits(es, open)[i] == ToVersionEdits(es, more)[i];
    }
  }
}
