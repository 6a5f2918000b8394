/** What opening a database writes: the replayed memtable as a table, and a new manifest (DB::Open in db/db_impl.cc). */
module OpenDatabase {
  import opened DbFormat
  import opened Coding
  import opened LogFormat
  import LogWriters
  import opened Files
  import opened Versions
  import opened CompactionWork
  import opened EditCodec
  import opened Manifests
  import opened ManifestWriters
  import opened Builders
  import E = Edits
  import opened Stores
  import opened StoreSafety
  import opened CrashSafety
  import opened Databases
  import opened TableFiles

  ghost predicate RecordOf(e: Edit, t: Tree) {
    && e.logNumber.Some? && e.logNumber.value == t.logNumber
    && e.nextFileNumber.Some? && e.nextFileNumber.value == t.nextFile
    && e.lastSequence.Some? && e.lastSequence.value == t.last
    && e.prevLogNumber == Some(0)
  }

  /** The recovered version with the replayed memtable as one more table. */
  method WithReplayed(d: Store, fileSize: nat) returns (v: Version)
    requires Inv(d) && d.imm == None
    ensures var files := FlushedFile(d.nextFile, fileSize, d.mem);
      var edit := VersionEdit({}, E.AdditionsAt(files, 0));
      IsFold(v, d.version, [edit]) && NewTo(d.version, edit)
    ensures var after := d.(mem := [], version := v, nextFile := d.nextFile + 2); Inv(after) && after.All() == d.All()
  {
    hide Layered, SourcesOrdered, Sorted, WellFormed, IsFold, EditsApply;
    ghost var full := d.(mem := [], imm := Some(d.mem));
    var files := FlushedFile(d.nextFile, fileSize, d.mem);
    v := d.version;
    ReplayedFacts(d);
    if d.mem == [] {
      NoChange(v, 0);
    } else {
      FlushEditApplies(d.version, d.nextFile, files[0], 0);
      v := ReplayEdits(d.version, [VersionEdit({}, E.AdditionsAt(files, 0))]);
      E.FoldAdds(d.version, v, 0, files[0]);
    }
    ghost var after := full.(imm := None, version := v, nextFile := d.nextFile + 1);
    FlushKeepsInv(full, 0, fileSize, after);
    MoreNumbers(after);
  }

  lemma ReplayedOnFile(d: Store, v: Version, files: seq<FileMeta>, fileSize: nat, tables: map<nat, FileMeta>)
    requires Numbered(tables, d.nextFile) && AllOnDisk(d.version, tables) && d.nextFile < TWO64 - 2
    requires files == FlushedFile(d.nextFile, fileSize, d.mem)
    requires IsFold(v, d.version, [VersionEdit({}, E.AdditionsAt(files, 0))])
    ensures NumberedFrom(files, d.nextFile) && |files| <= 1
    ensures OnFile(WithTables(tables, files), v, v, d.nextFile + 1, d.nextFile + 2)
  {
    hide IsFold, E.AdditionsAt;
    WithTablesHas(tables, files, d.nextFile);
    FoldMembers(v, d.version, files);
    forall l, f | HasFile(v, l, f) ensures OnDisk(f, WithTables(tables, files)) {
      assert HasFile(d.version, l, f) || f in files;
    }
  }

  lemma FoldMembers(v: Version, base: Version, files: seq<FileMeta>)
    requires IsFold(v, base, [VersionEdit({}, E.AdditionsAt(files, 0))])
    ensures forall l, f :: HasFile(v, l, f) ==> HasFile(base, l, f) || f in files
  {
    var edit := VersionEdit({}, E.AdditionsAt(files, 0));
    forall l, f | HasFile(v, l, f) ensures HasFile(base, l, f) || f in files {
      FoldOne(MembersOf(base.files[l]), edit, l);
      E.AdditionsMembers(files, 0, l);
      assert f in MembersOf(v.files[l]);
    }
  }

  lemma ReplayedFacts(d: Store)
    requires Inv(d) && d.imm == None
    ensures |d.version.files| == NUM_LEVELS && WellFormed(d.version) && NumbersAllocated(d.version, d.nextFile)
    ensures forall l :: 0 <= l < NUM_LEVELS ==> SortedBySmallest(d.version.files[l])
    ensures var full := d.(mem := [], imm := Some(d.mem)); Inv(full) && full.All() == d.All()
  {
    SwitchKeepsInv(d, d.(mem := [], imm := Some(d.mem)));
  }

  lemma MoreNumbers(d: Store)
    requires Inv(d)
    ensures Inv(d.(nextFile := d.nextFile + 1))
  {
  }

  /** The manifest of a reopened database. */
  method ReopenedManifest(crc: Checksum, comparator: Bytes, describe: Describe, d: Store, v: Version, files: seq<FileMeta>,
                          tables: map<nat, FileMeta>) returns (m: VersionLog)
    requires |comparator| < TWO32 && Describes(describe) && Inv(d) && d.nextFile < TWO64 - 2
    requires Numbered(tables, d.nextFile) && AllOnDisk(d.version, tables) && NumberedFrom(files, d.nextFile) && |files| <= 1
    requires var edit := VersionEdit({}, E.AdditionsAt(files, 0)); IsFold(v, d.version, [edit]) && NewTo(d.version, edit)
    ensures fresh(m) && m.Valid() && m.descriptor != null && fresh(m.descriptor)
    ensures m.crc == crc && m.describe == describe && m.open == OpenTables(WithTables(tables, files)) && m.current == v
    ensures m.logNumber == d.nextFile + 1 && m.prevLogNumber == 0 && AllNameTables(m.es, WithTables(tables, files))
    ensures |m.es| == 2 && RecordOf(m.es[1], Tree(v, {}, d.nextFile + 1, d.lastSequence, d.nextFile + 2))
  {
    hide Writable, LogWriters.Writer.Valid, IsManifest, EditsApply, IsFold, Inv, Numbered, NumberedFrom, AllOnDisk, Describes, NewTo,
         OnDisk, E.AdditionsAt, FilesFrom, ToVersionEdit, Described;
    var more, number := WithTables(tables, files), d.nextFile + 1;
    SnapshotIsDescribed(d, describe, tables, files, number);
    m := new VersionLog(crc, comparator, describe, OpenTables(more), d.version, (0, 0, number + 1, d.lastSequence));
    var e := FlushRecord(describe, 0, files, number, more);
    NewAfterSnapshot(d.version, e, more, number);
    m.Install(e, v);
    SnapshotNamesTables(m.es, m.versions, comparator, more);
  }

  lemma SnapshotIsDescribed(d: Store, describe: Describe, tables: map<nat, FileMeta>, files: seq<FileMeta>, next: nat)
    requires Describes(describe) && Inv(d) && d.nextFile < TWO64 - 2 && next == d.nextFile + 1
    requires Numbered(tables, d.nextFile) && AllOnDisk(d.version, tables) && NumberedFrom(files, d.nextFile) && |files| <= 1
    ensures LevelsSorted(d.version) && WellFormed(d.version) && Described(d.version, describe, OpenTables(WithTables(tables, files)))
    ensures Numbered(WithTables(tables, files), next) && AllOnDisk(d.version, WithTables(tables, files))
    ensures forall f :: f in files ==> f.number < TWO64 && OnDisk(f, WithTables(tables, files))
  {
    WithTablesHas(tables, files, d.nextFile);
    var v, more := d.version, WithTables(tables, files);
    forall l, f | 0 <= l < NUM_LEVELS && f in v.files[l] ensures ManifestWriters.Names(describe(l, f), l, f, OpenTables(more)) {
      assert HasFile(v, l, f);
    }
  }

  lemma NewAfterSnapshot(v: Version, e: Edit, tables: map<nat, FileMeta>, next: nat)
    requires LevelsSorted(v) && AllOnDisk(v, tables) && NamesTables(e, tables) && Writable(e) && Numbered(tables, next)
    requires NewTo(v, ToVersionEdit(e, OpenTables(tables)))
    ensures EditsApply(v, [ToVersionEdit(e, OpenTables(tables))])
    ensures EditsApply(NoFiles(), [VersionEdit({}, FilesFrom(v, 0))] + [ToVersionEdit(e, OpenTables(tables))])
  {
    var edit, snapshot := ToVersionEdit(e, OpenTables(tables)), VersionEdit({}, FilesFrom(v, 0));
    EditNames(e, tables, next);
    FilesAreTables(v, 0, tables);
    NothingThere([snapshot] + [edit]);
    EditsOfTables(v, [edit], tables);
    EditsOfTables(NoFiles(), [snapshot] + [edit], tables);
  }

  lemma {:induction false} FilesAreTables(v: Version, l: nat, tables: map<nat, FileMeta>)
    requires |v.files| == NUM_LEVELS && l <= NUM_LEVELS && AllOnDisk(v, tables)
    ensures forall p :: p in FilesFrom(v, l) ==> p.0 < NUM_LEVELS && p.1 in v.files[p.0] && OnDisk(p.1, tables)
    decreases NUM_LEVELS - l
  {
    if l < NUM_LEVELS {
      FilesAreTables(v, l + 1, tables);
      forall f | f in v.files[l] ensures OnDisk(f, tables) {
        assert HasFile(v, l, f);
      }
    }
  }

  /** What a snapshot of real tables names is on disk. */
  lemma SnapshotNamesTables(es: seq<Edit>, versions: seq<Version>, comparator: Bytes, tables: map<nat, FileMeta>)
    requires IsManifest(es, versions, comparator, OpenTables(tables)) && |es| == 2
    requires |versions[0].files| == NUM_LEVELS && WellFormed(versions[0]) && AllOnDisk(versions[0], tables)
    requires NamesTables(es[1], tables)
    ensures AllNameTables(es, tables)
  {
    hide FilesFrom, WellFormed, AllOnDisk, EditsApply, IsFold, AllWritable, LevelsSorted;
    var listed := FilesFrom(versions[0], 0);
    assert ToVersionEdit(es[0], OpenTables(tables)).newFiles == listed;
    RealTables(versions[0], tables);
    ListedIsNamed(es[0], listed, tables);
  }

  lemma RealTables(v: Version, tables: map<nat, FileMeta>)
    requires WellFormed(v) && AllOnDisk(v, tables)
    ensures forall p :: p in FilesFrom(v, 0) ==> p.1.table != []
  {
    FilesAreTables(v, 0, tables);
    forall p | p in FilesFrom(v, 0) ensures p.1.table != [] {
      assert ValidFiles(v.files[p.0]);
    }
  }

  lemma ListedIsNamed(e: Edit, listed: seq<(nat, FileMeta)>, tables: map<nat, FileMeta>)
    requires ToVersionEdit(e, OpenTables(tables)).newFiles == listed && forall p :: p in listed ==> p.1.table != []
    ensures NamesTables(e, tables)
  {
    forall j | 0 <= j < |e.newFiles| ensures e.newFiles[j].number in tables {
      assert listed[j] in listed && listed[j].1 == OpenTables(tables)(e.newFiles[j]);
    }
  }

  /** The first manifest: a snapshot of no files, and the number of the first log. */
  method NewManifest(crc: Checksum, comparator: Bytes, describe: Describe, v: Version, number: nat) returns (m: VersionLog)
    requires |comparator| < TWO32 && number + 1 < TWO64 && EmptyVersion(v)
    ensures fresh(m) && m.Valid() && m.descriptor != null && fresh(m.descriptor)
    ensures m.crc == crc && m.describe == describe && m.open == OpenTables(map[]) && m.current == v
    ensures m.logNumber == number && m.prevLogNumber == 0
    ensures AllNameTables(m.es, map[]) && |m.es| == 2 && RecordOf(m.es[1], Tree(v, {}, number, 0, number + 1))
  {
    hide Writable, LogWriters.Writer.Valid, IsManifest, EditsApply, IsFold;
    var open := OpenTables(map[]);
    NothingYet(v, number);
    m := new VersionLog(crc, comparator, describe, open, v, (0, 0, number + 1, 0));
    var e := EMPTY.(logNumber := Some(number), prevLogNumber := Some(0));
    CountersOnly(v, e, open);
    NoneToName(e);
    m.Install(e, v);
    FirstNamesNothing(m.es, m.versions, comparator, open);
  }

  lemma FirstNamesNothing(es: seq<Edit>, versions: seq<Version>, comparator: Bytes, open: Open)
    requires IsManifest(es, versions, comparator, open) && EmptyVersion(versions[0])
    ensures es[0].newFiles == []
  {
    NoneToList(versions[0], 0);
    assert |es[0].newFiles| == |ToVersionEdit(es[0], open).newFiles|;
  }

  lemma NoneToName(e: Edit)
    requires e == EMPTY.(logNumber := e.logNumber, prevLogNumber := e.prevLogNumber)
    ensures Writable(e)
  {
  }

  /** A new database has nothing to lose. */
  lemma NothingYet(v: Version, number: nat)
    requires EmptyVersion(v)
    ensures LevelsSorted(v)
    ensures var logs, tree := Logs(None, LogFile(number, 0, [])), Tree(v, {}, number, 0, number + 1);
      Recoverable(tree, logs, true) && tree.AllLogged(logs) == {} && logs.mem.All() == {}
  {
    EmptyTree(v, number + 1);
  }

  /** An edit that only sets counters. */
  lemma CountersOnly(v: Version, e: Edit, open: Open)
    requires EmptyVersion(v) && e.newFiles == [] && e.deletedFiles == []
    ensures IsFold(v, v, [ToVersionEdit(e, open)]) && EditsApply(v, [ToVersionEdit(e, open)])
    ensures EditsApply(NoFiles(), [VersionEdit({}, FilesFrom(v, 0))] + [ToVersionEdit(e, open)])
  {
    hide FilesFrom;
    NoneToList(v, 0);
    var edit := ToVersionEdit(e, open);
    assert edit.newFiles == [] && edit.deletedFiles == {};
    assert forall l :: 0 <= l < NUM_LEVELS ==> FoldEdits(MembersOf(v.files[l]), [edit][..0], l) == MembersOf(v.files[l]);
  }

  lemma {:induction false} NoneToList(v: Version, l: nat)
    requires EmptyVersion(v) && l <= NUM_LEVELS
    ensures FilesFrom(v, l) == []
    decreases NUM_LEVELS - l
  {
    if l < NUM_LEVELS {
      NoneToList(v, l + 1);
    }
  }
}
