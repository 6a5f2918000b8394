/** The table files on disk and the manifest edits that name them: a number stands for one table, so no edit can reuse it
    (db/version_set.cc, db/db_impl.cc). */
module TableFiles {
  import opened DbFormat
  import opened Coding
  import opened Files
  import opened Versions
  import opened CompactionWork
  import opened Compactions
  import opened Layering
  import opened EditCodec
  import opened Manifests
  import opened ManifestWriters
  import opened Builders
  import E = Edits
  import opened Stores
  import opened StoreSteps
  import opened MergeInput
  import opened CrashSafety

  // ----- Edits as the manifest has them -----

  /** `describe` names any file with its number, at any level. */
  ghost predicate Describes(describe: Describe) {
    forall l: nat, f: FileMeta :: l < NUM_LEVELS && f.number < TWO64 ==>
      var n := describe(l, f); n.level == l && n.number == f.number && WritableFile(n)
  }

  function DescribeAll(describe: Describe, files: seq<FileMeta>, level: nat): (r: seq<NewFile>)
    ensures |r| == |files|
  {
    seq(|files|, i requires 0 <= i < |files| => describe(level, files[i]))
  }

  /** VersionEdit::DeleteFile for each file. */
  method DeleteFiles(deleted: seq<(nat, Word64)>, files: seq<FileMeta>, level: nat) returns (r: seq<(nat, Word64)>)
    requires InOrder(deleted) && forall i :: 0 <= i < |files| ==> files[i].number < TWO64
    ensures InOrder(r)
    ensures forall d :: d in r <==> d in deleted || exists f :: f in files && d == (level, f.number)
  {
    r := deleted;
    for i := 0 to |files|
      invariant InOrder(r)
      invariant forall d :: d in r <==> d in deleted || exists f :: f in files[..i] && d == (level, f.number)
    {
      InsertKeepsOrder(r, (level, files[i].number));
      r := InsertDeleted(r, (level, files[i].number));
      assert files[..i + 1] == files[..i] + [files[i]];
    }
    assert files[..|files|] == files;
  }

  lemma {:induction false} InsertKeepsOrder(ds: seq<(nat, Word64)>, d: (nat, Word64))
    requires InOrder(ds)
    ensures InOrder(InsertDeleted(ds, d))
    ensures forall e :: e in InsertDeleted(ds, d) <==> e in ds || e == d
  {
    if ds != [] {
      assert ds == [ds[0]] + ds[1..];
      InsertKeepsOrder(ds[1..], d);
      if Before(ds[0], d) {
        var r := InsertDeleted(ds[1..], d);
        forall i | 0 <= i < |r| ensures Before(ds[0], r[i]) {
          assert r[i] in r;
          if r[i] != d {
            var j :| 0 <= j < |ds[1..]| && ds[1..][j] == r[i];
          }
        }
      }
    }
  }

  // ----- The tables on disk -----

  const NO_TABLE := FileMeta(0, 0, InternalKey(0.0, 0, Put), InternalKey(0.0, 0, Put), [])

  /** A manifest entry names the table file with its number. */
  function OpenTables(tables: map<nat, FileMeta>): Open {
    (n: NewFile) => if n.number in tables then tables[n.number] else NO_TABLE
  }

  function WithTables(tables: map<nat, FileMeta>, files: seq<FileMeta>): map<nat, FileMeta> {
    if files == [] then tables else
      var n := |files| - 1;
      WithTables(tables, files[..n])[files[n].number := files[n]]
  }

  ghost predicate Numbered(tables: map<nat, FileMeta>, next: nat) {
    forall n :: n in tables ==> n < next && tables[n].number == n
  }

  ghost predicate OnDisk(f: FileMeta, tables: map<nat, FileMeta>) {
    f.number in tables && tables[f.number] == f
  }

  ghost predicate AllOnDisk(v: Version, tables: map<nat, FileMeta>) {
    forall l, f {:trigger HasFile(v, l, f)} :: HasFile(v, l, f) ==> OnDisk(f, tables)
  }

  ghost predicate NamesTables(e: Edit, tables: map<nat, FileMeta>) {
    forall j :: 0 <= j < |e.newFiles| ==> e.newFiles[j].number in tables
  }

  ghost predicate AllNameTables(es: seq<Edit>, tables: map<nat, FileMeta>) {
    forall i :: 0 <= i < |es| ==> NamesTables(es[i], tables)
  }

  lemma {:induction false} WithTablesHas(tables: map<nat, FileMeta>, files: seq<FileMeta>, first: nat)
    requires Numbered(tables, first) && NumberedFrom(files, first)
    ensures Numbered(WithTables(tables, files), first + |files|)
    ensures forall n :: n in tables ==> n in WithTables(tables, files) && WithTables(tables, files)[n] == tables[n]
    ensures forall f :: f in files ==> OnDisk(f, WithTables(tables, files))
    decreases files
  {
    if files != [] {
      var n := |files| - 1;
      WithTablesHas(tables, files[..n], first);
      assert files == files[..n] + [files[n]];
    }
  }

  lemma SameOpened(es: seq<Edit>, tables: map<nat, FileMeta>, more: map<nat, FileMeta>)
    requires AllNameTables(es, tables) && forall n :: n in tables ==> n in more && more[n] == tables[n]
    ensures ToVersionEdits(es, OpenTables(more)) == ToVersionEdits(es, OpenTables(tables))
    ensures AllNameTables(es, more)
  {
    forall i | 0 <= i < |es| ensures ToVersionEdit(es[i], OpenTables(more)) == ToVersionEdit(es[i], OpenTables(tables)) {
      assert NamesTables(es[i], tables);
    }
  }

  ghost predicate NewTo(v: Version, e: VersionEdit) {
    forall l, f, p :: HasFile(v, l, f) && p in e.newFiles && p.0 == l ==> f.number != p.1.number
  }

  /** A number names one table, so no edit can reuse it for another. */
  lemma NumbersNeverReused(v: Version, es: seq<Edit>, e: Edit, tables: map<nat, FileMeta>, next: nat)
    requires |v.files| == NUM_LEVELS && NewTo(v, ToVersionEdit(e, OpenTables(tables))) && Numbered(tables, next)
    requires AllNameTables(es, tables) && NamesTables(e, tables)
    requires (forall i :: 0 <= i < |es| ==> Writable(es[i])) && Writable(e)
    ensures var edit := ToVersionEdit(e, OpenTables(tables));
      EditsApply(v, [edit]) && EditsApply(NoFiles(), ToVersionEdits(es, OpenTables(tables)) + [edit])
  {
    hide Writable;
    var edit, edits := ToVersionEdit(e, OpenTables(tables)), ToVersionEdits(es, OpenTables(tables));
    EditNames(e, tables, next);
    forall i | 0 <= i < |es| ensures NamesOnly(edits[i], tables) {
      assert NamesTables(es[i], tables);
      EditNames(es[i], tables, next);
    }
    EditsOfTables(v, [edit], tables);
    NothingThere(edits + [edit]);
    EditsOfTables(NoFiles(), edits + [edit], tables);
  }

  ghost predicate NamesOnly(e: VersionEdit, tables: map<nat, FileMeta>) {
    forall p :: p in e.newFiles ==> p.0 < NUM_LEVELS && OnDisk(p.1, tables)
  }

  lemma EditNames(e: Edit, tables: map<nat, FileMeta>, next: nat)
    requires NamesTables(e, tables) && Writable(e) && Numbered(tables, next)
    ensures NamesOnly(ToVersionEdit(e, OpenTables(tables)), tables)
  {
  }

  lemma NothingThere(edits: seq<VersionEdit>)
    ensures forall i :: 0 <= i < |edits| ==> NewTo(NoFiles(), edits[i])
  {
  }

  lemma EditsOfTables(v: Version, edits: seq<VersionEdit>, tables: map<nat, FileMeta>)
    requires |v.files| == NUM_LEVELS
    requires forall i :: 0 <= i < |edits| ==> NamesOnly(edits[i], tables) && NewTo(v, edits[i])
    ensures EditsApply(v, edits)
  {
    forall l | 0 <= l < NUM_LEVELS ensures NumbersNotReused(v.files[l], AddedByEdits(edits, l)) {
      forall f | f in AddedByEdits(edits, l) ensures OnDisk(f, tables) {
      }
      forall f, g | f in v.files[l] && g in AddedByEdits(edits, l) ensures f.number != g.number {
        assert HasFile(v, l, f);
        var i :| 0 <= i < |edits| && g in Builders.AddedAt(edits[i].newFiles, l);
        assert NewTo(v, edits[i]);
      }
    }
  }

  // ----- The edits the database logs -----

  lemma DescribedOpens(describe: Describe, files: seq<FileMeta>, level: nat, tables: map<nat, FileMeta>)
    requires Describes(describe) && level < NUM_LEVELS && forall f :: f in files ==> f.number < TWO64 && OnDisk(f, tables)
    ensures var e := EMPTY.(newFiles := DescribeAll(describe, files, level));
      && ToVersionEdit(e, OpenTables(tables)).newFiles == E.AdditionsAt(files, level) && NamesTables(e, tables)
      && forall i :: 0 <= i < |e.newFiles| ==> WritableFile(e.newFiles[i])
  {
    var r := DescribeAll(describe, files, level);
    forall i | 0 <= i < |files|
      ensures r[i].level == level && OpenTables(tables)(r[i]) == files[i] && r[i].number in tables && WritableFile(r[i])
    {
      assert files[i] in files;
    }
  }

  /** WriteLevel0Table and the log number of the next memtable. */
  method FlushRecord(describe: Describe, level: nat, files: seq<FileMeta>, logNumber: Word64, ghost tables: map<nat, FileMeta>)
    returns (e: Edit)
    requires Describes(describe) && level < NUM_LEVELS && forall f :: f in files ==> f.number < TWO64 && OnDisk(f, tables)
    ensures Writable(e) && e.comparator == None && e.logNumber == Some(logNumber) && e.prevLogNumber == Some(0) && NamesTables(e, tables)
    ensures ToVersionEdit(e, OpenTables(tables)) == VersionEdit({}, E.AdditionsAt(files, level))
  {
    DescribedOpens(describe, files, level, tables);
    e := EMPTY.(logNumber := Some(logNumber), prevLogNumber := Some(0), newFiles := DescribeAll(describe, files, level));
  }

  /** AddInputDeletions and the outputs. */
  method CompactionRecord(describe: Describe, level: nat, inputs0: seq<FileMeta>, inputs1: seq<FileMeta>, outputs: seq<FileMeta>,
                          ghost tables: map<nat, FileMeta>) returns (e: Edit)
    requires Describes(describe) && level + 1 < NUM_LEVELS && forall f :: f in outputs ==> f.number < TWO64 && OnDisk(f, tables)
    requires forall f :: f in inputs0 || f in inputs1 ==> f.number < TWO64
    ensures Writable(e) && e.comparator == None && e.logNumber == None && e.prevLogNumber == None && NamesTables(e, tables)
    ensures ToVersionEdit(e, OpenTables(tables)) == E.CompactionEdit(level, inputs0, inputs1, outputs)
  {
    DescribedOpens(describe, outputs, level + 1, tables);
    var deleted := DeleteFiles([], inputs0, level);
    ghost var upper := deleted;
    deleted := DeleteFiles(deleted, inputs1, level + 1);
    e := EMPTY.(deletedFiles := deleted, newFiles := DescribeAll(describe, outputs, level + 1));
    DeletedLevels(deleted, inputs0, inputs1, level);
  }

  lemma DeletedLevels(deleted: seq<(nat, Word64)>, inputs0: seq<FileMeta>, inputs1: seq<FileMeta>, level: nat)
    requires forall d :: d in deleted <==>
               || (exists f :: f in inputs0 && d == (level, f.number))
               || (exists f :: f in inputs1 && d == (level + 1, f.number))
    requires forall f :: f in inputs0 || f in inputs1 ==> f.number < TWO64
    ensures forall i :: 0 <= i < |deleted| ==> deleted[i].0 <= level + 1
    ensures (set d | d in deleted :: (d.0, d.1 as nat)) == E.DeletionsAt(inputs0, level) + E.DeletionsAt(inputs1, level + 1)
  {
    forall i | 0 <= i < |deleted| ensures deleted[i].0 <= level + 1 {
      assert deleted[i] in deleted;
    }
    var all := E.DeletionsAt(inputs0, level) + E.DeletionsAt(inputs1, level + 1);
    forall p | p in all
      ensures p in (set d | d in deleted :: (d.0, d.1 as nat))
    {
      var d: (nat, Word64) := (p.0, p.1);
      assert d in deleted;
    }
  }

  /** Table files have the numbers they were given, all below the counter; so has the current log. The tables of two versions
      are there, the current one's and that of the last synced record. */
  ghost predicate OnFile(tables: map<nat, FileMeta>, v: Version, synced: Version, logNumber: nat, next: nat) {
    0 < logNumber < next < TWO64 && Numbered(tables, next) && AllOnDisk(v, tables) && AllOnDisk(synced, tables)
  }

  // ----- What a round leaves for the manifest -----

  /** The table of a flushed memtable, if it has entries. */
  function FlushedFile(number: nat, fileSize: nat, es: seq<Entry>): seq<FileMeta> {
    if es == [] then [] else [FileMeta(number, fileSize, es[0].key, es[|es| - 1].key, es)]
  }

  lemma FlushFolds(d: Store, level: nat, fileSize: nat, b: Store, tables: map<nat, FileMeta>, logNumber: nat)
    requires Inv(d) && FlushStep(d, level, fileSize, b) && level < NUM_LEVELS && b.nextFile < TWO64
    requires OnFile(tables, d.version, d.version, logNumber, d.nextFile)
    ensures var files := FlushedFile(d.nextFile, fileSize, d.imm.value);
      var edit := VersionEdit({}, E.AdditionsAt(files, level));
      && NumberedFrom(files, d.nextFile) && IsFold(b.version, d.version, [edit]) && NewTo(d.version, edit)
      && OnFile(WithTables(tables, files), b.version, d.version, logNumber, b.nextFile)
      && forall f :: f in files ==> f.number < TWO64 && OnDisk(f, WithTables(tables, files))
  {
    hide FlushStep, SourcesOrdered, Sorted, WellFormed, Layered, IsFold;
    FlushChanges(d, level, fileSize, b);
    var files := FlushedFile(d.nextFile, fileSize, d.imm.value);
    WithTablesHas(tables, files, d.nextFile);
    FlushAdds(d, level, fileSize, b);
    if files == [] {
      NoChange(d.version, level);
    } else {
      E.AddedFolds(d.version, b.version, level, files[0]);
      assert files[0] in files;
    }
    forall l, f | HasFile(b.version, l, f) ensures OnDisk(f, WithTables(tables, files)) {
      assert HasFile(d.version, l, f) || f in files;
    }
  }

  /** An empty memtable makes no table, so its level does not matter. */
  lemma AnyLevelWithout(d: Store, level: nat, l: nat, fileSize: nat, b: Store)
    requires Inv(d) && FlushStep(d, level, fileSize, b) && l == if d.imm.value == [] then 0 else level
    ensures FlushStep(d, l, fileSize, b) && l < NUM_LEVELS
  {
  }

  lemma NumbersLast(d: Store, step: Step, b: Store)
    requires Inv(d) && Next(d, step, b) && (step.Flush? || step.TrivialMove? || step.Compact?)
    ensures d.nextFile <= b.nextFile <= d.nextFile + 1 + |AllEntries(d.version)|
  {
    hide Inv, Selected, Installed, KeptEntries, AllEntries;
    if step.Compact? {
      OutputsFit(d, step.level, step.inputs0, step.inputs1, step.outputs, b);
    }
  }

  lemma FlushAdds(d: Store, level: nat, fileSize: nat, b: Store)
    requires Inv(d) && FlushStep(d, level, fileSize, b)
    ensures |d.version.files| == |b.version.files| == NUM_LEVELS && TreeInv(d.version, d.nextFile)
    ensures forall l :: 0 <= l < NUM_LEVELS ==> SortedBySmallest(d.version.files[l])
    ensures d.imm.value == [] ==> b.version == d.version
    ensures d.imm.value != [] ==>
              level < NUM_LEVELS && Stores.AddedAt(d.version, b.version, level, FlushedFile(d.nextFile, fileSize, d.imm.value)[0])
  {
  }

  lemma NoChange(v: Version, level: nat)
    requires |v.files| == NUM_LEVELS && forall l :: 0 <= l < NUM_LEVELS ==> SortedBySmallest(v.files[l])
    ensures IsFold(v, v, [VersionEdit({}, E.AdditionsAt([], level))])
  {
    var edit := VersionEdit({}, E.AdditionsAt([], level));
    forall l | 0 <= l < NUM_LEVELS ensures MembersOf(v.files[l]) == FoldEdits(MembersOf(v.files[l]), [edit], l) {
      FoldOne(MembersOf(v.files[l]), edit, l);
    }
  }

  lemma InstallFolds(d: Store, level: nat, inputs0: seq<FileMeta>, inputs1: seq<FileMeta>, outputs: seq<FileMeta>, v: Version,
                     tables: map<nat, FileMeta>, more: map<nat, FileMeta>, logNumber: nat, next: nat)
    requires Inv(d) && Selected(d.version, level, inputs0, inputs1) && Installed(d.version, v, level, inputs0, inputs1, outputs)
    requires OnFile(tables, d.version, d.version, logNumber, d.nextFile) && d.nextFile <= next < TWO64
    requires Numbered(more, next) && forall n :: n in tables ==> n in more && more[n] == tables[n]
    requires forall f :: f in outputs ==> OnDisk(f, more)
    requires forall l, f, g :: HasFile(d.version, l, f) && g in outputs && l == level + 1 ==> f.number != g.number
    ensures var edit := E.CompactionEdit(level, inputs0, inputs1, outputs);
      IsFold(v, d.version, [edit]) && NewTo(d.version, edit) && OnFile(more, v, d.version, logNumber, next)
    ensures forall f :: f in inputs0 || f in inputs1 ==> f.number < TWO64
  {
    hide Selected, IsFold, SourcesOrdered, WellFormed, Layered;
    SelectedMembers(d.version, level, inputs0, inputs1);
    E.InstalledFolds(d.version, v, d.nextFile, level, inputs0, inputs1, outputs);
    forall f | f in inputs0 ensures f.number < TWO64 {
      assert HasFile(d.version, level, f);
    }
    var below := level + 1;
    forall f | f in inputs1 ensures f.number < TWO64 {
      assert HasFile(d.version, below, f);
    }
    forall l, f | HasFile(v, l, f) ensures OnDisk(f, more) {
      assert NewMember(d.version, level, inputs0, inputs1, outputs, l, f);
      assert HasFile(d.version, l, f) || f in outputs;
    }
  }

  lemma CompactionFolds(d: Store, level: nat, inputs0: seq<FileMeta>, inputs1: seq<FileMeta>, outputs: seq<FileMeta>, b: Store,
                        tables: map<nat, FileMeta>, logNumber: nat)
    requires Inv(d) && CompactStep(d, level, inputs0, inputs1, outputs, b) && b.nextFile < TWO64
    requires OnFile(tables, d.version, d.version, logNumber, d.nextFile)
    ensures var edit := E.CompactionEdit(level, inputs0, inputs1, outputs);
      && IsFold(b.version, d.version, [edit]) && NewTo(d.version, edit) && NumberedFrom(outputs, d.nextFile)
      && OnFile(WithTables(tables, outputs), b.version, d.version, logNumber, b.nextFile) && level + 1 < NUM_LEVELS
    ensures forall f :: f in outputs ==> f.number < TWO64 && OnDisk(f, WithTables(tables, outputs))
    ensures forall f :: f in inputs0 || f in inputs1 ==> f.number < TWO64
  {
    hide Selected, Installed, SourcesOrdered, WellFormed, Layered, IsFold, KeptEntries, OnFile;
    CompactionChanges(d, level, inputs0, inputs1, outputs, b);
    SelectedMembers(d.version, level, inputs0, inputs1);
    FileFacts(tables, d.version, d.version, logNumber, d.nextFile);
    FilesOnFile(tables, d.version, d.version, logNumber, d.nextFile);
    WithTablesHas(tables, outputs, d.nextFile);
    forall f | f in outputs ensures d.nextFile <= f.number < TWO64 {
      var i :| 0 <= i < |outputs| && outputs[i] == f;
    }
    InstallFolds(d, level, inputs0, inputs1, outputs, b.version, tables, WithTables(tables, outputs), logNumber, b.nextFile);
  }

  lemma FileFacts(tables: map<nat, FileMeta>, v: Version, synced: Version, logNumber: nat, next: nat)
    requires OnFile(tables, v, synced, logNumber, next)
    ensures Numbered(tables, next) && logNumber < next < TWO64
  {
  }

  lemma FilesOnFile(tables: map<nat, FileMeta>, v: Version, synced: Version, logNumber: nat, next: nat)
    requires OnFile(tables, v, synced, logNumber, next)
    ensures forall l, f :: HasFile(v, l, f) ==> f.number < next && OnDisk(f, tables)
  {
  }

  lemma MoveFolds(d: Store, level: nat, file: FileMeta, b: Store, tables: map<nat, FileMeta>, logNumber: nat)
    requires Inv(d) && MoveStep(d, level, file, b) && d.nextFile < TWO64
    requires OnFile(tables, d.version, d.version, logNumber, d.nextFile)
    ensures var edit := E.CompactionEdit(level, [file], [], [file]);
      && IsFold(b.version, d.version, [edit]) && NewTo(d.version, edit) && b.nextFile == d.nextFile
      && OnFile(tables, b.version, d.version, logNumber, b.nextFile) && level + 1 < NUM_LEVELS
    ensures file.number < TWO64 && OnDisk(file, tables)
  {
    hide Selected, Installed, SourcesOrdered, WellFormed, Layered, IsFold, OnFile;
    FileFacts(tables, d.version, d.version, logNumber, d.nextFile);
    FilesOnFile(tables, d.version, d.version, logNumber, d.nextFile);
    SelectedMembers(d.version, level, [file], []);
    assert ([file])[0] == file && HasFile(d.version, level, file);
    InstallFolds(d, level, [file], [], [file], b.version, tables, tables, logNumber, d.nextFile);
  }

  /** A compaction makes no more tables than there are entries. */
  lemma OutputsFit(d: Store, level: nat, inputs0: seq<FileMeta>, inputs1: seq<FileMeta>, outputs: seq<FileMeta>, b: Store)
    requires Inv(d) && CompactStep(d, level, inputs0, inputs1, outputs, b)
    ensures |outputs| <= |AllEntries(d.version)|
  {
    hide Selected, Installed, SourcesOrdered, Layered, AllEntries, KeptEntries, Obsolete;
    ConcatIsSorted(outputs);
    SetOfSorted(Concat(outputs));
    TablesAreNotEmpty(outputs);
    KeptInTree(d, level, inputs0, inputs1);
    Subset(Entries(outputs), AllEntries(d.version));
  }

  lemma KeptInTree(d: Store, level: nat, inputs0: seq<FileMeta>, inputs1: seq<FileMeta>)
    requires Selected(d.version, level, inputs0, inputs1)
    ensures KeptEntries(d, level, inputs0, inputs1) <= AllEntries(d.version)
  {
    hide Obsolete, Selected;
    InputEntriesInAll(d.version, level, inputs0, inputs1);
  }

  lemma {:induction false} TablesAreNotEmpty(files: seq<FileMeta>)
    requires ValidFiles(files)
    ensures |files| <= |Concat(files)|
    decreases files
  {
    if files != [] {
      var n := |files| - 1;
      assert files == files[..n] + [files[n]] && files[n] in files;
      TablesAreNotEmpty(files[..n]);
    }
  }

  lemma {:induction false} SetOfSorted(es: seq<Entry>)
    requires Sorted(es)
    ensures |ToSet(es)| == |es|
    decreases es
  {
    if es != [] {
      RestOf(es);
      SetOfSorted(es[1..]);
      assert ToSet(es) == ToSet(es[1..]) + {es[0]} && es[0] !in ToSet(es[1..]);
    }
  }

  lemma Subset(a: set<Entry>, b: set<Entry>)
    requires a <= b
    ensures |a| <= |b|
  {
    assert b == a + (b - a);
  }
}
