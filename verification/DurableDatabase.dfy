/** The database together with its files: a write-ahead log for each memtable and a manifest of versions; and what opening
    them after a crash gives (db/db_impl.cc, db/version_set.cc). */
module DurableDatabases {
  import opened DbFormat
  import opened Coding
  import opened LogFormat
  import opened LogRoundTrip
  import opened Reads
  import opened Files
  import opened Versions
  import opened CompactionWork
  import opened Compactions
  import opened WriteBatches
  import LogWriters
  import R = Recovery
  import opened EditCodec
  import opened Manifests
  import opened ManifestWriters
  import opened Builders
  import E = Edits
  import opened Stores
  import opened StoreRuns
  import opened CrashSafety
  import opened Databases
  import opened TableFiles
  import opened LogReplay
  import opened OpenDatabase

  /** A log file holds the batches logged to it. */
  ghost predicate Holds(w: LogWriters.Writer, crc: Checksum, l: LogFile)
    reads w
  {
    w.Valid() && w.crc == crc && w.before == [] && l.Ok() && w.records == R.Records(l.start, l.batches)
  }

  ghost predicate CountersAre(c: Counters, t: Tree) {
    && c.logNumber.Some? && c.logNumber.value == t.logNumber
    && c.nextFile.Some? && c.nextFile.value == t.nextFile
    && c.lastSequence.Some? && c.lastSequence.value == t.last
  }

  /** VersionSet::MarkFileNumberUsed. */
  method MarkFileNumberUsed(nextFile: nat, number: nat) returns (next: nat)
    ensures nextFile <= next && number < next && (next == nextFile || next == number + 1)
  {
    next := if nextFile <= number then number + 1 else nextFile;
  }

  /** The least number greater than that of the new manifest, which takes the recorded next number, and those of the replayed
      logs. */
  ghost predicate IsNextNumber(next: nat, recorded: nat, replayed: set<nat>) {
    && recorded < next && (forall l :: l in replayed ==> l < next)
    && (next == recorded + 1 || next - 1 in replayed)
  }

  class DurableDatabase {
    const crc: Checksum
    const db: Database
    /** The rest of the version set: it agrees with db.versions in the current version. */
    const manifest: VersionLog
    var log: LogWriters.Writer
    var logFileNumber: nat
    /** The log of the immutable memtable, until it is deleted. */
    var immLog: LogWriters.Writer?
    var immLogNumber: nat
    var tables: map<nat, FileMeta>
    /** The logs' contents; what the last record of the manifest says, and the last one known to be on disk; and whether every
        compaction so far was clean. */
    ghost var logs: Logs
    ghost var tree: Tree
    ghost var synced: Tree
    ghost var clean: bool

    ghost predicate LogsMatch()
      reads `log, `immLog, `logs, `logFileNumber, `immLogNumber, log, immLog
    {
      && logs.Ok() && Holds(log, crc, logs.mem) && logs.mem.number == logFileNumber && log != immLog
      && (if immLog == null then logs.imm.None? else
            logs.imm.Some? && Holds(immLog, crc, logs.imm.value) && logs.imm.value.number == immLogNumber)
    }

    ghost predicate ManifestMatches()
      reads `tree, `synced, `tables, manifest, manifest.descriptor
    {
      && manifest.Valid() && manifest.descriptor != null && manifest.crc == crc && Describes(manifest.describe)
      && manifest.current == tree.version && manifest.logNumber == tree.logNumber && manifest.prevLogNumber == 0 && manifest.open == OpenTables(tables)
      && AllNameTables(manifest.es, tables)
      && var n := |manifest.es|;
         && n >= 2 && RecordOf(manifest.es[n - 1], tree)
         && (synced == tree || (n >= 3 && manifest.versions[n - 2] == synced.version && RecordOf(manifest.es[n - 2], synced)))
    }

    ghost predicate Valid()
      reads this, db, db.versions, manifest, manifest.descriptor, log, immLog
    {
      && LogsMatch() && ManifestMatches() && log != manifest.descriptor && immLog != manifest.descriptor
      && db.Valid() && Stored(db.State(), tree, logs) && StandsFor(tree, synced, logs, clean, db.history)
      && OnFile(tables, db.versions.current, synced.version, logFileNumber, db.versions.nextFileNumber)
      && synced.nextFile <= db.versions.nextFileNumber
    }

    /** DB::Open of a new database: the first log, and a manifest that says so. */
    constructor (crc: Checksum, comparator: Bytes, describe: Describe, maxFileSize: nat, number: nat)
      requires |comparator| < TWO32 && Describes(describe) && 0 < number < TWO64 - 1
      ensures Valid() && clean && synced == tree && logs == Logs(None, LogFile(number, 0, []))
      ensures Init(db.State()) && db.history == {} && immLog == null
      ensures fresh(db) && fresh(db.versions) && fresh(manifest) && fresh(manifest.descriptor) && fresh(log)
    {
      hide LogWriters.Writer.Valid, Recoverable, VersionLog.Valid, Inv;
      var d := new Database(maxFileSize, number + 1);
      var v := d.versions.current;
      NothingYet(v, number);
      var m := NewManifest(crc, comparator, describe, v, number);
      this.crc, db, manifest := crc, d, m;
      log := new LogWriters.Writer(crc, []);
      logFileNumber, immLog, immLogNumber, tables := number, null, 0, map[];
      logs := Logs(None, LogFile(number, 0, []));
      tree := Tree(v, {}, number, 0, number + 1);
      synced, clean := tree, true;
    }

    /** DB::Open of a recovered one: the replayed memtable becomes a level-0 table, and a new manifest starts with a snapshot of
        the recovered version. */
    constructor Recovered (crc: Checksum, comparator: Bytes, describe: Describe, maxFileSize: nat, d: Store,
                           tables: map<nat, FileMeta>, fileSize: nat, ghost history: set<Entry>, ghost clean: bool)
      requires |comparator| < TWO32 && Describes(describe) && d.nextFile < TWO64 - 2
      requires Inv(d) && d.imm == None && d.snapshots == [] && Numbered(tables, d.nextFile) && AllOnDisk(d.version, tables)
      requires Remembers(d, history, clean)
      ensures Valid() && synced == tree && this.clean == clean && db.history == history
      ensures StartsFrom(d, fileSize) && db.State().All() == d.All()
      ensures fresh(db) && fresh(db.versions) && fresh(manifest) && fresh(manifest.descriptor) && fresh(log) && immLog == null
    {
      hide LogWriters.Writer.Valid, Recoverable, VersionLog.Valid, Inv, Remembers, Numbered, NumberedFrom, AllOnDisk, OnFile, Stored,
           StandsFor, IsFold, NewTo, E.AdditionsAt, WithTables, FlushedFile, Describes, AllNameTables, AllEntries, ToSet, Next,
           WellFormed, LevelsSorted, OpenTables;
      var number := d.nextFile + 1;
      var files := FlushedFile(d.nextFile, fileSize, d.mem);
      var v := WithReplayed(d, fileSize);
      var after := d.(mem := [], version := v, nextFile := number + 1);
      StartsOver(d, after, history, clean, number);
      ReplayedOnFile(d, v, files, fileSize, tables);
      var m := ReopenedManifest(crc, comparator, describe, d, v, files, tables);
      this.crc, manifest := crc, m;
      db := new Database.Recovered(maxFileSize, after, history);
      log := new LogWriters.Writer(crc, []);
      logFileNumber, immLog, immLogNumber, this.tables := number, null, 0, WithTables(tables, files);
      logs := Logs(None, LogFile(number, d.lastSequence, []));
      tree := Tree(v, history, number, d.lastSequence, number + 1);
      synced, this.clean := tree, clean;
    }

    /** The tables of `d` and one more, at level 0, of its memtable's entries; an empty log; and the next file numbers used. */
    ghost predicate StartsFrom(d: Store, fileSize: nat)
      reads this, db, db.versions
    {
      && IsFold(db.versions.current, d.version, [VersionEdit({}, E.AdditionsAt(FlushedFile(d.nextFile, fileSize, d.mem), 0))])
      && db.mem == [] && db.imm == None && db.snapshots == [] && db.versions.lastSequence == d.lastSequence
      && logs == Logs(None, LogFile(d.nextFile + 1, d.lastSequence, [])) && logFileNumber == d.nextFile + 1
      && db.versions.nextFileNumber == d.nextFile + 2
    }

    /** DBImpl::Write: log the batch, then insert it. */
    method Write(ops: seq<Op>)
      requires Valid() && |ops| < 0x8000_0000 && AllFit(ops) && db.versions.lastSequence + |ops| < MAX_SEQUENCE
      modifies `logs, log, db`mem, db`history, db.versions`lastSequence
      ensures Valid() && Next(old(db.State()), Step.Write(R.UpdatesOf(ops)), db.State())
      ensures logs == MoreLogged(old(logs), R.Batch(old(db.versions.lastSequence) + 1, ops))
    {
      hide ManifestMatches, LogsMatch, Stored, StandsFor, OnFile, Inv, R.UpdatesOf, R.Committed, EncodeBatch;
      var sequence := db.versions.lastSequence + 1;
      ghost var before, b := db.State(), R.Batch(sequence, ops);
      StoredFacts(before, tree, logs);
      OneBatch(sequence - 1, ops);
      MoreIsCovered(before, tree, synced, logs, clean, db.history, b);
      LogBatch(sequence, ops);
      db.Write(R.UpdatesOf(ops));
      MoreIsStored(before, tree, old(logs), b, db.State());
    }

    /** The log grows by the record of the batch. */
    method LogBatch(sequence: Word64, ops: seq<Op>)
      requires LogsMatch() && |ops| < TWO32 && sequence == logs.mem.Last() + 1
      requires R.Committed(logs.mem.Last(), [R.Batch(sequence, ops)]) && logs.mem.Last() + |ops| < MAX_SEQUENCE
      modifies `logs, log
      ensures LogsMatch() && logs == MoreLogged(old(logs), R.Batch(sequence, ops))
    {
      hide LogWriters.Writer.Valid, EncodeBatch, R.Committed;
      ghost var b := R.Batch(sequence, ops);
      MoreInLog(logs.mem, b);
      log.AddRecord(EncodeBatch(sequence, ops));
      logs := MoreLogged(logs, b);
    }

    /** The last branch of MakeRoomForWrite: a new log for a new memtable. */
    method SwitchMemTable()
      requires Valid() && db.imm.None? && immLog == null && db.versions.nextFileNumber + 1 < TWO64
      modifies `log, `logFileNumber, `immLog, `immLogNumber, `logs, db`mem, db`imm, db.versions`nextFileNumber
      ensures Valid() && fresh(log) && logs == Switched(old(logs), old(db.versions.nextFileNumber))
      ensures db.State() == old(db.State()).(mem := [], imm := Some(old(db.mem)), nextFile := old(db.versions.nextFileNumber) + 1)
    {
      hide ManifestMatches, LogsMatch, Stored, StandsFor, Inv;
      ghost var before := db.State();
      NoLogToDelete();
      var number := db.NewFileNumber();
      db.SwitchMemTable();
      SwitchStands(before, tree, synced, logs, clean, db.history, db.State());
      StartLog(number);
    }

    lemma NoLogToDelete()
      requires LogsMatch()
      ensures logs.imm.None? <==> immLog == null
      ensures logs.mem.number == logFileNumber && logs.Ok()
    {
    }

    method StartLog(number: nat)
      requires LogsMatch() && immLog == null && logFileNumber < number
      modifies `log, `logFileNumber, `immLog, `immLogNumber, `logs
      ensures LogsMatch() && logs == Switched(old(logs), number) && logFileNumber == number && fresh(log) && immLog == old(log)
    {
      immLog, immLogNumber := log, logFileNumber;
      log := new LogWriters.Writer(crc, []);
      logFileNumber := number;
      logs := Switched(logs, number);
    }

    /** DBImpl::Get without a snapshot: in a run whose compactions were all clean, what the history says. */
    method Get(k: UserKey) returns (r: Option<Value>)
      requires Valid()
      ensures r == Read(db.State().All(), k, db.versions.lastSequence)
      ensures clean ==> r == Read(db.history, k, db.versions.lastSequence)
    {
      hide ManifestMatches, LogsMatch, Stored, Recoverable, Inv, OnFile, Read;
      r := db.Get(k, db.versions.lastSequence);
      if clean {
        StoreReadsHistory(db.State(), tree, logs, db.history);
      }
    }

    method GetSnapshot() returns (s: SequenceNumber)
      requires Valid()
      modifies db`snapshots
      ensures Valid() && Next(old(db.State()), NewSnapshot, db.State()) && s == db.versions.lastSequence
    {
      hide ManifestMatches, LogsMatch, StandsFor, Inv, OnFile;
      s := db.GetSnapshot();
    }

    method ReleaseSnapshot(i: nat)
      requires Valid() && i < |db.snapshots|
      modifies db`snapshots
      ensures Valid() && Next(old(db.State()), Step.ReleaseSnapshot(i), db.State())
    {
      hide ManifestMatches, LogsMatch, StandsFor, Inv, OnFile;
      db.ReleaseSnapshot(i);
    }

    /** A round has changed the store from `d`, and the files do not show it yet. */
    ghost predicate Underway(d: Store)
      reads this, db, db.versions, manifest, manifest.descriptor, log, immLog
    {
      && LogsMatch() && ManifestMatches() && log != manifest.descriptor && immLog != manifest.descriptor && synced == tree
      && db.Valid() && Inv(d) && Stored(d, tree, logs) && StandsFor(tree, tree, logs, clean, db.history)
      && OnFile(tables, d.version, d.version, logFileNumber, d.nextFile) && d.nextFile <= db.versions.nextFileNumber < TWO64
    }

    /** New table files are on disk before the manifest names them. */
    method AddTables(files: seq<FileMeta>, ghost first: nat)
      requires ManifestMatches() && Numbered(tables, first) && NumberedFrom(files, first)
      modifies `tables, manifest`open
      ensures ManifestMatches() && tables == WithTables(old(tables), files)
    {
      hide VersionLog.Valid, Numbered, NumberedFrom, Describes, RecordOf;
      WithTablesHas(tables, files, first);
      var more := WithTables(tables, files);
      SameOpened(manifest.es, tables, more);
      manifest.OpenMore(OpenTables(more));
      tables := more;
    }

    /** Write the record of an edit whose version is the current one already. */
    method LogEdit(e: Edit, ghost t: Tree)
      requires ManifestMatches() && synced == tree && Writable(e) && e.comparator == None && NamesTables(e, tables)
      requires e.prevLogNumber.Some? ==> e.prevLogNumber.value == 0
      requires Numbered(tables, db.versions.nextFileNumber) && db.versions.nextFileNumber < TWO64
      requires NewTo(manifest.current, ToVersionEdit(e, OpenTables(tables)))
      requires IsFold(db.versions.current, manifest.current, [ToVersionEdit(e, OpenTables(tables))])
      requires e.logNumber.Some? ==> manifest.logNumber <= e.logNumber.value < db.versions.nextFileNumber
      requires t.version == db.versions.current && t.last == db.versions.lastSequence && t.nextFile == db.versions.nextFileNumber
      requires t.logNumber == if e.logNumber.Some? then e.logNumber.value else tree.logNumber
      modifies `tree, manifest`current, manifest`logNumber, manifest`prevLogNumber, manifest`nextFileNumber, manifest`lastSequence,
               manifest`compactPointers, manifest`descriptor, manifest`es, manifest`versions, manifest.descriptor
      ensures ManifestMatches() && tree == t && manifest.descriptor == old(manifest.descriptor)
    {
      hide Writable, IsFold, NamesTables, AllNameTables, Numbered, NewTo, EditsApply, VersionLog.Valid, VersionLog.NumbersAreNew,
           VersionLog.OneMoreRecord, Described, Describes, RecordOf;
      manifest.SetCounters(db.versions.nextFileNumber, db.versions.lastSequence);
      EditIsNew(e, db.versions.nextFileNumber);
      manifest.Install(e, db.versions.current);
      RecordAdded(e, old(manifest.es), old(manifest.versions), old(manifest.current), old(manifest.logNumber), old(manifest.prevLogNumber),
                  tree, t);
      tree := t;
    }

    /** Tables first, then the record that names them. */
    method AddAndLog(files: seq<FileMeta>, ghost first: nat, e: Edit, ghost t: Tree)
      requires ManifestMatches() && synced == tree && Writable(e) && e.comparator == None
      requires e.prevLogNumber.Some? ==> e.prevLogNumber.value == 0
      requires Numbered(tables, first) && NumberedFrom(files, first) && db.versions.nextFileNumber < TWO64
      requires NamesTables(e, WithTables(tables, files)) && Numbered(WithTables(tables, files), db.versions.nextFileNumber)
      requires NewTo(manifest.current, ToVersionEdit(e, OpenTables(WithTables(tables, files))))
      requires IsFold(db.versions.current, manifest.current, [ToVersionEdit(e, OpenTables(WithTables(tables, files)))])
      requires e.logNumber.Some? ==> manifest.logNumber <= e.logNumber.value < db.versions.nextFileNumber
      requires t.version == db.versions.current && t.last == db.versions.lastSequence && t.nextFile == db.versions.nextFileNumber
      requires t.logNumber == if e.logNumber.Some? then e.logNumber.value else tree.logNumber
      modifies `tables, `tree, manifest, manifest.descriptor
      ensures ManifestMatches() && tree == t && manifest.descriptor == old(manifest.descriptor) && tables == WithTables(old(tables), files)
    {
      hide ManifestMatches, Writable, IsFold, NamesTables, Numbered, NumberedFrom, NewTo, WithTables, ToVersionEdit;
      AddTables(files, first);
      LogEdit(e, t);
    }

    lemma EditIsNew(e: Edit, next: nat)
      requires ManifestMatches() && Writable(e) && NamesTables(e, tables) && Numbered(tables, next)
      requires NewTo(manifest.current, ToVersionEdit(e, OpenTables(tables)))
      ensures LevelsSorted(manifest.current) && manifest.NumbersAreNew(e) && |manifest.es| == |manifest.versions|
      ensures manifest.versions[|manifest.versions| - 1] == manifest.current
    {
      hide Writable, NamesTables, AllNameTables, Numbered, NewTo, EditsApply, IsManifest, LogWriters.Writer.Valid, Describes, RecordOf,
           ToVersionEdit, FilesFrom;
      EditsAreWritable();
      NumbersNeverReused(manifest.current, manifest.es, e, tables, next);
    }

    lemma RecordAdded(e: Edit, es: seq<Edit>, versions: seq<Version>, v: Version, log: Word64, prevLog: Word64, before: Tree, t: Tree)
      requires manifest.OneMoreRecord(e, es, versions, v, log, prevLog) && |es| == |versions| >= 2
      requires prevLog == 0 && (e.prevLogNumber.Some? ==> e.prevLogNumber.value == 0)
      requires AllNameTables(es, tables) && NamesTables(e, tables)
      requires RecordOf(es[|es| - 1], before) && versions[|es| - 1] == before.version
      requires t.last == manifest.lastSequence && t.nextFile == manifest.nextFileNumber
      requires t.logNumber == if e.logNumber.Some? then e.logNumber.value else log
      ensures manifest.logNumber == t.logNumber && manifest.prevLogNumber == 0 && AllNameTables(manifest.es, tables)
      ensures var n := |manifest.es|;
        n >= 3 && RecordOf(manifest.es[n - 1], t) && RecordOf(manifest.es[n - 2], before) && manifest.versions[n - 2] == before.version
    {
      var n := |manifest.es|;
      assert manifest.es[..n - 1] == es && manifest.versions[..n - 1] == versions;
      assert forall i :: 0 <= i < n - 1 ==> manifest.es[i] == es[i];
      assert manifest.es[n - 1].newFiles == e.newFiles;
    }

    lemma EditsAreWritable()
      requires manifest.Valid() && manifest.descriptor != null
      ensures forall i :: 0 <= i < |manifest.es| ==> Writable(manifest.es[i])
      ensures |manifest.current.files| == NUM_LEVELS && |manifest.es| == |manifest.versions|
    {
    }

    /** One round of background work, with its tables written and its edit logged.  The record need not have reached the disk
        yet: until SyncManifest, `synced` is the tree from before. */
    method BackgroundCompaction(request: Request, fileSize: nat, flushedSize: seq<Entry> -> nat, finishedSize: seq<Entry> -> nat)
      returns (step: Option<Step>)
      requires Valid() && synced == tree && LegalRequest(request, db.versions.current)
      requires db.versions.nextFileNumber + 1 + |AllEntries(db.versions.current)| < TWO64
      modifies `tables, `tree, `clean, db`imm, db.versions, manifest, manifest.descriptor
      ensures Valid()
      ensures step.None? ==> db.State() == old(db.State()) && tree == old(tree) && clean == old(clean)
      ensures step.Some? ==> Next(old(db.State()), step.value, db.State())
      ensures step.Some? ==> clean == (old(clean) && CleanStep(TreeOnly(old(db.State())), step.value))
      ensures old(db.imm).Some? ==> step.Some? && step.value.Flush? && step.value.fileSize == fileSize
      ensures old(db.imm).Some? && old(db.imm).value != [] ==>
                IsMemTableLevel(old(db.versions.current), old(db.imm).value[0].key.user,
                                old(db.imm).value[|old(db.imm).value| - 1].key.user, db.versions.maxFileSize, step.value.level)
      ensures old(db.imm).None? ==> IsRound(request, old(db.versions.current), old(db.versions.compactPointer),
                                            db.versions.maxFileSize, flushedSize, finishedSize, step)
      ensures manifest.descriptor == old(manifest.descriptor)
    {
      hide Inv, Stored, StandsFor, OnFile, LogsMatch, ManifestMatches, ResurrectsNothing, Selected, LegalRequest, IsRound,
           IsMemTableLevel, FlushStep, MoveStep, CompactStep;
      ghost var d := db.State();
      var number, es := db.versions.nextFileNumber, db.imm;
      StoredFacts(d, tree, logs);
      step := db.BackgroundCompaction(request, fileSize, flushedSize, finishedSize);
      if step.Some? {
        NumbersLast(d, step.value, db.State());
        if step.value.Flush? {
          LogFlush(d, step.value.level, fileSize, es.value, number);
        } else if step.value.TrivialMove? {
          LogMove(d, step.value.level, step.value.file);
        } else {
          LogCompaction(d, step.value.level, step.value.inputs0, step.value.inputs1, step.value.outputs);
        }
      }
    }

    /** After WriteLevel0Table: the table's edit, with the number of the memtable's log. */
    method LogFlush(ghost d: Store, level: nat, fileSize: nat, es: seq<Entry>, number: nat)
      requires Underway(d) && FlushStep(d, level, fileSize, db.State()) && d.imm == Some(es) && number == d.nextFile
      modifies `tables, `tree, manifest, manifest.descriptor
      ensures Valid() && manifest.descriptor == old(manifest.descriptor)
    {
      hide Inv, Stored, StandsFor, OnFile, LogsMatch, FlushStep, ManifestMatches, Describes, Underway,
           IsFold, NewTo, NumberedFrom, Numbered, WithTables, OnDisk, NamesTables, Writable,
           ToVersionEdit, E.AdditionsAt, E.DeletionsAt, FlushedFile, AfterFlush;
      var files := FlushedFile(number, fileSize, es);
      var l := if es == [] then 0 else level;
      PrepareFlush(d, level, fileSize, l, files);
      ghost var t := AfterFlush(tree, logs, db.State());
      var e := FlushRecord(manifest.describe, l, files, logFileNumber, WithTables(tables, files));
      AddAndLog(files, number, e, t);
    }

    lemma PrepareFlush(d: Store, level: nat, fileSize: nat, l: nat, files: seq<FileMeta>)
      requires Underway(d) && FlushStep(d, level, fileSize, db.State())
      requires l == (if d.imm.value == [] then 0 else level) && files == FlushedFile(d.nextFile, fileSize, d.imm.value)
      ensures LogsMatch() && ManifestMatches() && log != manifest.descriptor && immLog != manifest.descriptor && db.Valid()
      ensures synced == tree && synced.nextFile <= db.versions.nextFileNumber
      ensures Describes(manifest.describe) && manifest.descriptor != null
      ensures manifest.logNumber <= logFileNumber < db.versions.nextFileNumber < TWO64
      ensures l < NUM_LEVELS && Numbered(tables, d.nextFile) && NumberedFrom(files, d.nextFile)
      ensures forall f :: f in files ==> f.number < TWO64 && OnDisk(f, WithTables(tables, files))
      ensures var edit := VersionEdit({}, E.AdditionsAt(files, l));
        NewTo(manifest.current, edit) && IsFold(db.versions.current, manifest.current, [edit])
      ensures OnFile(WithTables(tables, files), db.versions.current, tree.version, logFileNumber, db.versions.nextFileNumber)
      ensures Numbered(WithTables(tables, files), db.versions.nextFileNumber)
      ensures logs.Ok() && logs.imm.Some?
      ensures var after := AfterFlush(tree, logs, db.State());
        && after.version == db.versions.current && after.last == db.versions.lastSequence
        && after.nextFile == db.versions.nextFileNumber && after.logNumber == logFileNumber
        && Stored(db.State(), after, logs) && StandsFor(after, tree, logs, clean, db.history)
    {
      hide Inv, Stored, StandsFor, OnFile, LogsMatch, FlushStep, ManifestMatches, Describes,
           IsFold, NewTo, NumberedFrom, Numbered, WithTables, OnDisk, E.AdditionsAt, FlushedFile;
      ghost var b := db.State();
      AnyLevelWithout(d, level, l, fileSize, b);
      LogFacts(d);
      FlushStands(d, level, fileSize, b, tree, logs, clean, db.history);
      FlushFolds(d, l, fileSize, b, tables, logFileNumber);
      FileFacts(tables, d.version, d.version, logFileNumber, d.nextFile);
      FileFacts(WithTables(tables, files), b.version, d.version, logFileNumber, b.nextFile);
    }

    lemma LogFacts(d: Store)
      requires LogsMatch() && ManifestMatches() && Stored(d, tree, logs) && StandsFor(tree, tree, logs, clean, db.history)
      ensures Describes(manifest.describe) && manifest.descriptor != null && manifest.current == d.version == tree.version && logs.Ok()
      ensures manifest.logNumber <= logFileNumber == logs.mem.number && tree.nextFile <= d.nextFile
    {
    }

    /** A trivial move's edit. */
    method LogMove(ghost d: Store, level: nat, file: FileMeta)
      requires Underway(d) && MoveStep(d, level, file, db.State())
      modifies `tree, manifest, manifest.descriptor
      ensures Valid() && manifest.descriptor == old(manifest.descriptor)
    {
      hide Inv, Stored, StandsFor, OnFile, LogsMatch, MoveStep, ManifestMatches, Describes,
           IsFold, NewTo, NumberedFrom, Numbered, WithTables, OnDisk, NamesTables, Writable,
           ToVersionEdit, E.AdditionsAt, E.DeletionsAt, FlushedFile;
      ghost var b := db.State();
      LogFacts(d);
      MoveStands(d, level, file, b, tree, logs, clean, db.history);
      FileFacts(tables, d.version, d.version, logFileNumber, d.nextFile);
      MoveFolds(d, level, file, b, tables, logFileNumber);
      FileFacts(tables, b.version, d.version, logFileNumber, b.nextFile);
      var e := CompactionRecord(manifest.describe, level, [file], [], [file], tables);
      LogEdit(e, AfterReplace(tree, b));
    }

    /** InstallCompactionResults' edit. */
    method LogCompaction(ghost d: Store, level: nat, inputs0: seq<FileMeta>, inputs1: seq<FileMeta>, outputs: seq<FileMeta>)
      requires Underway(d) && CompactStep(d, level, inputs0, inputs1, outputs, db.State())
      modifies `tables, `tree, `clean, manifest, manifest.descriptor
      ensures Valid() && clean == (old(clean) && CleanStep(TreeOnly(d), Compact(level, inputs0, inputs1, outputs)))
      ensures manifest.descriptor == old(manifest.descriptor)
    {
      hide Inv, Stored, StandsFor, OnFile, LogsMatch, CompactStep, ManifestMatches, Describes,
           IsFold, NewTo, NumberedFrom, Numbered, WithTables, OnDisk, NamesTables, Writable,
           ToVersionEdit, E.AdditionsAt, E.DeletionsAt, FlushedFile, CleanStep;
      ghost var b := db.State();
      LogFacts(d);
      CompactionStands(d, level, inputs0, inputs1, outputs, b, tree, logs, clean, db.history);
      CompactionFolds(d, level, inputs0, inputs1, outputs, b, tables, logFileNumber);
      FileFacts(tables, d.version, d.version, logFileNumber, d.nextFile);
      FileFacts(WithTables(tables, outputs), b.version, d.version, logFileNumber, b.nextFile);
      var e := CompactionRecord(manifest.describe, level, inputs0, inputs1, outputs, WithTables(tables, outputs));
      clean := clean && CleanStep(TreeOnly(d), Compact(level, inputs0, inputs1, outputs));
      AddAndLog(outputs, d.nextFile, e, AfterReplace(tree, b));
    }

    /** The manifest's last record has reached the disk. */
    ghost method SyncManifest()
      requires Valid()
      modifies `synced
      ensures Valid() && synced == tree
    {
      hide LogsMatch, Stored, Recoverable, Inv, Numbered, AllOnDisk, VersionLog.Valid, AllNameTables, Describes, RecordOf;
      StoredFacts(db.State(), tree, logs);
      synced := tree;
    }

    /** DeleteObsoleteFiles, for logs: the one no record needs any more. */
    method DeleteObsoleteFiles()
      requires Valid() && synced == tree
      modifies `immLog, `logs
      ensures Valid() && immLog == (if old(immLog) != null && immLogNumber < manifest.logNumber then null else old(immLog))
      ensures db.imm.None? ==> immLog == null
    {
      hide ManifestMatches, StandsFor, Stored, Inv, OnFile, Holds;
      ImmLogFacts();
      if immLog != null && immLogNumber < manifest.logNumber {
        DeleteStands(db.State(), tree, logs, clean, db.history);
        StillOk(logs);
        immLog := null;
        logs := logs.(imm := None);
      }
    }

    /** The log of the immutable memtable is obsolete exactly when that memtable has been flushed. */
    lemma ImmLogFacts()
      requires Valid()
      ensures immLog != null ==> (immLogNumber >= manifest.logNumber <==> tree.Needs(logs))
      ensures db.imm.Some? <==> tree.Needs(logs)
      ensures immLog == null ==> !tree.Needs(logs)
      ensures manifest.descriptor != null && logs.Ok()
    {
      hide VersionLog.Valid, StandsFor, Inv, Holds;
    }

    /** Where the records known to be on disk end. */
    ghost function SyncedRecords(): nat
      reads `tree, `synced, manifest
    {
      if synced == tree || manifest.es == [] then |manifest.es| else |manifest.es| - 1
    }

    method ReopenManifest(cut: nat) returns (v: Version, counters: Counters, ghost t: Tree)
      requires ManifestMatches() && cut <= |manifest.Contents()|
      requires |Log(crc, 0, Records(manifest.es[..SyncedRecords()]))| <= cut
      ensures (t == tree || t == synced) && (cut == |manifest.Contents()| ==> t == tree)
      ensures v == t.version && CountersAre(counters, t)
    {
      hide Log, Whole, ManifestMatches, VersionLog.Valid, CountersAre, Records, VersionLog.Contents, SyncedRecords;
      ghost var n := Whole(crc, 0, Records(manifest.es), cut);
      t := SurvivingTree(cut, n);
      var r := manifest.RecoverAfterCrash(cut);
      v, counters := r.value.0, r.value.1;
    }

    /** The tree of the last record that survived. */
    lemma SurvivingTree(cut: nat, n: nat) returns (t: Tree)
      requires ManifestMatches() && cut <= |manifest.Contents()| && n == Whole(crc, 0, Records(manifest.es), cut)
      requires |Log(crc, 0, Records(manifest.es[..SyncedRecords()]))| <= cut
      ensures manifest.Valid() && manifest.descriptor != null && manifest.crc == crc
      ensures (t == tree || t == synced) && (cut == |manifest.Contents()| ==> t == tree)
      ensures 2 <= n <= |manifest.es| == |manifest.versions|
      ensures manifest.versions[n - 1] == t.version && CountersAre(CountersIn(manifest.es[n - 1]), t)
    {
      hide ManifestMatches, Log, Whole, VersionLog.Valid, CountersAre, VersionLog.Contents;
      ghost var es := manifest.es;
      RecordsAre();
      WholeLog();
      WholeFits(es, cut);
      SyncedSurvive(es, SyncedRecords(), cut);
      SyncedSurvive(es, if cut == |manifest.Contents()| then |es| else 0, cut);
      t := if n == |es| then tree else synced;
    }

    lemma RecordsAre()
      requires ManifestMatches()
      ensures manifest.Valid() && manifest.descriptor != null && manifest.crc == crc
      ensures var n := |manifest.es|;
        && 2 <= n == |manifest.versions| && manifest.versions[n - 1] == tree.version && CountersAre(CountersIn(manifest.es[n - 1]), tree)
        && (synced == tree || (n >= 3 && manifest.versions[n - 2] == synced.version && CountersAre(CountersIn(manifest.es[n - 2]), synced)))
    {
      hide VersionLog.Valid, AllNameTables, Describes;
      WholeLog();
    }

    lemma WholeFits(es: seq<Edit>, cut: nat)
      ensures Whole(crc, 0, Records(es), cut) <= |es|
    {
    }

    lemma WholeLog()
      requires manifest.Valid() && manifest.descriptor != null && manifest.crc == crc
      ensures |manifest.es| == |manifest.versions| && manifest.Contents() == Log(crc, 0, Records(manifest.es))
      ensures |manifest.es| > 0 ==> manifest.versions[|manifest.es| - 1] == manifest.current
      ensures manifest.es[..|manifest.es|] == manifest.es
    {
      hide Log, IsManifest, LevelsSorted, LogWriters.Writer.Valid, EncodeEdit;
      manifest.ContentsAreLog();
    }

    lemma SyncedSurvive(es: seq<Edit>, k: nat, cut: nat)
      requires k <= |es| && (k > 0 ==> |Log(crc, 0, Records(es[..k]))| <= cut)
      ensures k <= Whole(crc, 0, Records(es), cut)
    {
      hide Log, Whole, EncodeEdit;
      if k > 0 {
        assert Records(es)[..k] == Records(es[..k]);
        WholeCountsEnds(crc, 0, Records(es), cut, k - 1);
      }
    }

    /** What replaying needs to know of the logs and of either tree. */
    lemma ReopenFacts(t: Tree)
      requires Valid() && (t == tree || t == synced)
      ensures Recoverable(t, logs, clean) && logs.Ok() && t.logNumber <= logs.mem.number && t.last <= logs.mem.Last() < MAX_SEQUENCE
      ensures log.crc == crc && log.dest == Log(crc, 0, R.Records(logs.mem.start, logs.mem.batches)) && logs.mem.number == logFileNumber
      ensures immLog == null ==> logs.imm.None?
      ensures immLog != null ==>
                && logs.imm.Some? && logs.imm.value.number == immLogNumber < logFileNumber && logs.imm.value.Last() == logs.mem.start
                && immLog.dest == Log(crc, 0, R.Records(logs.imm.value.start, logs.imm.value.batches))
      ensures t.flushed + t.AllLogged(logs) == db.history
      ensures logFileNumber < db.versions.nextFileNumber < TWO64 && t.nextFile <= db.versions.nextFileNumber
    {
      hide Log, ManifestMatches, Inv, Numbered, AllOnDisk;
      assert [] + log.dest == log.dest;
    }

    /** A crash keeps the manifest at least up to its last synced record, and any part of each log. */
    ghost predicate Leaves(manifestCut: nat, immCut: nat, cut: nat)
      reads this, manifest, manifest.descriptor, log, immLog
    {
      && |Log(crc, 0, Records(manifest.es[..SyncedRecords()]))| <= manifestCut <= |manifest.Contents()|
      && cut <= |log.dest| && (immLog != null ==> immCut <= |immLog.dest|)
    }

    /** The tree of a surviving record, and how many batches survive of each log. */
    ghost predicate Survives(t: Tree, i: nat, m: nat, immCut: nat, cut: nat)
      reads this
    {
      && (t == tree || t == synced) && logs.Ok()
      && m == Whole(crc, 0, R.Records(logs.mem.start, logs.mem.batches), cut) <= |logs.mem.batches|
      && (t.Needs(logs) ==>
            i == Whole(crc, 0, R.Records(logs.imm.value.start, logs.imm.value.batches), immCut) <= |logs.imm.value.batches|)
    }

    /** What survives: all that had been flushed by then, and those batches. */
    ghost function Surviving(t: Tree, i: nat, m: nat, immCut: nat, cut: nat): set<Entry>
      requires Survives(t, i, m, immCut, cut)
      reads this
    {
      t.flushed + t.Logged(logs, i, m)
    }

    /** The numbers of the logs that recovery replays. */
    ghost function Replayed(t: Tree): set<nat>
      reads this
    {
      (if t.Needs(logs) then {logs.imm.value.number} else {}) + {logs.mem.number}
    }

    /** The last sequence number that a surviving record or a surviving batch names. */
    ghost function LastSurviving(t: Tree, i: nat, m: nat): nat
      reads this
      requires m <= |logs.mem.batches| && (t.Needs(logs) ==> i <= |logs.imm.value.batches|)
    {
      Larger(if t.Needs(logs) then Larger(t.last, logs.imm.value, i) else t.last, logs.mem, m)
    }

    lemma LargestOfBoth(t: Tree, i: nat, m: nat)
      requires m <= |logs.mem.batches| && (t.Needs(logs) ==> i <= |logs.imm.value.batches|)
      ensures var last := if t.Needs(logs) then Larger(Larger(0, logs.imm.value, i), logs.mem, m) else Larger(0, logs.mem, m);
        LastSurviving(t, i, m) == if last < t.last then t.last else last
    {
    }

    /** MarkFileNumberUsed for each log replayed. */
    method MarkLogsUsed(first: nat, logNumber: nat, ghost t: Tree) returns (next: nat)
      requires logNumber == t.logNumber && logs.mem.number == logFileNumber
      requires if immLog == null then logs.imm.None? else logs.imm.Some? && logs.imm.value.number == immLogNumber < logFileNumber
      ensures first <= next && (next == first || next - 1 in Replayed(t)) && forall l :: l in Replayed(t) ==> l < next
      ensures next == first || next <= logFileNumber + 1
    {
      next := first;
      if immLog != null && immLogNumber >= logNumber {
        next := MarkFileNumberUsed(next, immLogNumber);
      }
      next := MarkFileNumberUsed(next, logFileNumber);
    }

    /** A store made of a surviving version and the surviving batches, with the counters they need. */
    ghost predicate IsReopened(d: Store, t: Tree, i: nat, m: nat, immCut: nat, cut: nat)
      requires Survives(t, i, m, immCut, cut)
      reads this
    {
      && d.version == t.version && d.imm == None && d.snapshots == [] && ToSet(d.mem) == t.Logged(logs, i, m)
      && d.lastSequence == LastSurviving(t, i, m) && IsNextNumber(d.nextFile, t.nextFile, Replayed(t))
    }

    /** Opening what a crash has left: the manifest at least up to its last synced record, and any part of the logs.  What comes
        back is the version of a record that survived, with the entries of every logged batch that survived and is not in its
        tables; and if no compaction has resurrected a key, it reads as the history of those batches. */
    method Reopen(manifestCut: nat, immCut: nat, cut: nat, full: seq<R.Insertion> -> bool)
      returns (d: Store, ghost t: Tree, ghost i: nat, ghost m: nat)
      requires Valid() && Leaves(manifestCut, immCut, cut)
      ensures Survives(t, i, m, immCut, cut) && (manifestCut == |manifest.Contents()| ==> t == tree)
      ensures IsReopened(d, t, i, m, immCut, cut) && d.nextFile <= db.versions.nextFileNumber + 1
      ensures Inv(d) && Remembers(d, Surviving(t, i, m, immCut, cut), clean)
      // Nothing that reached the disk is lost.
      ensures cut == |log.dest| && (immLog != null ==> immCut == |immLog.dest|) ==> Surviving(t, i, m, immCut, cut) == db.history
    {
      hide ManifestMatches, Recoverable, Coherent, Inv, Sorted, LogFile.Wrote, OnFile, Log, LogsMatch, Stored, StandsFor,
           LogFile.Ok, Tree.Needs, Tree.Logged, R.Records, Larger, LastSurviving, Replayed;
      var v, counters;
      v, counters, t := ReopenManifest(manifestCut);
      var mem, last;
      mem, last, i, m := ReplayLogs(counters.logNumber.value, immCut, cut, full, t);
      LargestOfBoth(t, i, m);
      if last < counters.lastSequence.value {
        last := counters.lastSequence.value;
      }
      ReopenFacts(t);
      var next := MarkLogsUsed(counters.nextFile.value + 1, counters.logNumber.value, t);
      d := Store(mem, None, v, [], last, next);
      RecoveredStore(t, logs, clean, i, m, mem, last, next);
      if cut == |log.dest| && (immLog != null ==> immCut == |immLog.dest|) {
        WholeLogs(t, i, m);
      }
    }

    lemma WholeLogs(t: Tree, i: nat, m: nat)
      requires Valid() && (t == tree || t == synced)
      requires m == Whole(crc, 0, R.Records(logs.mem.start, logs.mem.batches), |log.dest|)
      requires t.Needs(logs) && immLog != null ==>
                 i == Whole(crc, 0, R.Records(logs.imm.value.start, logs.imm.value.batches), |immLog.dest|)
      ensures m <= |logs.mem.batches| && (t.Needs(logs) ==> i <= |logs.imm.value.batches|)
      ensures t.flushed + t.Logged(logs, i, m) == db.history
    {
      hide ManifestMatches, Recoverable, Inv, LogFile.Wrote, OnFile, Log, LogsMatch, Stored, StandsFor, R.Records, R.Committed;
      ReopenFacts(t);
      WholeLogKept(crc, logs.mem);
      if t.Needs(logs) {
        WholeLogKept(crc, logs.imm.value);
      }
    }

    /** Replay the logs from `logNumber` on into one memtable. */
    method ReplayLogs(logNumber: nat, immCut: nat, cut: nat, full: seq<R.Insertion> -> bool, ghost t: Tree)
      returns (mem: seq<Entry>, last: nat, ghost i: nat, ghost m: nat)
      requires Valid() && (t == tree || t == synced) && logNumber == t.logNumber
      requires cut <= |log.dest| && (immLog != null ==> immCut <= |immLog.dest|)
      ensures logs.Ok() && m == Whole(crc, 0, R.Records(logs.mem.start, logs.mem.batches), cut) <= |logs.mem.batches|
      ensures t.Needs(logs) ==>
                i == Whole(crc, 0, R.Records(logs.imm.value.start, logs.imm.value.batches), immCut) <= |logs.imm.value.batches|
      ensures Sorted(mem) && ToSet(mem) == t.Logged(logs, i, m)
      ensures last == (if t.Needs(logs) then Larger(Larger(0, logs.imm.value, i), logs.mem, m) else Larger(0, logs.mem, m))
      ensures last <= logs.mem.Last() && forall e :: e in t.Logged(logs, i, m) ==> e.key.sequence <= last
    {
      hide ManifestMatches, Recoverable, Inv, LogFile.Wrote, OnFile, Log, LogsMatch, Stored, StandsFor, R.Records, R.Committed;
      ReopenFacts(t);
      mem, last, i := [], 0, 0;
      if immLog != null && immLogNumber >= logNumber {
        mem, last, i := ReplayLog(crc, immLog.dest[..immCut], mem, last, full, logs.imm.value);
      }
      mem, last, m := ReplayLog(crc, log.dest[..cut], mem, last, full, logs.mem);
    }
  }

  /** A crash and what opening the database after it makes of its files. */
  method Restart(crashed: DurableDatabase, manifestCut: nat, immCut: nat, cut: nat, full: seq<R.Insertion> -> bool, fileSize: nat,
                 maxFileSize: nat) returns (again: DurableDatabase, ghost d: Store, ghost t: Tree, ghost i: nat, ghost m: nat)
    requires crashed.Valid() && crashed.Leaves(manifestCut, immCut, cut) && crashed.db.versions.nextFileNumber < TWO64 - 3
    ensures fresh(again) && again.Valid() && again.synced == again.tree && again.clean == crashed.clean
    ensures fresh(again.db) && fresh(again.db.versions) && fresh(again.manifest) && fresh(again.manifest.descriptor) && fresh(again.log)
    ensures crashed.Survives(t, i, m, immCut, cut) && again.db.history == crashed.Surviving(t, i, m, immCut, cut)
    ensures crashed.IsReopened(d, t, i, m, immCut, cut) && again.StartsFrom(d, fileSize)
    ensures manifestCut == |crashed.manifest.Contents()| ==> t == crashed.tree
    // No file that replaying has read is written over.
    ensures forall l :: l in crashed.Replayed(t) ==> l < d.nextFile < again.logFileNumber
    ensures cut == |crashed.log.dest| && (crashed.immLog != null ==> immCut == |crashed.immLog.dest|) ==>
              again.db.history == crashed.db.history
  {
    hide Inv, Recoverable, Stored, StandsFor, DurableDatabase.LogsMatch, VersionLog.Valid, Remembers,
         DurableDatabase.Survives, DurableDatabase.Leaves, Numbered, AllOnDisk, DurableDatabase.ManifestMatches, OnFile;
    var store;
    store, t, i, m := crashed.Reopen(manifestCut, immCut, cut, full);
    d := store;
    var tables := map n | n in crashed.tables && n < store.nextFile :: crashed.tables[n];
    StillThere(crashed, store, t, i, m, immCut, cut, tables);
    again := new DurableDatabase.Recovered(crashed.crc, crashed.manifest.comparator, crashed.manifest.describe, maxFileSize, store, tables,
                                            fileSize, crashed.Surviving(t, i, m, immCut, cut), crashed.clean);
  }

  lemma StillThere(crashed: DurableDatabase, d: Store, t: Tree, i: nat, m: nat, immCut: nat, cut: nat, tables: map<nat, FileMeta>)
    requires crashed.Valid() && crashed.Survives(t, i, m, immCut, cut) && Inv(d) && d.version == t.version
    requires tables == map n | n in crashed.tables && n < d.nextFile :: crashed.tables[n]
    ensures Numbered(tables, d.nextFile) && AllOnDisk(d.version, tables)
    ensures |crashed.manifest.comparator| < TWO32 && Describes(crashed.manifest.describe) && crashed.logs.Ok()
  {
    hide Recoverable, DurableDatabase.LogsMatch, Stored, StandsFor, IsManifest, LogWriters.Writer.Valid;
    StoredFacts(crashed.db.State(), crashed.tree, crashed.logs);
    forall l, f | HasFile(d.version, l, f) ensures OnDisk(f, tables) {
      assert OnDisk(f, crashed.tables);
    }
  }

  lemma StoredFacts(d: Store, t: Tree, logs: Logs)
    requires Stored(d, t, logs)
    ensures logs.Ok() && logs.mem.Last() == d.lastSequence && t.version == d.version && t.nextFile <= d.nextFile
  {
  }

  lemma MoreIsCovered(d: Store, t: Tree, synced: Tree, logs: Logs, clean: bool, history: set<Entry>, b: R.Batch)
    requires Stored(d, t, logs) && StandsFor(t, synced, logs, clean, history)
    requires R.Committed(logs.mem.Last(), [b]) && logs.mem.Last() + |b.ops| < MAX_SEQUENCE
    ensures MoreLogged(logs, b).Ok()
    ensures StandsFor(t, synced, MoreLogged(logs, b), clean, Stores.Record(history, d, Step.Write(R.UpdatesOf(b.ops))))
  {
    hide Recoverable, R.Committed, Tree.Logged, LogFile.Ok, LogFile.Wrote, ToSet;
    WriteKeeps(t, logs, clean, b);
    WriteKeeps(synced, logs, clean, b);
  }

  lemma MoreIsStored(d: Store, t: Tree, logs: Logs, b: R.Batch, d': Store)
    requires Stored(d, t, logs) && R.Committed(logs.mem.Last(), [b]) && logs.mem.Last() + |b.ops| < MAX_SEQUENCE
    requires WriteStep(d, R.UpdatesOf(b.ops), d')
    ensures Stored(d', t, MoreLogged(logs, b))
  {
    hide R.Committed, LogFile.Ok, LogFile.Wrote;
    MoreInMem(logs, b);
  }
}
