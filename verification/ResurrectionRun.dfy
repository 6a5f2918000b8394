/** The run in which a deleted key comes back, made by the database object itself. */
module ResurrectionRun {
  import opened DbFormat
  import opened Reads
  import opened Files
  import opened Versions
  import opened Compactions
  import opened CompactionWork
  import opened Layering
  import opened VersionSets
  import opened MergeInput
  import opened Stores
  import opened StoreSteps
  import opened Resurrection
  import opened Databases

  lemma Reaches(i: nat, b: Store)
    requires i < 13 && WellFormed(State(i).version) && Next(State(i), StepOf(i), b)
    ensures b == State(i + 1)
  {
    hide Next, WellFormed, State;
    StepHolds(i);
    StepIsDeterministic(State(i), StepOf(i), b, State(i + 1));
  }

  /** Any request that makes the database compact level 1, where `file` is alone. */
  ghost predicate AsksForLevelOne(request: Request, file: FileMeta) {
    || request == Automatic(SizeCompaction(1))
    || request == Automatic(SeekCompaction(1, file))
    || request == Manual(1, None, None)
  }

  /** The outputs of either compaction are cut right behind the entry that fills a table. */
  lemma TablesAreRight(i: nat)
    requires i < 13 && StepOf(i).Compact?
    ensures ClosedAtLimit(StepOf(i).outputs, TableSize, TableSize, MAX_FILE_SIZE)
    ensures FullButLast(StepOf(i).outputs, TableSize, MAX_FILE_SIZE)
  {
    assert [A2, K3][..1] == [A2] && K3 in [A2, K3] && K1 in [K1];
    assert TableSize([A2]) == SMALL && TableSize([A2, K3]) == BIG && TableSize([K1]) == BIG && TableSize([A4]) == SMALL;
  }

  lemma OutputsAreForced(i: nat, outputs: seq<FileMeta>, b: Store)
    requires i < 13 && StepOf(i).Compact? && WellFormed(State(i).version)
    requires Next(State(i), StepOf(i).(outputs := outputs), b)
    requires ClosedAtLimit(outputs, TableSize, TableSize, MAX_FILE_SIZE) && FullButLast(outputs, TableSize, MAX_FILE_SIZE)
    ensures outputs == StepOf(i).outputs
  {
    var right := StepOf(i).outputs;
    StepHolds(i);
    TablesAreRight(i);
    hide State, StepOf, WellFormed, Selected, KeptEntries, Installed, ClosedAtLimit, FullButLast, Sorted, ValidFiles, Disjoint,
         Entries, Concat, NumberedFrom;
    ConcatIsSorted(outputs);
    ConcatIsSorted(right);
    SortedIsUnique(Concat(outputs), Concat(right));
    FewStopsCutBySize(outputs, [], [], TableSize, MAX_FILE_SIZE);
    FewStopsCutBySize(right, [], [], TableSize, MAX_FILE_SIZE);
    CutsAreUnique(outputs, right, [], [], TableSize, TableSize, MAX_FILE_SIZE, State(i).nextFile);
  }

  /** Whatever asks for it, the round is the step of the run. */
  lemma RoundIsForced(i: nat, request: Request, pointers: seq<Option<InternalKey>>, step: Option<Step>, b: Store)
    requires i < 13 && StepOf(i).Compact? && AsksForLevelOne(request, State(i).version.files[1][0])
    requires LegalRequest(request, State(i).version) && |pointers| == NUM_LEVELS && WellFormed(State(i).version)
    requires IsRound(request, State(i).version, pointers, MAX_FILE_SIZE, TableSize, TableSize, step)
    requires step.Some? ==> Next(State(i), step.value, b)
    ensures step == Some(StepOf(i))
  {
    hide WellFormed, Selected, KeptEntries, Installed, ClosedAtLimit, FullButLast, ValidFiles, Disjoint, Entries;
    var v := State(i).version;
    assert v.files[1][0] in v.files[1];
    assert step.Some?;
    match step.value
    case TrivialMove(level, file) =>
      CompactionsAreForced(i, [file], []);
    case Compact(level, inputs0, inputs1, outputs) =>
      CompactionsAreForced(i, inputs0, inputs1);
      OutputsAreForced(i, outputs, b);
  }

  ghost predicate StandsAt(db: Database, i: nat)
    reads db, db.versions
  {
    db.Valid() && db.State() == State(i) && db.versions.maxFileSize == MAX_FILE_SIZE
  }

  method Write(db: Database, batch: seq<Update>, ghost i: nat)
    requires StandsAt(db, i) && i < 13 && StepOf(i) == Step.Write(batch)
    modifies db, db.versions
    ensures StandsAt(db, i + 1)
  {
    hide Next, State, Inv;
    StepHolds(i);
    WriteFits(i);
    db.Write(batch);
    Reaches(i, db.State());
  }

  lemma WriteFits(i: nat)
    requires i < 13 && StepOf(i).Write?
    ensures State(i).lastSequence + |StepOf(i).batch| < MAX_SEQUENCE
  {
  }

  method SwitchMemTable(db: Database, ghost i: nat)
    requires StandsAt(db, i) && i < 13 && StepOf(i) == Step.SwitchMemTable
    modifies db
    ensures StandsAt(db, i + 1)
  {
    hide State, Inv;
    StepHolds(i);
    db.SwitchMemTable();
    Reaches(i, db.State());
  }

  /** The round after a switch flushes the memtable, to the level of the run. */
  method Flush(db: Database, fileSize: nat, ghost i: nat)
    requires StandsAt(db, i) && i < 13 && StepOf(i).Flush? && StepOf(i).fileSize == fileSize
    modifies db, db.versions
    ensures StandsAt(db, i + 1)
  {
    hide State, Inv, Next, IsRound, IsMemTableLevel;
    StepHolds(i);
    FlushedIsNotEmpty(i);
    var step := db.BackgroundCompaction(Automatic(NoCompaction), fileSize, TableSize, TableSize);
    FlushLevelsAreForced(i, step.value.level);
    assert step.value == StepOf(i);
    Reaches(i, db.State());
  }

  lemma FlushedIsNotEmpty(i: nat)
    requires i < 13 && StepOf(i).Flush?
    ensures State(i).imm.Some? && State(i).imm.value != []
  {
  }

  /** The round with nothing to flush compacts level 1. */
  method Compact(db: Database, request: Request, ghost i: nat)
    requires StandsAt(db, i) && i < 13 && StepOf(i).Compact? && AsksForLevelOne(request, State(i).version.files[1][0])
    modifies db, db.versions
    ensures StandsAt(db, i + 1)
  {
    hide Inv, Next, IsRound;
    StepHolds(i);
    var step := db.BackgroundCompaction(request, 0, TableSize, TableSize);
    RoundIsForced(i, request, old(db.versions.compactPointer), step, db.State());
    Reaches(i, db.State());
  }

  method Open() returns (db: Database)
    ensures fresh(db) && fresh(db.versions) && StandsAt(db, 0)
  {
    db := new Database(MAX_FILE_SIZE, 0);
    assert db.State().version.files == State(0).version.files;
  }

  method Snapshot(db: Database, ghost i: nat)
    requires StandsAt(db, i) && i < 13 && StepOf(i) == NewSnapshot
    modifies db
    ensures StandsAt(db, i + 1)
  {
    hide State, Inv;
    StepHolds(i);
    var s := db.GetSnapshot();
    Reaches(i, db.State());
  }

  method ReleaseSnapshot(db: Database, ghost i: nat)
    requires StandsAt(db, i) && i < 13 && StepOf(i) == Step.ReleaseSnapshot(0)
    modifies db
    ensures StandsAt(db, i + 1)
  {
    hide State, Inv;
    StepHolds(i);
    db.ReleaseSnapshot(0);
    Reaches(i, db.State());
  }

  method Get(db: Database, ghost i: nat) returns (r: Option<Value>)
    requires StandsAt(db, i) && (i == 12 || i == 13)
    ensures r == if i == 12 then None else Some("old")
  {
    hide State, Inv, Read;
    ReadsOfTheRun();
    r := db.Get(K, db.versions.lastSequence);
  }

  lemma CallsOfTheRun()
    ensures StepOf(0) == Step.Write([Update(Put, K, "old")]) && StepOf(4) == Step.Write([Update(Put, A, "a"), Update(Deletion, K, "")])
    ensures StepOf(9) == Step.Write([Update(Put, A, "b")])
    ensures StepOf(1) == NewSnapshot && StepOf(8) == Step.ReleaseSnapshot(0)
    ensures StepOf(2) == StepOf(5) == StepOf(10) == Step.SwitchMemTable
    ensures StepOf(3) == Step.Flush(2, BIG) && StepOf(6) == Step.Flush(1, BIG) && StepOf(11) == Step.Flush(1, SMALL)
    ensures StepOf(7).Compact? && State(7).version.files[1] == [D] && StepOf(12).Compact? && State(12).version.files[1] == [G]
  {
  }

  /** Nothing but calls of the database, and the value of a deleted key is read: `first` and `second` ask for the two
      compactions, automatic or manual. */
  method DeletedKeyIsRead(first: Request, second: Request) returns (deleted: Option<Value>, back: Option<Value>)
    requires AsksForLevelOne(first, D) && AsksForLevelOne(second, G)
    ensures deleted == None && back == Some("old")
  {
    hide StandsAt, StepOf, State;
    CallsOfTheRun();
    var db := Open();
    Write(db, [Update(Put, K, "old")], 0);
    Snapshot(db, 1);
    SwitchMemTable(db, 2);
    Flush(db, BIG, 3);
    Write(db, [Update(Put, A, "a"), Update(Deletion, K, "")], 4);
    SwitchMemTable(db, 5);
    Flush(db, BIG, 6);
    Compact(db, first, 7);
    ReleaseSnapshot(db, 8);
    Write(db, [Update(Put, A, "b")], 9);
    SwitchMemTable(db, 10);
    Flush(db, SMALL, 11);
    deleted := Get(db, 12);
    Compact(db, second, 12);
    back := Get(db, 13);
  }
}
