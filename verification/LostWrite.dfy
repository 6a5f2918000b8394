/** A run in which a write is lost to reads: its table is flushed into a gap of a running manual compaction. */
module LostWrites {
  import opened DbFormat
  import opened Reads
  import opened Files
  import opened Versions
  import opened InputSelection
  import opened Compactions
  import opened CompactionWork
  import opened Layering
  import opened InputGaps
  import opened VersionSets
  import opened Stores
  import opened StoreRuns
  import opened MidCompaction

  const A: UserKey := 0.0
  const B: UserKey := 1.0
  const C: UserKey := 2.0

  const MAX_FILE_SIZE := 2 * 1024 * 1024
  const SIZE := 200

  /** What is written in the five rounds of the run, each a write, a switch and a flush: A, C, A, C, and B in the middle. */
  function Key(r: nat): UserKey {
    if r == 4 then B else if r % 2 == 0 then A else C
  }

  function Written(r: nat): Entry
    requires r < 5
  {
    Entry(InternalKey(Key(r), r + 1, Put), "value")
  }

  /** Its table: the compaction's output is given number 4 before the last flush. */
  function Table(r: nat): FileMeta
    requires r < 5
  {
    FileMeta(if r == 4 then 5 else r, SIZE, Written(r).key, Written(r).key, [Written(r)])
  }

  const Z := FileMeta(4, SIZE, Written(2).key, Written(3).key, [Written(2), Written(3)])

  function Tree(level1: seq<FileMeta>, level2: seq<FileMeta>): Version {
    Version([[], level1, level2, [], [], [], []])
  }

  /** The tables after `r` rounds. */
  function Tables(r: nat): Version {
    match r
    case 0 => Tree([], [])
    case 1 => Tree([], [Table(0)])
    case 2 => Tree([], [Table(0), Table(1)])
    case 3 => Tree([Table(2)], [Table(0), Table(1)])
    case 4 => Tree([Table(2), Table(3)], [Table(0), Table(1)])
    case _ => Tree([Table(2), Table(3)], [Table(0), Table(4), Table(1)])
  }

  function Level(r: nat): nat {
    if r == 2 || r == 3 then 1 else 2
  }

  /** The store before round `r`, after its write, and after its switch. */
  function Before(r: nat): Store
    requires r <= 5
  {
    Store([], None, Tables(r), [], r, if r >= 4 then r + 1 else r)
  }

  function AfterWrite(r: nat): Store
    requires r < 5
  {
    Before(r).(mem := [Written(r)], lastSequence := r + 1)
  }

  function AfterSwitch(r: nat): Store
    requires r < 5
  {
    AfterWrite(r).(mem := [], imm := Some([Written(r)]))
  }

  function WriteOf(r: nat): Step {
    Write([Update(Put, Key(r), "value")])
  }

  lemma TablesAreWellFormed(r: nat)
    ensures WellFormed(Tables(r))
  {
    hide Less, Written, ValidFile, Disjoint, SortedBySmallest;
    KeysInOrder();
    Fine([]);
    Fine([Table(0)]);
    Fine([Table(2)]);
    Fine([Table(0), Table(1)]);
    Fine([Table(2), Table(3)]);
    Fine([Table(0), Table(4), Table(1)]);
  }

  lemma KeysInOrder()
    ensures forall r, q :: 0 <= r < 5 && 0 <= q < 5 && Key(r) < Key(q) ==> Less(Table(r).largest, Table(q).smallest)
    ensures forall r :: 0 <= r < 5 ==> ValidFile(Table(r))
  {
  }

  lemma Fine(files: seq<FileMeta>)
    requires |files| <= 3 && (forall f :: f in files ==> ValidFile(f))
    requires forall i :: 0 <= i < |files| - 1 ==> Less(files[i].largest, files[i + 1].smallest)
    ensures ValidFiles(files) && Disjoint(files) && SortedBySmallest(files)
  {
    forall i, j | 0 <= i < j < |files| ensures Precedes(files, i, j) && Ascend(files, i, j) {
      FileEndsInOrder(files[i]);
      FileEndsInOrder(files[j]);
      FileEndsInOrder(files[i + 1]);
    }
  }

  lemma RoundIsLegal(r: nat)
    requires r < 5
    ensures WellFormed(Tables(r)) && Next(Before(r), WriteOf(r), AfterWrite(r))
    ensures Next(AfterWrite(r), SwitchMemTable, AfterSwitch(r))
    ensures Next(AfterSwitch(r), Flush(Level(r), SIZE), Before(r + 1).(nextFile := Table(r).number + 1))
  {
    TablesAreWellFormed(r);
    TablesAreWellFormed(r + 1);
    hide WellFormed;
    assert NewEntries([Update(Put, Key(r), "value")], r + 1) == [Written(r)];
    FlushAddsTable(r);
  }

  lemma FlushAddsTable(r: nat)
    requires r < 5 && WellFormed(Tables(r)) && WellFormed(Tables(r + 1))
    ensures AddedAt(Tables(r), Tables(r + 1), Level(r), Table(r))
    ensures ClearDownTo(Tables(r), Level(r), Key(r), Key(r))
  {
    var v, w, level := Tables(r), Tables(r + 1), Level(r);
    OthersStay(r);
    OneJoins(r);
    NoneMeets(r);
    forall l, g | 0 <= l < NUM_LEVELS ensures g in w.files[l] <==> g in v.files[l] || (l == level && g == Table(r)) {
    }
  }

  lemma OthersStay(r: nat)
    requires r < 5
    ensures forall l :: 0 <= l < NUM_LEVELS && l != Level(r) ==> Tables(r + 1).files[l] == Tables(r).files[l]
  {
    hide Written, Table;
  }

  lemma OneJoins(r: nat)
    requires r < 5
    ensures forall g :: g in Tables(r + 1).files[Level(r)] <==> g in Tables(r).files[Level(r)] || g == Table(r)
  {
    hide Written, Table;
    var files, more, i := Tables(r).files[Level(r)], Tables(r + 1).files[Level(r)], if r % 2 == 0 && r < 4 then 0 else 1;
    assert more == files[..i] + [Table(r)] + files[i..];
    Joins(files, Table(r), i);
  }

  lemma Joins(files: seq<FileMeta>, f: FileMeta, i: nat)
    requires i <= |files|
    ensures forall g :: g in files[..i] + [f] + files[i..] <==> g in files || g == f
  {
    assert files == files[..i] + files[i..];
  }

  /** No table of levels up to the flush's meets its key. */
  lemma NoneMeets(r: nat)
    requires r < 5
    ensures ClearDownTo(Tables(r), Level(r), Key(r), Key(r))
  {
    hide Written;
    Two(Table(0), Table(1));
    Two(Table(2), Table(3));
    KeysApart(r);
  }

  lemma Two(f: FileMeta, g: FileMeta)
    ensures forall x :: x in [f, g] <==> x == f || x == g
  {
    assert [f, g] == [f] + [g];
  }

  lemma KeysApart(r: nat)
    requires r < 5
    ensures forall q :: 0 <= q < r && Key(q) != Key(r) ==> !Overlaps(Table(q), Some(Key(r)), Some(Key(r)))
  {
  }

  lemma NothingTooBig(r: nat, k: UserKey)
    requires r < 5
    ensures forall l :: 0 <= l < NUM_LEVELS - 1 ==> !GrandparentsTooBig(Tables(r), l, k, k, MAX_FILE_SIZE)
  {
    var v := Tables(r);
    forall l | 0 <= l < NUM_LEVELS - 1 && l + 2 < NUM_LEVELS ensures !GrandparentsTooBig(v, l, k, k, MAX_FILE_SIZE) {
      OverlappingIsSmaller(v.files[l + 2], Some(k), Some(k));
      FewBytes(r, l + 2);
    }
  }

  lemma FewBytes(r: nat, l: nat)
    requires r < 5 && l < NUM_LEVELS
    ensures TotalFileSize(Tables(r).files[l]) <= 2 * SIZE
  {
    var files := Tables(r).files[l];
    if |files| == 2 {
      assert files == [files[0]] + [files[1]];
      TotalFileSizeConcat([files[0]], [files[1]]);
    }
  }

  /** Every flush goes where the placement rule says, and nowhere else. */
  lemma FlushLevelsAreForced(r: nat, level: nat)
    requires r < 5
    ensures IsMemTableLevel(Tables(r), Key(r), Key(r), MAX_FILE_SIZE, level) <==> level == Level(r)
  {
    hide GrandparentsTooBig;
    NothingTooBig(r, Key(r));
    NoneMeets(r);
    if r == 2 || r == 3 {
      assert Table(r - 2) in Tables(r).files[2] && Overlaps(Table(r - 2), Some(Key(r)), Some(Key(r)));
    }
    if IsMemTableLevel(Tables(r), Key(r), Key(r), MAX_FILE_SIZE, level) {
      MemTableLevelIsUnique(Tables(r), Key(r), Key(r), MAX_FILE_SIZE, level, Level(r));
    }
  }

  // ----- The run up to the compaction -----

  /** Four rounds of three steps. */
  function State(i: nat): Store
    requires i <= 12
  {
    if i == 12 then Start() else
      match i % 3
      case 0 => Before(i / 3)
      case 1 => AfterWrite(i / 3)
      case _ => AfterSwitch(i / 3)
  }

  function StepOf(i: nat): Step
    requires i < 12
  {
    match i % 3
    case 0 => WriteOf(i / 3)
    case 1 => SwitchMemTable
    case _ => Flush(Level(i / 3), SIZE)
  }

  /** Here the compaction is chosen; then number 4 is given to its output. */
  function Start(): Store {
    Before(4).(nextFile := 4)
  }

  ghost function Run(): seq<Store> {
    seq(13, i requires 0 <= i < 13 => State(i))
  }

  ghost function Steps(): seq<Step> {
    seq(12, i requires 0 <= i < 12 => StepOf(i))
  }

  lemma StartIsReachable()
    ensures |Run()| == 13 && |Steps()| == 12 && IsExecution(Run(), Steps()) && Run()[12] == Start()
  {
    hide Next, WellFormed, Tables, AfterWrite, AfterSwitch, StepOf;
    assert Run()[0] == Before(0);
    StartsEmpty();
    forall i | 0 <= i < 12 ensures StepAt(Run(), Steps(), i) {
      StepIsLegal(i);
    }
  }

  lemma StartsEmpty()
    ensures Init(Before(0))
  {
  }

  lemma StepIsLegal(i: nat)
    requires i < 12
    ensures WellFormed(State(i).version) && Next(State(i), StepOf(i), State(i + 1))
  {
    hide Next, WellFormed, Tables;
    var r := i / 3;
    RoundIsLegal(r);
    assert i == 3 * r + i % 3;
    assert Table(3).number == 3;
  }

  // ----- While it runs -----

  const INPUTS0 := [Table(2), Table(3)]
  const INPUTS1 := [Table(0), Table(1)]

  function End(): Store {
    Before(5)
  }

  function Finished(): Store {
    End().(version := Tree([], [Z, Table(4)]))
  }

  /** The store goes on by one write of B, a switch and a flush. */
  lemma GoesOn()
    ensures Grown(Start(), End())
  {
    hide Inv, Next, WellFormed, Grown, IsExecution, Run, Steps;
    StartIsReachable();
    RunKeepsInv(Run(), Steps(), 12);
    GrownStarts(Start());
    NumbersGrow(Start(), Start(), 5);
    RoundIsLegal(4);
    StepGrows(Start(), Before(4), WriteOf(4), AfterWrite(4));
    StepGrows(Start(), AfterWrite(4), SwitchMemTable, AfterSwitch(4));
    StepGrows(Start(), AfterSwitch(4), Flush(Level(4), SIZE), End());
  }

  // ----- The compaction -----

  lemma ParentsAreBoth()
    ensures Overlapping(INPUTS1, Some(A), Some(C)) == INPUTS1
    ensures LowUser(INPUTS0) == A && HighUser(INPUTS0) == C
  {
    assert INPUTS1[..1] == [Table(0)] && [Table(0)][..0] == [];
    assert Overlapping([Table(0)], Some(A), Some(C)) == [Table(0)];
    assert INPUTS0[1..] == [Table(3)];
  }

  lemma InputsAreSelected()
    ensures Selected(Start().version, 1, INPUTS0, INPUTS1)
  {
    TablesAreWellFormed(4);
    hide WellFormed;
    ParentsAreBoth();
    assert INPUTS0 == INPUTS0[0..2] && InputSelection.IsRun(INPUTS0, INPUTS0, 0, 2) && !Straddles(INPUTS0, 2);
  }

  /** A manual compaction of the whole level has no choice. */
  lemma InputsAreForced(picked: seq<FileMeta>, inputs0: seq<FileMeta>, inputs1: seq<FileMeta>)
    requires Selected(Start().version, 1, inputs0, inputs1)
    requires TakesRange(1, Start().version.files[1], None, None, MAX_FILE_SIZE, picked) && AllIn(picked, inputs0)
    ensures inputs0 == INPUTS0 && inputs1 == INPUTS1
  {
    hide WellFormed, TakesRange, ParentsOf, Written;
    BothArePicked(picked);
    assert Table(2) in picked && Table(3) in picked;
    OnlyBothHoldBoth(inputs0);
    ParentsAreForced(inputs1);
  }

  lemma BothArePicked(picked: seq<FileMeta>)
    requires TakesRange(1, INPUTS0, None, None, MAX_FILE_SIZE, picked)
    ensures Table(2) in picked && Table(3) in picked
  {
    hide TotalFileSize, FoundInRange, Written;
    var found :| FoundInRange(1, INPUTS0, None, None, found) && TakenFrom(1, found, MAX_FILE_SIZE, picked);
    AllFound(found);
    FirstIsSmall();
    assert |picked| == 2;
    assert picked[0] == Table(2) && picked[1] == Table(3);
  }

  lemma OnlyBothHoldBoth(inputs0: seq<FileMeta>)
    requires CleanlyPicked(INPUTS0, 1, inputs0) && Table(2) in inputs0 && Table(3) in inputs0
    ensures inputs0 == INPUTS0
  {
    hide Written;
    var i: nat, j: nat :| InputSelection.IsRun(INPUTS0, inputs0, i, j);
    assert Table(2).number != Table(3).number;
    assert INPUTS0[0..2] == INPUTS0;
    assert i == 0 && j == 2;
  }

  lemma ParentsAreForced(inputs1: seq<FileMeta>)
    requires ParentsOf(INPUTS1, INPUTS0, inputs1)
    ensures inputs1 == INPUTS1
  {
    ParentsAreBoth();
  }

  lemma AllFound(found: seq<FileMeta>)
    requires FoundInRange(1, INPUTS0, None, None, found)
    ensures found == INPUTS0
  {
    assert INPUTS0[..1] == [Table(2)] && [Table(2)][..0] == [];
    assert Overlapping([Table(2)], None, None) == [Table(2)];
  }

  lemma FirstIsSmall()
    ensures TotalFileSize(INPUTS0[..1]) < MAX_FILE_SIZE
  {
    assert INPUTS0[..1] == [Table(2)];
  }

  /** Nothing of the inputs covers B. */
  lemma InputsLeaveAGap()
    ensures !GapFree(INPUTS0 + INPUTS1)
  {
    var all := INPUTS0 + INPUTS1;
    UserHull(all);
    assert all[0] in all && all[1] in all;
    assert !CoveredBy(all, B);
  }

  lemma OutputIsKept()
    requires Selected(Start().version, 1, INPUTS0, INPUTS1)
    ensures Entries([Z]) == KeptEntries(Start(), 1, INPUTS0, INPUTS1)
  {
    hide Selected, Obsolete;
    EntriesOfTwo(Table(2), Table(3));
    EntriesOfTwo(Table(0), Table(1));
    EntriesOfTwo(Z, Z);
    assert [Z][0] == Z;
    NewerSurvive();
  }

  lemma EntriesOfTwo(f: FileMeta, g: FileMeta)
    ensures Entries([f, g]) == ToSet(f.table) + ToSet(g.table) && Entries([f]) == ToSet(f.table)
  {
    assert [f, g][0] == f && [f, g][1] == g && [f][0] == f;
  }

  lemma NewerSurvive()
    ensures var merged := ToSet(Table(2).table) + ToSet(Table(3).table) + (ToSet(Table(0).table) + ToSet(Table(1).table));
            forall e :: e in merged ==> (Obsolete(merged, e, 4, Tables(4), 1) <==> e != Written(2) && e != Written(3))
  {
    var merged := ToSet(Table(2).table) + ToSet(Table(3).table) + (ToSet(Table(0).table) + ToSet(Table(1).table));
    assert Written(2) in merged && Written(3) in merged;
  }

  lemma TreesInstalled()
    ensures Installed(End().version, Finished().version, 1, INPUTS0, INPUTS1, [Z])
  {
    assert Ascend([Z, Table(4)], 0, 1);
    assert Finished().version.files[2] == [Z] + [Table(4)];
    Two(Table(0), Table(1));
    Two(Table(2), Table(3));
    assert End().version.files[2] == [Table(0)] + [Table(4)] + [Table(1)];
  }

  lemma OutputIsFine()
    ensures ValidFiles([Z]) && Disjoint([Z]) && NumberedApart([Z], End())
  {
    assert End().version.files[2] == [Table(0)] + [Table(4)] + [Table(1)];
    Two(Table(2), Table(3));
  }

  lemma OutputSpansFlush()
    ensures !NothingInTheWay(Start(), 1, [Z], End())
  {
    Two(Table(0), Table(1));
    assert Z in [Z] && HasFile(End().version, 2, Table(4)) && !HasFile(Start().version, 2, Table(4)) && !Apart(Table(4), Z);
  }

  /** The compaction ends, and its one table spans the one flushed meanwhile: the store is no longer legal. */
  lemma CompactionEnds()
    ensures Grown(Start(), End()) && FinishStep(Start(), 1, INPUTS0, INPUTS1, [Z], End(), Finished())
    ensures !Inv(Finished())
  {
    GoesOn();
    InputsAreSelected();
    OutputIsKept();
    TreesInstalled();
    OutputIsFine();
    OutputSpansFlush();
    hide Inv, Selected, Grown, NothingInTheWay, Installed, KeptEntries, Entries, NumberedApart, Tables, Table, Disjoint, ValidFiles;
    FinishIsLegal(Start(), End(), 1, INPUTS0, INPUTS1, [Z], Finished());
  }

  lemma WriteIsThere()
    ensures Finished().MemTables() == {} && Written(4) in Finished().All() && Finished().lastSequence == 5
    ensures Read(Finished().All(), B, 5) == Some("value")
    ensures forall l :: 0 <= l < NUM_LEVELS && l != 2 ==> Finished().version.files[l] == []
  {
    var files, all := Finished().version.files[2], Finished().All();
    assert files == [Z] + [Table(4)] && Table(4) in files;
    assert Written(4) in Table(4).table && Written(4) in Entries(files);
    forall e | e in all ensures e == Written(2) || e == Written(3) || e == Written(4) {
      var l: nat :| l < NUM_LEVELS && e in Entries(Finished().version.files[l]);
      var f :| f in Finished().version.files[l] && e in f.table;
      assert f == Z || f == Table(4);
    }
    assert Newest(all, B, 5, Written(4));
    ReadIsNewest(all, B, 5, Written(4));
  }

  /** Only level 2 has tables, and the search of level 2 looks into the wrong one: B was written and reads as missing. */
  method WriteIsLost() returns (r: Outcome)
    ensures r == Missing
    ensures Finished().MemTables() == {} && forall l :: 0 <= l < NUM_LEVELS && l != 2 ==> Finished().version.files[l] == []
    ensures Read(Finished().All(), B, 5) == Some("value")
  {
    WriteIsThere();
    OnlyFirstIsFound();
    r := GetSortedLevel(Finished().version.files[2], B, 5);
  }

  lemma OnlyFirstIsFound()
    ensures ValidFiles(Finished().version.files[2])
    ensures forall r :: SearchesOne(Finished().version.files[2], B, 5, r) ==> r == Missing
  {
    var files := Finished().version.files[2];
    assert files == [Z] + [Table(4)];
    forall r, n: nat | IsFound(files, LookupKey(B, 5), n) && FileAnswers(files, n, B, 5, r) ensures r == Missing {
      assert n == 0;
      assert forall e :: e in ToSet(Z.table) ==> e.key.user != B;
    }
  }
}
