/** A run in which a deleted key comes back: the clean cut is made at the upper input level only. */
module Resurrection {
  import opened DbFormat
  import opened Reads
  import opened Files
  import opened Versions
  import opened InputSelection
  import opened Compactions
  import opened CompactionWork
  import opened CompactionSafety
  import opened Layering
  import opened Stores
  import opened StoreRuns

  const A: UserKey := 0.0
  const K: UserKey := 1.0

  const K1 := Entry(InternalKey(K, 1, Put), "old")
  const A2 := Entry(InternalKey(A, 2, Put), "a")
  const K3 := Entry(InternalKey(K, 3, Deletion), "")
  const A4 := Entry(InternalKey(A, 4, Put), "b")

  /** Options::max_file_size, and the sizes of a table with K, a key of that many bytes, and of one without it. */
  const MAX_FILE_SIZE := 2 * 1024 * 1024
  const BIG := MAX_FILE_SIZE + 200
  const SMALL := 200

  function TableSize(table: seq<Entry>): nat {
    if exists e :: e in table && e.key.user == K then BIG else SMALL
  }

  /** The first two flushed tables, the two halves their merge is cut into, the third flushed table, the last merge. */
  const F := FileMeta(0, BIG, K1.key, K1.key, [K1])
  const D := FileMeta(1, BIG, A2.key, K3.key, [A2, K3])
  const X := FileMeta(2, BIG, A2.key, K3.key, [A2, K3])
  const Y := FileMeta(3, BIG, K1.key, K1.key, [K1])
  const G := FileMeta(4, SMALL, A4.key, A4.key, [A4])
  const Z := FileMeta(5, SMALL, A4.key, A4.key, [A4])

  function Tree(level1: seq<FileMeta>, level2: seq<FileMeta>): Version {
    Version([[], level1, level2, [], [], [], []])
  }

  function State(i: nat): Store {
    match i
    case 0 => Store([], None, Tree([], []), [], 0, 0)
    case 1 => Store([K1], None, Tree([], []), [], 1, 0)
    case 2 => Store([K1], None, Tree([], []), [1], 1, 0)
    case 3 => Store([], Some([K1]), Tree([], []), [1], 1, 0)
    case 4 => Store([], None, Tree([], [F]), [1], 1, 1)
    case 5 => Store([A2, K3], None, Tree([], [F]), [1], 3, 1)
    case 6 => Store([], Some([A2, K3]), Tree([], [F]), [1], 3, 1)
    case 7 => Store([], None, Tree([D], [F]), [1], 3, 2)
    case 8 => Store([], None, Tree([], [X, Y]), [1], 3, 4)
    case 9 => Store([], None, Tree([], [X, Y]), [], 3, 4)
    case 10 => Store([A4], None, Tree([], [X, Y]), [], 4, 4)
    case 11 => Store([], Some([A4]), Tree([], [X, Y]), [], 4, 4)
    case 12 => Store([], None, Tree([G], [X, Y]), [], 4, 5)
    case _ => Store([], None, Tree([], [Z, Y]), [], 4, 6)
  }

  function StepOf(i: nat): Step {
    match i
    case 0 => Write([Update(Put, K, "old")])
    case 1 => NewSnapshot
    case 2 => SwitchMemTable
    case 3 => Flush(2, BIG)
    case 4 => Write([Update(Put, A, "a"), Update(Deletion, K, "")])
    case 5 => SwitchMemTable
    case 6 => Flush(1, BIG)
    case 7 => Compact(1, [D], [F], [X, Y])
    case 8 => ReleaseSnapshot(0)
    case 9 => Write([Update(Put, A, "b")])
    case 10 => SwitchMemTable
    case 11 => Flush(1, SMALL)
    case _ => Compact(1, [G], [X], [Z])
  }

  lemma FilesAreValid()
    ensures ValidFile(F) && ValidFile(D) && ValidFile(X) && ValidFile(Y) && ValidFile(G) && ValidFile(Z)
    ensures Disjoint([X, Y]) && Disjoint([Z, Y])
  {
  }

  lemma TreeWellFormed(level1: seq<FileMeta>, level2: seq<FileMeta>)
    requires level1 == [] || level1 == [D] || level1 == [G]
    requires level2 == [] || level2 == [F] || level2 == [X, Y] || level2 == [Z, Y]
    ensures WellFormed(Tree(level1, level2))
  {
    FilesAreValid();
    var v := Tree(level1, level2);
    forall l | 0 <= l < NUM_LEVELS
      ensures ValidFiles(v.files[l]) && Disjoint(v.files[l]) && SortedBySmallest(v.files[l])
    {
    }
  }

  lemma WriteSteps()
    ensures WriteStep(State(0), StepOf(0).batch, State(1))
    ensures WriteStep(State(4), StepOf(4).batch, State(5))
    ensures WriteStep(State(9), StepOf(9).batch, State(10))
  {
    assert NewEntries(StepOf(0).batch, 1) == [K1];
    assert NewEntries(StepOf(4).batch, 2) == [A2, K3];
    assert NewEntries(StepOf(9).batch, 4) == [A4];
  }

  lemma FlushSteps(i: nat)
    requires i == 3 || i == 6 || i == 11
    ensures WellFormed(State(i).version) && Next(State(i), StepOf(i), State(i + 1))
  {
    var v, w, level := State(i).version, State(i + 1).version, StepOf(i).level;
    StatesWellFormed(i);
    StatesWellFormed(i + 1);
    hide WellFormed;
    assert forall l :: 0 <= l <= level ==> v.files[l] == [];
    FlushAdds(v, w, level, w.files[level][0]);
  }

  lemma FlushAdds(v: Version, w: Version, level: nat, f: FileMeta)
    requires WellFormed(v) && WellFormed(w) && level < NUM_LEVELS
    requires v.files[level] == [] && w.files == v.files[level := [f]]
    ensures AddedAt(v, w, level, f)
  {
    forall l, g | 0 <= l < NUM_LEVELS ensures g in w.files[l] <==> g in v.files[l] || (l == level && g == f) {
    }
  }

  lemma NothingDeep(v: Version, k: UserKey)
    requires |v.files| == NUM_LEVELS && forall l :: 3 <= l < NUM_LEVELS ==> v.files[l] == []
    ensures BaseLevelForKey(v, 1, k)
  {
  }

  lemma EntriesOf(f: FileMeta, g: FileMeta)
    ensures Entries([f]) == ToSet(f.table)
    ensures Entries([f, g]) == ToSet(f.table) + ToSet(g.table)
    ensures Entries([]) == {}
  {
    assert ([f])[0] == f && [f, g][0] == f && [f, g][1] == g;
  }

  lemma FirstSelected()
    ensures Selected(State(7).version, 1, [D], [F])
  {
    TreeWellFormed([D], [F]);
    hide WellFormed;
    assert InputSelection.IsRun([D], [D], 0, 1) && !Straddles([D], 1);
    ParentsAreForced();
  }

  lemma FirstKept()
    requires Selected(State(7).version, 1, [D], [F])
    ensures Entries([X, Y]) == KeptEntries(State(7), 1, [D], [F])
  {
    hide Selected, Obsolete;
    EntriesOf(D, D);
    EntriesOf(F, F);
    EntriesOf(X, Y);
    NothingIsShadowed();
  }

  /** A snapshot protects both entries of the key, so the first compaction only merges and cuts.  It cuts right
      behind the deletion, which fills the table when K has about as many bytes as a table may have. */
  lemma FirstCompaction()
    ensures CompactStep(State(7), 1, [D], [F], [X, Y], State(8))
  {
    FirstSelected();
    FirstKept();
    TreeWellFormed([], [X, Y]);
    FilesAreValid();
    hide Selected, KeptEntries, Entries;
    InstalledTrees([D], [F], [D], [F], [X, Y], [], [X, Y]);
  }

  lemma NothingIsShadowed()
    ensures var merged := ToSet(D.table) + ToSet(F.table);
            forall e :: e in merged ==> !Obsolete(merged, e, 1, Tree([D], [F]), 1)
  {
  }

  lemma InstalledTrees(level1: seq<FileMeta>, level2: seq<FileMeta>, inputs0: seq<FileMeta>, inputs1: seq<FileMeta>,
                       outputs: seq<FileMeta>, new1: seq<FileMeta>, new2: seq<FileMeta>)
    requires WellFormed(Tree(new1, new2))
    requires forall f :: f in new1 <==> f in level1 && f !in inputs0
    requires forall f :: f in new2 <==> (f in level2 && f !in inputs1) || f in outputs
    ensures Installed(Tree(level1, level2), Tree(new1, new2), 1, inputs0, inputs1, outputs)
  {
  }

  lemma SecondSelected()
    ensures Selected(State(12).version, 1, [G], [X])
  {
    TreeWellFormed([G], [X, Y]);
    hide WellFormed;
    assert InputSelection.IsRun([G], [G], 0, 1) && !Straddles([G], 1);
    ParentsAreForced();
  }

  lemma OnlyA4Survives()
    ensures var merged := ToSet(G.table) + ToSet(X.table);
            forall e :: e in merged ==> (Obsolete(merged, e, 4, Tree([G], [X, Y]), 1) <==> e != A4)
  {
    NothingDeep(Tree([G], [X, Y]), K);
    var merged := ToSet(G.table) + ToSet(X.table);
    assert A4 in merged && A2 in merged && K3 in merged;
  }

  lemma SecondKept()
    requires Selected(State(12).version, 1, [G], [X])
    ensures Entries([Z]) == KeptEntries(State(12), 1, [G], [X])
  {
    hide Selected, Obsolete;
    EntriesOf(G, G);
    EntriesOf(X, X);
    EntriesOf(Z, Z);
    OnlyA4Survives();
  }

  /** The second compaction takes in the newer half only, and drops the deletion it holds. */
  lemma SecondCompaction()
    ensures CompactStep(State(12), 1, [G], [X], [Z], State(13))
  {
    SecondSelected();
    SecondKept();
    FilesAreValid();
    TreeWellFormed([], [Z, Y]);
    InstalledTrees([G], [X, Y], [G], [X], [Z], [], [Z, Y]);
    hide Selected, Entries, KeptEntries, Installed, WellFormed, ValidFile;
    assert ([Z])[0] == Z;
  }

  lemma StatesWellFormed(i: nat)
    ensures WellFormed(State(i).version)
  {
    TreeWellFormed([], []);
    TreeWellFormed([], [F]);
    TreeWellFormed([D], [F]);
    TreeWellFormed([], [X, Y]);
    TreeWellFormed([G], [X, Y]);
    TreeWellFormed([], [Z, Y]);
    hide WellFormed;
  }

  lemma SmallStep(i: nat)
    requires i == 1 || i == 2 || i == 5 || i == 8 || i == 10
    ensures WellFormed(State(i).version) && Next(State(i), StepOf(i), State(i + 1))
  {
    StatesWellFormed(i);
    hide WellFormed, WriteStep, FlushStep, CompactStep, MoveStep;
    match i
    case 1 => assert [] + [1] == [1];
    case 8 => assert [1][..0] + [1][1..] == [];
    case _ =>
  }

  lemma StepHolds(i: nat)
    requires i < 13
    ensures WellFormed(State(i).version) && Next(State(i), StepOf(i), State(i + 1))
  {
    hide WellFormed, WriteStep, FlushStep, CompactStep, MoveStep;
    StatesWellFormed(i);
    match i
    case 1 | 2 | 5 | 8 | 10 => SmallStep(i);
    case 0 | 4 | 9 => WriteSteps();
    case 3 | 6 | 11 => FlushSteps(i);
    case 7 => FirstCompaction();
    case 12 => SecondCompaction();
  }

  lemma TreeEntries(level1: seq<FileMeta>, level2: seq<FileMeta>)
    ensures AllEntries(Tree(level1, level2)) == Entries(level1) + Entries(level2)
  {
    var v := Tree(level1, level2);
    forall l | 0 <= l < NUM_LEVELS && l != 1 && l != 2 ensures Entries(v.files[l]) == {} {
    }
    assert v.files[1] == level1 && v.files[2] == level2;
  }

  lemma AllBeforeSecond()
    ensures State(12).All() == {A4, A2, K3, K1}
  {
    hide AllEntries, Entries;
    TreeEntries([G], [X, Y]);
    EntriesOf(G, G);
    EntriesOf(X, Y);
    assert ToSet([A2, K3]) == {A2, K3} && ToSet([K1]) == {K1} && ToSet([A4]) == {A4};
    assert ToSet([]) == {};
  }

  lemma RestHoldsOldValue()
    ensures Entries(Without([X, Y], [X])) == {K1}
    ensures Read({K1}, K, 4) == Some("old")
  {
    WithoutMembers([X, Y], [X]);
    assert Y in [X, Y] && X != Y;
    assert K1 in Y.table;
    assert Newest({K1}, K, 4, K1);
    ReadIsNewest({K1}, K, 4, K1);
  }

  lemma DeletionIsNewest()
    ensures Newest({A4, A2, K3, K1}, K, 4, K3)
    ensures K3 in Entries([X])
  {
    EntriesOf(X, X);
    assert K3 in X.table;
  }

  /** The deletion of K is dropped while an older value of K stays in the file behind it. */
  lemma KeyComesBack()
    requires Selected(State(12).version, 1, [G], [X]) && Inv(State(12))
    ensures !ResurrectsNothing(State(12), 1, [G], [X])
    ensures Read(State(12).All(), K, 4) == None
    ensures Read(After(StepLayers(State(12), 1, [G], [X]), 4, State(12).version, 1), K, 4) == Some("old")
  {
    hide Selected, Inv, Entries, Without, BaseLevelForKey, CoveredBy, Newest, Ordered, NothingBelow, After, Read, SeqUnique,
         Shadowed, AllEntries, ToSet, EntriesBefore, EntriesFrom;
    var v := State(12).version;
    var x := StepLayers(State(12), 1, [G], [X]);
    StoreIsOrdered(State(12), 1, [G], [X]);
    NothingDeep(v, K);
    RestHoldsOldValue();
    AllBeforeSecond();
    DeletionIsNewest();
    DroppedTombstone(x, 4, v, 1, K, 4, K3);
    assert State(12).OldestSnapshot() == 4 && Resurrects(x, 4, v, 1, K);
    ResurrectionChangesRead(x, 4, v, 1, K);
  }

  ghost predicate IsLevelFor(v: Version, es: seq<Entry>, level: nat)
    requires |v.files| == NUM_LEVELS
  {
    es != [] && IsMemTableLevel(v, es[0].key.user, es[|es| - 1].key.user, MAX_FILE_SIZE, level)
  }

  lemma SizeOfTwo(f: FileMeta, g: FileMeta)
    ensures TotalFileSize([f]) == f.fileSize && TotalFileSize([f, g]) == f.fileSize + g.fileSize
  {
    assert [f, g] == [f] + [g] && [f][1..] == [] && [g][1..] == [];
    TotalFileSizeConcat([f], [g]);
  }

  /** No level of the run has too many bytes to flush past it. */
  lemma NothingTooBig(i: nat, lo: UserKey, hi: UserKey)
    ensures forall l :: 0 <= l < NUM_LEVELS - 1 ==> !GrandparentsTooBig(State(i).version, l, lo, hi, MAX_FILE_SIZE)
  {
    var v := State(i).version;
    SizeOfTwo(F, F);
    SizeOfTwo(X, Y);
    SizeOfTwo(Z, Y);
    forall l | 0 <= l < NUM_LEVELS - 1 ensures !GrandparentsTooBig(v, l, lo, hi, MAX_FILE_SIZE) {
      if l + 2 < NUM_LEVELS {
        OverlappingIsSmaller(v.files[l + 2], Some(lo), Some(hi));
      }
    }
  }

  /** Every flush of the run goes to the level that PickLevelForMemTableOutput picks, and to no other. */
  lemma FlushLevelsAreForced(i: nat, level: nat)
    requires i < 13 && StepOf(i).Flush?
    ensures State(i).imm.Some?
    ensures IsLevelFor(State(i).version, State(i).imm.value, level) <==> level == StepOf(i).level
  {
    hide GrandparentsTooBig;
    var v, es := State(i).version, State(i).imm.value;
    var lo, hi := es[0].key.user, es[|es| - 1].key.user;
    NothingTooBig(i, lo, hi);
    assert i != 3 ==> v.files[2][0] in v.files[2] && Overlaps(v.files[2][0], Some(lo), Some(hi));
    if IsLevelFor(v, es, level) {
      MemTableLevelIsUnique(v, lo, hi, MAX_FILE_SIZE, level, StepOf(i).level);
    }
  }

  /** A compaction of level 1 has no choice: it takes these inputs, there is nothing below to cut for, and it is no
      trivial move. */
  lemma CompactionsAreForced(i: nat, inputs0: seq<FileMeta>, inputs1: seq<FileMeta>)
    requires i < 13 && StepOf(i).Compact?
    requires Selected(State(i).version, 1, inputs0, inputs1)
    ensures inputs0 == StepOf(i).inputs0 && inputs1 == StepOf(i).inputs1 && |inputs1| == 1
    ensures GrandparentsOf(State(i).version, 1, inputs0, inputs1) == []
  {
    hide WellFormed;
    var f := State(i).version.files[1][0];
    assert inputs0 == [f][0..1] == [f];
    assert LowUser([f]) == f.smallest.user && HighUser([f]) == f.largest.user;
    ParentsAreForced();
  }

  lemma ParentsAreForced()
    ensures Overlapping([F], Some(A), Some(K)) == [F]
    ensures Overlapping([X, Y], Some(A), Some(A)) == [X]
  {
    assert [X, Y][..1] == [X] && [X][..0] == [];
    assert Overlapping([X], Some(A), Some(A)) == [X];
  }

  ghost function Run(): seq<Store> {
    seq(14, i requires 0 <= i < 14 => State(i))
  }

  ghost function Steps(): seq<Step> {
    seq(13, i requires 0 <= i < 13 => StepOf(i))
  }

  lemma RunIsExecution()
    ensures |Run()| == 14 && |Steps()| == 13
    ensures forall i :: 0 <= i < 14 ==> Run()[i] == State(i)
    ensures forall i :: 0 <= i < 13 ==> Steps()[i] == StepOf(i)
    ensures IsExecution(Run(), Steps())
  {
    hide Next, WellFormed, State, StepOf;
    forall i | 0 <= i < 13 ensures StepAt(Run(), Steps(), i) {
      StepHolds(i);
    }
    StartIsEmpty();
  }

  lemma StartIsEmpty()
    ensures Init(State(0))
  {
  }

  /** Every step before the last one is clean: the first compaction takes in all of both levels. */
  lemma CleanUntilThen(i: nat)
    requires i < 12 && Inv(State(7))
    ensures CleanStep(State(i), StepOf(i))
  {
    if i == 7 {
      FirstCompaction();
      CleanCutIsEnough(State(7), 1, [D], [F]);
    }
  }

  lemma HistoryBeforeLast()
    ensures |Run()| == 14 && |Steps()| == 13
    ensures Inv(State(12)) && Coherent(State(12), History(Run(), Steps(), 12))
    ensures History(Run(), Steps(), 13) == History(Run(), Steps(), 12)
  {
    hide Inv, Coherent, CleanStep, IsExecution, Run, Steps;
    RunIsExecution();
    RunKeepsInv(Run(), Steps(), 7);
    forall i | 0 <= i < 12 ensures CleanStep(Run()[i], Steps()[i]) {
      CleanUntilThen(i);
    }
    CleanRunReadsHistory(Run(), Steps(), 12);
    assert Steps()[12].Compact?;
  }

  /** A reachable state in which a deleted key reads as its old value again, at the last sequence number. */
  lemma DeletedKeyReturns()
    ensures |Run()| == 14 && |Steps()| == 13 && IsExecution(Run(), Steps())
    ensures Read(History(Run(), Steps(), 13), K, 4) == None
    ensures Read(Run()[13].All(), K, 4) == Some("old")
  {
    hide Inv, History, Run, Steps, IsExecution, Selected, StepLayers, After, Read, CompactStep, ResurrectsNothing, AllEntries, ToSet;
    RunIsExecution();
    SecondSelected();
    SecondCompaction();
    HistoryBeforeLast();
    KeyComesBack();
    CompactKeepsInv(State(12), 1, [G], [X], [Z], State(13));
    assert State(12).OldestSnapshot() == 4;
  }

  /** Around the last compaction. */
  lemma ReadsOfTheRun()
    ensures State(12).lastSequence == 4 && Read(State(12).All(), K, 4) == None
    ensures State(13).lastSequence == 4 && Read(State(13).All(), K, 4) == Some("old")
  {
    hide Inv, History, Run, Steps, IsExecution, Selected, StepLayers, After, Read, CompactStep, ResurrectsNothing, AllEntries, ToSet,
         Coherent, ReadsPreserved;
    RunIsExecution();
    SecondSelected();
    HistoryBeforeLast();
    KeyComesBack();
    DeletedKeyReturns();
  }
}
