/** Reads over whole runs of the store. */
module StoreRuns {
  import opened DbFormat
  import opened Reads
  import opened Files
  import opened Versions
  import opened InputSelection
  import opened Compactions
  import opened CompactionWork
  import opened CompactionSafety
  import opened Layering
  import opened Stores
  import opened StoreSafety

  lemma MoveKeepsInv(a: Store, level: nat, file: FileMeta, b: Store)
    requires Inv(a) && MoveStep(a, level, file, b)
    ensures Inv(b) && b.All() == a.All()
  {
    SelectedMembers(a.version, level, [file], []);
    hide Selected, Installed, SourcesOrdered, AllEntries, Sorted, WellFormed, Layered, NumbersAllocated;
    assert ([file])[0] == file;
    NumbersAfterMove(a.version, b.version, level, file, a.nextFile);
    LoneFile(a.version, level, file);
    InstallKeepsInv(a, level, [file], [], [file], b);
    LayersAll(a.MemTables(), a.version, level, [file], []);
    var x := LayersOf(a.MemTables(), a.version, level, [file], []);
    assert x.With(Entries([file])) == x.All();
  }

  lemma LoneFile(v: Version, level: nat, file: FileMeta)
    requires Selected(v, level, [file], [])
    ensures ValidFiles([file]) && Disjoint([file])
    ensures Entries([]) == {}
  {
    SelectedMembers(v, level, [file], []);
    assert ([file])[0] == file;
  }

  ghost function StepLayers(a: Store, level: nat, inputs0: seq<FileMeta>, inputs1: seq<FileMeta>): Layers
    requires Selected(a.version, level, inputs0, inputs1)
  {
    LayersOf(a.MemTables(), a.version, level, inputs0, inputs1)
  }

  lemma CompactKeepsInv(a: Store, level: nat, inputs0: seq<FileMeta>, inputs1: seq<FileMeta>, outputs: seq<FileMeta>,
                        b: Store)
    requires Inv(a) && CompactStep(a, level, inputs0, inputs1, outputs, b)
    ensures Inv(b)
    ensures b.All() == After(StepLayers(a, level, inputs0, inputs1), a.OldestSnapshot(), a.version, level)
    ensures b.All() <= a.All()
  {
    SelectedMembers(a.version, level, inputs0, inputs1);
    NumbersAfterInstall(a.version, b.version, level, inputs0, inputs1, outputs, a.nextFile);
    hide Selected, Installed, SourcesOrdered, AllEntries, Sorted, WellFormed, Layered, NumbersAllocated, Obsolete,
         ValidFiles, Disjoint, Entries;
    InstallKeepsInv(a, level, inputs0, inputs1, outputs, b);
  }

  /** Every step keeps the invariant. */
  lemma StepKeepsInv(a: Store, step: Step, b: Store)
    requires Inv(a) && Next(a, step, b)
    ensures Inv(b)
  {
    match step
    case Write(batch) => WriteKeepsInv(a, batch, b);
    case SwitchMemTable => SwitchKeepsInv(a, b);
    case Flush(level, fileSize) => FlushKeepsInv(a, level, fileSize, b);
    case TrivialMove(level, file) => MoveKeepsInv(a, level, file, b);
    case Compact(level, inputs0, inputs1, outputs) => CompactKeepsInv(a, level, inputs0, inputs1, outputs, b);
    case NewSnapshot => SnapshotKeepsInv(a, b);
    case ReleaseSnapshot(i) => ReleaseKeepsInv(a, i, b);
  }

  // ----- Reads -----

  /** A step that leaves the entries alone and retires no live snapshot keeps the store true to its history. */
  lemma SameEntriesStayCoherent(a: Store, b: Store, history: set<Entry>)
    requires Coherent(a, history)
    requires b.All() == a.All() && a.OldestSnapshot() <= b.OldestSnapshot() && a.lastSequence == b.lastSequence
    ensures Coherent(b, history)
  {
  }

  /** Newer entries either decide a read in both sets or take no part in it. */
  lemma AddingNewer(before: set<Entry>, after: set<Entry>, added: set<Entry>, k: UserKey, s: SequenceNumber)
    requires after <= before && SeqUnique(before + added) && Above(added, before)
    requires Read(before, k, s) == Read(after, k, s)
    ensures Read(before + added, k, s) == Read(after + added, k, s)
  {
    if NoneVisible(added, k, s) {
      SameVisible(before + added, s, before, s, k);
      SameVisible(after + added, s, after, s, k);
    } else {
      var e := NewestExists(added, k, s);
      assert Newest(before + added, k, s, e) && Newest(after + added, k, s, e);
      ReadIsNewest(before + added, k, s, e);
      ReadIsNewest(after + added, k, s, e);
    }
  }

  lemma HistoryGrows(history: set<Entry>, last: SequenceNumber, added: set<Entry>, newLast: SequenceNumber)
    requires SeqUnique(history) && SequencesUpTo(history, last) && last <= newLast
    requires SeqUnique(added) && forall e :: e in added ==> last < e.key.sequence <= newLast
    ensures SeqUnique(history + added) && SequencesUpTo(history + added, newLast)
  {
  }

  lemma NewerReadsAgree(history: set<Entry>, all: set<Entry>, added: set<Entry>, last: SequenceNumber,
                        oldest: SequenceNumber, newOldest: SequenceNumber)
    requires all <= history && SeqUnique(history + added) && SequencesUpTo(history, last)
    requires forall e :: e in added ==> last < e.key.sequence
    requires ReadsPreserved(history, all, oldest) && oldest <= newOldest
    ensures ReadsPreserved(history + added, all + added, newOldest)
  {
    hide Read, SeqUnique, ReadsPreserved;
    AboveReadsAgree(history, all, added, oldest, newOldest);
  }

  /** What is newer than all of its keys' entries hides both sets alike. */
  lemma AboveReadsAgree(history: set<Entry>, all: set<Entry>, added: set<Entry>, oldest: SequenceNumber, newOldest: SequenceNumber)
    requires all <= history && SeqUnique(history + added) && Above(added, history)
    requires ReadsPreserved(history, all, oldest) && oldest <= newOldest
    ensures ReadsPreserved(history + added, all + added, newOldest)
  {
    hide Read, SeqUnique, Above;
    forall k: UserKey, s: SequenceNumber | newOldest <= s
      ensures Read(all + added, k, s) == Read(history + added, k, s)
    {
      AddingNewer(history, all, added, k, s);
    }
  }

  lemma WriteStaysCoherent(a: Store, batch: seq<Update>, b: Store, history: set<Entry>)
    requires Inv(a) && Coherent(a, history) && WriteStep(a, batch, b)
    ensures Coherent(b, Record(history, a, Write(batch)))
  {
    hide TreeInv, SourcesOrdered, SeqUnique, SequencesUpTo, Read, ToSet, ReadsPreserved, Sorted, NewEntries;
    var added := ToSet(NewEntries(batch, a.lastSequence + 1));
    WriteKeepsInv(a, batch, b);
    NewEntriesFacts(batch, a.lastSequence);
    HistoryGrows(history, a.lastSequence, added, b.lastSequence);
    NewerReadsAgree(history, a.All(), added, a.lastSequence, a.OldestSnapshot(), b.OldestSnapshot());
  }

  /** A compaction keeps the store true to its history exactly when it resurrects no key. */
  lemma CompactCoherence(a: Store, level: nat, inputs0: seq<FileMeta>, inputs1: seq<FileMeta>, outputs: seq<FileMeta>,
                         b: Store, history: set<Entry>)
    requires Inv(a) && Coherent(a, history) && CompactStep(a, level, inputs0, inputs1, outputs, b)
    ensures Coherent(b, history) <==> ResurrectsNothing(a, level, inputs0, inputs1)
  {
    CompactKeepsInv(a, level, inputs0, inputs1, outputs, b);
    hide Selected, Installed, SourcesOrdered, AllEntries, Sorted, WellFormed, Layered, NumbersAllocated, Obsolete,
         ValidFiles, Disjoint, Entries, Resurrects, After, Read, CompactStep;
    var x := StepLayers(a, level, inputs0, inputs1);
    StoreIsOrdered(a, level, inputs0, inputs1);
    CompactionPreservesReads(x, a.OldestSnapshot(), a.version, level);
    assert b.OldestSnapshot() == a.OldestSnapshot() && b.lastSequence == a.lastSequence by { SnapshotsUntouched(a, level, inputs0, inputs1, outputs, b); }
  }

  lemma SnapshotsUntouched(a: Store, level: nat, inputs0: seq<FileMeta>, inputs1: seq<FileMeta>, outputs: seq<FileMeta>,
                         b: Store)
    requires CompactStep(a, level, inputs0, inputs1, outputs, b)
    ensures Selected(a.version, level, inputs0, inputs1)
    ensures b.OldestSnapshot() == a.OldestSnapshot() && b.lastSequence == a.lastSequence
  {
  }

  ghost predicate ResurrectsNothing(a: Store, level: nat, inputs0: seq<FileMeta>, inputs1: seq<FileMeta>)
    requires Selected(a.version, level, inputs0, inputs1)
  {
    var x := StepLayers(a, level, inputs0, inputs1);
    forall k :: !Resurrects(x, a.OldestSnapshot(), a.version, level, k)
  }

  lemma StoreIsOrdered(a: Store, level: nat, inputs0: seq<FileMeta>, inputs1: seq<FileMeta>)
    requires Inv(a) && Selected(a.version, level, inputs0, inputs1)
    ensures |a.version.files| == NUM_LEVELS
    ensures var x := StepLayers(a, level, inputs0, inputs1);
            x.All() == a.All() && Ordered(x) && NothingBelow(x, a.version, level)
  {
    hide Selected, AllEntries, Sorted, WellFormed, Layered, NumbersAllocated, Ordered, NothingBelow, SeqUnique, Above, SequencesUpTo;
    SelectedMembers(a.version, level, inputs0, inputs1);
    SplitMemTables(ToSet(a.mem), a.Imm(), AllEntries(a.version), a.lastSequence);
    LayersAll(a.MemTables(), a.version, level, inputs0, inputs1);
    SelectionIsOrdered(a.MemTables(), a.version, level, inputs0, inputs1);
  }

  // ----- Runs -----

  /** A step that drops no deletion whose key would come back. */
  ghost predicate CleanStep(a: Store, step: Step) {
    step.Compact? ==>
      && Selected(a.version, step.level, step.inputs0, step.inputs1)
      && ResurrectsNothing(a, step.level, step.inputs0, step.inputs1)
  }

  lemma StepKeepsCoherence(a: Store, step: Step, b: Store, history: set<Entry>)
    requires Inv(a) && Coherent(a, history) && Next(a, step, b)
    ensures CleanStep(a, step) <==> Coherent(b, Record(history, a, step))
  {
    hide Inv, Selected, SourcesOrdered, ReadsPreserved, SeqUnique, SequencesUpTo, WriteStep, CompactStep, FlushStep, MoveStep,
         ResurrectsNothing, Coherent;
    match step
    case Write(batch) => WriteStaysCoherent(a, batch, b, history);
    case SwitchMemTable =>
      SwitchKeepsInv(a, b);
      SameEntriesStayCoherent(a, b, history);
    case Flush(level, fileSize) =>
      FlushKeepsInv(a, level, fileSize, b);
      FlushTouchesNoSnapshot(a, level, fileSize, b);
      SameEntriesStayCoherent(a, b, history);
    case TrivialMove(level, file) =>
      MoveKeepsInv(a, level, file, b);
      MoveTouchesNoSnapshot(a, level, file, b);
      SameEntriesStayCoherent(a, b, history);
    case Compact(level, inputs0, inputs1, outputs) =>
      CompactCoherence(a, level, inputs0, inputs1, outputs, b, history);
      SnapshotsUntouched(a, level, inputs0, inputs1, outputs, b);
    case NewSnapshot =>
      SnapshotKeepsInv(a, b);
      SameEntriesStayCoherent(a, b, history);
    case ReleaseSnapshot(i) =>
      ReleaseKeepsInv(a, i, b);
      SameEntriesStayCoherent(a, b, history);
  }

  lemma FlushTouchesNoSnapshot(a: Store, level: nat, fileSize: nat, b: Store)
    requires Inv(a) && FlushStep(a, level, fileSize, b)
    ensures b.OldestSnapshot() == a.OldestSnapshot() && b.lastSequence == a.lastSequence
  {
  }

  lemma MoveTouchesNoSnapshot(a: Store, level: nat, file: FileMeta, b: Store)
    requires MoveStep(a, level, file, b)
    ensures b.OldestSnapshot() == a.OldestSnapshot() && b.lastSequence == a.lastSequence
  {
  }

  ghost predicate IsExecution(states: seq<Store>, steps: seq<Step>) {
    && |states| == |steps| + 1 && Init(states[0])
    && forall i :: 0 <= i < |steps| ==> StepAt(states, steps, i)
  }

  ghost predicate StepAt(states: seq<Store>, steps: seq<Step>, i: nat)
    requires |states| == |steps| + 1 && i < |steps|
  {
    WellFormed(states[i].version) && Next(states[i], steps[i], states[i + 1])
  }

  /** Everything written in the first n steps. */
  ghost function History(states: seq<Store>, steps: seq<Step>, n: nat): set<Entry>
    requires |states| == |steps| + 1 && n <= |steps|
  {
    if n == 0 then {} else Record(History(states, steps, n - 1), states[n - 1], steps[n - 1])
  }

  /** In every run, every reachable state is sorted, disjoint and layered. */
  lemma {:induction false} RunKeepsInv(states: seq<Store>, steps: seq<Step>, n: nat)
    requires IsExecution(states, steps) && n <= |steps|
    ensures Inv(states[n])
  {
    if n == 0 {
      InitHolds(states[0]);
    } else {
      RunKeepsInv(states, steps, n - 1);
      assert StepAt(states, steps, n - 1);
      StepKeepsInv(states[n - 1], steps[n - 1], states[n]);
    }
  }

  /** In every run whose compactions resurrect nothing, every read at a live snapshot gives what the
      history of all writes says. */
  lemma {:induction false} CleanRunReadsHistory(states: seq<Store>, steps: seq<Step>, n: nat)
    requires IsExecution(states, steps) && n <= |steps|
    requires forall i :: 0 <= i < n ==> CleanStep(states[i], steps[i])
    ensures Inv(states[n]) && Coherent(states[n], History(states, steps, n))
  {
    if n == 0 {
      InitHolds(states[0]);
    } else {
      CleanRunReadsHistory(states, steps, n - 1);
      assert StepAt(states, steps, n - 1);
      StepKeepsInv(states[n - 1], steps[n - 1], states[n]);
      StepKeepsCoherence(states[n - 1], steps[n - 1], states[n], History(states, steps, n - 1));
    }
  }

  /** The first step that is not clean is exactly where reads stop agreeing with the history. */
  lemma FirstUncleanStep(states: seq<Store>, steps: seq<Step>, n: nat)
    requires IsExecution(states, steps) && n < |steps|
    requires forall i :: 0 <= i < n ==> CleanStep(states[i], steps[i])
    ensures CleanStep(states[n], steps[n]) <==> Coherent(states[n + 1], History(states, steps, n + 1))
  {
    CleanRunReadsHistory(states, steps, n);
    assert StepAt(states, steps, n);
    StepKeepsCoherence(states[n], steps[n], states[n + 1], History(states, steps, n));
  }

  // ----- When is a compaction clean? -----

  /** No parent that is an input shares its last user key with a later file of its level that is not. */
  ghost predicate ParentsCutCleanly(v: Version, level: nat, inputs1: seq<FileMeta>)
    requires level + 1 < |v.files|
  {
    forall f, g :: f in inputs1 && g in v.files[level + 1] && g !in inputs1 ==> !IsBoundaryFile(g, f.largest)
  }

  lemma LevelsInStore(a: Store, level: nat)
    requires Inv(a) && level < NUM_LEVELS
    ensures |a.version.files| == NUM_LEVELS && Entries(a.version.files[level]) <= a.All()
  {
    hide Sorted, SourcesOrdered;
    LevelInAll(a.version, level);
  }

  /** A resurrection needs a deletion among the lower inputs and an older entry of its key left out of them. */
  lemma OlderIsLeft(x: Layers, snapshot: SequenceNumber, v: Version, level: nat, k: UserKey) returns (e: Entry, r: Entry)
    requires |v.files| == NUM_LEVELS && SeqUnique(x.All()) && Resurrects(x, snapshot, v, level, k)
    ensures e in x.in1 && r in x.rest1 && e.key.user == r.key.user && r.key.sequence <= e.key.sequence
  {
    e :| e in x.in1 && e.key.kind.Deletion? && Newest(x.All(), k, snapshot, e);
    if NoneVisible(x.rest1, k, snapshot) {
      ReadOfNothing(x.rest1, k, snapshot);
    }
    r := NewestExists(x.rest1, k, snapshot);
    assert r in x.All();
  }

  /** The cut that AddBoundaryInputs makes at the upper level, made at the lower one too, is enough. */
  lemma CleanCutIsEnough(a: Store, level: nat, inputs0: seq<FileMeta>, inputs1: seq<FileMeta>)
    requires Inv(a) && Selected(a.version, level, inputs0, inputs1)
    requires ParentsCutCleanly(a.version, level, inputs1)
    ensures ResurrectsNothing(a, level, inputs0, inputs1)
  {
    var x := StepLayers(a, level, inputs0, inputs1);
    StoreIsOrdered(a, level, inputs0, inputs1);
    LevelsInStore(a, level + 1);
    hide Selected, ParentsCutCleanly, Inv, Resurrects, Without, Entries;
    forall k ensures !Resurrects(x, a.OldestSnapshot(), a.version, level, k) {
      if Resurrects(x, a.OldestSnapshot(), a.version, level, k) {
        var e, r := OlderIsLeft(x, a.OldestSnapshot(), a.version, level, k);
        OlderEntryIsAtBoundary(a.version, level, inputs0, inputs1, x.All(), e, r);
      }
    }
  }

  lemma OlderEntryIsAtBoundary(v: Version, level: nat, inputs0: seq<FileMeta>, inputs1: seq<FileMeta>,
                               all: set<Entry>, e: Entry, r: Entry)
    requires Selected(v, level, inputs0, inputs1)
    requires SeqUnique(all) && Entries(v.files[level + 1]) <= all
    requires e in Entries(inputs1) && r in Entries(Without(v.files[level + 1], inputs1))
    requires e.key.user == r.key.user && r.key.sequence <= e.key.sequence
    ensures !ParentsCutCleanly(v, level, inputs1)
  {
    hide ParentsOf, CleanlyPicked, Disjoint, SeqUnique;
    var files := v.files[level + 1];
    SelectedMembers(v, level, inputs0, inputs1);
    WithoutMembers(files, inputs1);
    var h :| h in inputs1 && e in h.table;
    var g :| g in Without(files, inputs1) && r in g.table;
    var i :| 0 <= i < |files| && files[i] == h;
    var j :| 0 <= j < |files| && files[j] == g;
    OlderIsInLaterFile(files, i, j, all, e, r);
  }

  lemma OlderIsInLaterFile(files: seq<FileMeta>, i: nat, j: nat, all: set<Entry>, e: Entry, r: Entry)
    requires ValidFiles(files) && Disjoint(files) && SeqUnique(all) && Entries(files) <= all
    requires i < |files| && j < |files| && i != j && e in files[i].table && r in files[j].table
    requires e.key.user == r.key.user && r.key.sequence <= e.key.sequence
    ensures IsBoundaryFile(files[j], files[i].largest)
  {
    FileBounds(files[i], e);
    FileBounds(files[j], r);
    if j < i {
      EarlierFileIsNewer(files, j, i, all);
    }
    assert Precedes(files, i, j);
  }
}
