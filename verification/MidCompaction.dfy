/** A compaction that runs while the store goes on: writes, snapshots and flushes of the immutable memtable between the
    choice of its inputs and the installation of its outputs (DoCompactionWork in db/db_impl.cc). */
module MidCompaction {
  import opened DbFormat
  import opened Reads
  import opened Files
  import opened Versions
  import opened InputSelection
  import opened Compactions
  import opened CompactionWork
  import opened CompactionSafety
  import opened Layering
  import opened InputGaps
  import opened Stores
  import opened StoreSafety
  import opened StoreRuns
  import opened CrashSafety

  /** What goes on beside the one background thread that compacts, or in it; numbers are given out for its outputs. */
  datatype Event = Did(step: Step) | Numbers(next: nat)

  ghost predicate Happens(a: Store, e: Event, b: Store)
    requires WellFormed(a.version)
  {
    match e
    case Did(step) => !step.Compact? && !step.TrivialMove? && Next(a, step, b)
    case Numbers(next) => a.nextFile <= next && b == a.(nextFile := next)
  }

  /** The user-key range of `f` meets no file of levels 0 to `l`. */
  ghost predicate Outside(f: FileMeta, v: Version, l: int) {
    forall m, g :: m <= l && HasFile(v, m, g) ==> !Overlaps(g, Some(f.smallest.user), Some(f.largest.user))
  }

  /** A table flushed since `a`: newer than all of its tables, and passed over none that meets it. */
  ghost predicate NewTable(a: Store, l: int, f: FileMeta) {
    f.number >= a.nextFile && Above(ToSet(f.table), AllEntries(a.version)) && (l > 0 ==> Outside(f, a.version, l))
  }

  /** The store has gone on from `a` to `b` without a compaction. */
  ghost predicate Grown(a: Store, b: Store) {
    && Inv(a) && Inv(b)
    && (forall l, f {:trigger HasFile(a.version, l, f)} :: HasFile(a.version, l, f) ==> HasFile(b.version, l, f))
    && (forall l, f {:trigger HasFile(b.version, l, f)} :: HasFile(b.version, l, f) && !HasFile(a.version, l, f) ==> NewTable(a, l, f))
    && a.OldestSnapshot() <= b.OldestSnapshot() && a.nextFile <= b.nextFile
  }

  lemma GrownStarts(a: Store)
    requires Inv(a)
    ensures Grown(a, a)
  {
  }

  lemma NumbersGrow(a: Store, b: Store, next: nat)
    requires Grown(a, b) && b.nextFile <= next
    ensures Grown(a, b.(nextFile := next))
  {
    assert b.(nextFile := next).All() == b.All();
  }

  lemma StepGrows(a: Store, b: Store, step: Step, c: Store)
    requires Grown(a, b) && !step.Compact? && !step.TrivialMove? && Next(b, step, c)
    ensures Grown(a, c)
  {
    StepKeepsInv(b, step, c);
    SnapshotsGrow(b, step, c);
    hide Inv, WriteStep, FlushStep, NewTable;
    if step.Flush? {
      FlushGrows(a, b, step.level, step.fileSize, c);
    } else {
      OnlyFlushes(b, step, c);
    }
  }

  ghost predicate HappensAt(states: seq<Store>, events: seq<Event>, i: nat)
    requires i < |events| && i + 1 < |states|
  {
    WellFormed(states[i].version) && Happens(states[i], events[i], states[i + 1])
  }

  /** Any number of such events. */
  lemma {:induction false} EventsGrow(states: seq<Store>, events: seq<Event>, n: nat)
    requires |states| == |events| + 1 && n <= |events| && Inv(states[0])
    requires forall i :: 0 <= i < |events| ==> HappensAt(states, events, i)
    ensures Grown(states[0], states[n])
  {
    hide Inv, Grown, Next, WellFormed;
    if n == 0 {
      GrownStarts(states[0]);
    } else {
      EventsGrow(states, events, n - 1);
      assert HappensAt(states, events, n - 1);
      var e := events[n - 1];
      if e.Did? {
        StepGrows(states[0], states[n - 1], e.step, states[n]);
      } else {
        NumbersGrow(states[0], states[n - 1], e.next);
      }
    }
  }

  lemma OnlyFlushes(b: Store, step: Step, c: Store)
    requires WellFormed(b.version) && !step.Compact? && !step.TrivialMove? && !step.Flush? && Next(b, step, c)
    ensures c.version == b.version && c.nextFile == b.nextFile
  {
  }

  lemma SnapshotsGrow(b: Store, step: Step, c: Store)
    requires Inv(b) && !step.Compact? && !step.TrivialMove? && Next(b, step, c)
    ensures b.OldestSnapshot() <= c.OldestSnapshot()
  {
    hide TreeInv, SourcesOrdered, AllEntries, Sorted;
    assert b.snapshots != [] ==> b.snapshots[0] in b.snapshots;
    assert c.snapshots != [] && step.ReleaseSnapshot? ==> c.snapshots[0] in b.snapshots;
  }

  lemma FlushGrows(a: Store, b: Store, level: nat, fileSize: nat, c: Store)
    requires Grown(a, b) && Inv(c) && FlushStep(b, level, fileSize, c)
    ensures forall l, f {:trigger HasFile(a.version, l, f)} :: HasFile(a.version, l, f) ==> HasFile(c.version, l, f)
    ensures forall l, f {:trigger HasFile(c.version, l, f)} :: HasFile(c.version, l, f) && !HasFile(a.version, l, f) ==> NewTable(a, l, f)
    ensures b.nextFile <= c.nextFile
  {
    var es := b.imm.value;
    if es != [] {
      var file := FileMeta(b.nextFile, fileSize, es[0].key, es[|es| - 1].key, es);
      FlushedIsNew(a, b, level, fileSize, c, file);
      assert |b.version.files| == |c.version.files| == NUM_LEVELS;
      hide Inv, NewTable, ClearDownTo;
      forall l, f | HasFile(c.version, l, f) && !HasFile(a.version, l, f) ensures NewTable(a, l, f) {
        assert HasFile(b.version, l, f) || (l == level && f == file);
      }
      forall l, f | HasFile(a.version, l, f) ensures HasFile(c.version, l, f) {
        assert HasFile(b.version, l, f);
      }
    }
  }

  lemma FlushedIsNew(a: Store, b: Store, level: nat, fileSize: nat, c: Store, file: FileMeta)
    requires Grown(a, b) && FlushStep(b, level, fileSize, c) && b.imm.value != []
    requires var es := b.imm.value; file == FileMeta(b.nextFile, fileSize, es[0].key, es[|es| - 1].key, es)
    ensures NewTable(a, level, file)
  {
    hide TreeInv, Sorted, AddedAt;
    OlderTree(a, b);
    AboveSubsets(b.Imm(), AllEntries(b.version), b.Imm(), AllEntries(a.version));
    if level > 0 {
      forall m, g | m <= level && HasFile(a.version, m, g) ensures !Overlaps(g, Some(file.smallest.user), Some(file.largest.user)) {
        assert HasFile(b.version, m, g);
        assert !MeetsLevel(b.version, m, file.smallest.user, file.largest.user);
      }
    }
  }

  lemma OlderTree(a: Store, b: Store)
    requires Grown(a, b)
    ensures AllEntries(a.version) <= AllEntries(b.version) && Above(b.MemTables(), AllEntries(a.version))
  {
    hide TreeInv, Sorted, NewTable;
    forall e | e in AllEntries(a.version) ensures e in AllEntries(b.version) {
      var l: nat :| l < |a.version.files| && e in Entries(a.version.files[l]);
      var f :| f in a.version.files[l] && e in f.table;
      assert HasFile(a.version, l, f);
      assert HasFile(b.version, l, f);
      assert e in Entries(b.version.files[l]);
    }
  }

  // ----- Installing the outputs -----

  /** Numbers given out for the outputs while the store went on. */
  ghost predicate NumberedApart(outputs: seq<FileMeta>, b: Store) {
    && (forall g :: g in outputs ==> g.number < b.nextFile)
    && (forall l, f, g :: HasFile(b.version, l, f) && g in outputs ==> f.number != g.number)
    && forall f, g :: f in outputs && g in outputs && f.number == g.number ==> f == g
  }

  /** The compaction chosen in `a` is installed in `b`.  What it keeps was decided by the oldest snapshot and the version of `a`. */
  ghost predicate FinishStep(a: Store, level: nat, inputs0: seq<FileMeta>, inputs1: seq<FileMeta>, outputs: seq<FileMeta>,
                             b: Store, c: Store)
    requires |b.version.files| == NUM_LEVELS
  {
    && Selected(a.version, level, inputs0, inputs1)
    && ValidFiles(outputs) && Disjoint(outputs) && NumberedApart(outputs, b)
    && Entries(outputs) == KeptEntries(a, level, inputs0, inputs1)
    && Installed(b.version, c.version, level, inputs0, inputs1, outputs)
    && c == b.(version := c.version)
  }

  /** No table flushed to the output level meanwhile meets an output. */
  ghost predicate NothingInTheWay(a: Store, level: nat, outputs: seq<FileMeta>, b: Store) {
    forall l, f, g :: l == level + 1 && HasFile(b.version, l, f) && !HasFile(a.version, l, f) && g in outputs ==> Apart(f, g)
  }

  lemma OutputEntries(a: Store, level: nat, inputs0: seq<FileMeta>, inputs1: seq<FileMeta>, outputs: seq<FileMeta>)
    requires Selected(a.version, level, inputs0, inputs1) && Entries(outputs) == KeptEntries(a, level, inputs0, inputs1)
    ensures Entries(outputs) <= Entries(inputs0) + Entries(inputs1)
  {
    hide Selected, Obsolete;
  }

  /** Two files of the output level, one of them an output. */
  lemma OutputsApart(a: Store, b: Store, level: nat, inputs0: seq<FileMeta>, inputs1: seq<FileMeta>, outputs: seq<FileMeta>,
                     c: Store, f: FileMeta, g: FileMeta)
    requires Grown(a, b) && FinishStep(a, level, inputs0, inputs1, outputs, b, c) && NothingInTheWay(a, level, outputs, b)
    requires f in b.version.files[level + 1] && f !in inputs1 && g in outputs
    ensures Apart(g, f)
  {
    hide CleanlyPicked, ParentsOf, NewTable, Obsolete, SourcesOrdered;
    var below := level + 1;
    OutputEntries(a, level, inputs0, inputs1, outputs);
    TableInEntries(outputs, g);
    if HasFile(a.version, below, f) {
      OutputApart(a.version, level, inputs0, inputs1, g, f);
    } else {
      assert HasFile(b.version, below, f);
    }
  }

  lemma LevelsFit(a: Store, b: Store, level: nat, inputs0: seq<FileMeta>, inputs1: seq<FileMeta>, outputs: seq<FileMeta>, c: Store)
    requires Grown(a, b) && FinishStep(a, level, inputs0, inputs1, outputs, b, c) && NothingInTheWay(a, level, outputs, b)
    ensures WellFormed(c.version)
  {
    hide CleanlyPicked, ParentsOf, NewTable, KeptEntries, SourcesOrdered, NothingInTheWay, Apart, Disjoint, NumberedApart, ValidFile;
    var v, w := b.version, c.version;
    forall l | 0 <= l < NUM_LEVELS ensures ValidFiles(w.files[l]) && (l > 0 ==> Disjoint(w.files[l])) {
      forall f | f in w.files[l] ensures ValidFile(f) {
        assert NewMember(v, level, inputs0, inputs1, outputs, l, f);
      }
      if l > 0 {
        forall f, g | f in w.files[l] && g in w.files[l] && f != g ensures Apart(f, g) {
          FilesApart(a, b, level, inputs0, inputs1, outputs, c, l, f, g);
        }
        ApartIsDisjoint(w.files[l]);
      }
    }
  }

  lemma FilesApart(a: Store, b: Store, level: nat, inputs0: seq<FileMeta>, inputs1: seq<FileMeta>, outputs: seq<FileMeta>, c: Store,
                   l: nat, f: FileMeta, g: FileMeta)
    requires Grown(a, b) && FinishStep(a, level, inputs0, inputs1, outputs, b, c) && NothingInTheWay(a, level, outputs, b)
    requires 0 < l < NUM_LEVELS && f in c.version.files[l] && g in c.version.files[l] && f != g
    ensures Apart(f, g)
  {
    hide CleanlyPicked, ParentsOf, NewTable, KeptEntries, SourcesOrdered, NothingInTheWay, Disjoint, NumberedApart, ValidFile;
    var v := b.version;
    assert NewMember(v, level, inputs0, inputs1, outputs, l, f) && NewMember(v, level, inputs0, inputs1, outputs, l, g);
    if f in outputs && g in outputs && l == level + 1 {
      DisjointIsApart(outputs, f, g);
    } else if f in v.files[l] && g in v.files[l] {
      DisjointIsApart(v.files[l], f, g);
    } else if f in outputs {
      OutputsApart(a, b, level, inputs0, inputs1, outputs, c, g, f);
    } else {
      OutputsApart(a, b, level, inputs0, inputs1, outputs, c, f, g);
    }
  }

  /** The inputs are still there when the outputs are installed. */
  lemma InputsAreThere(a: Store, b: Store, level: nat, inputs0: seq<FileMeta>, inputs1: seq<FileMeta>)
    requires Grown(a, b) && Selected(a.version, level, inputs0, inputs1)
    ensures |b.version.files| == |a.version.files| == NUM_LEVELS && level + 1 < NUM_LEVELS
    ensures Entries(inputs0) <= Entries(b.version.files[level]) && Entries(inputs1) <= Entries(b.version.files[level + 1])
    ensures Entries(inputs0) + Entries(inputs1) <= AllEntries(a.version)
  {
    hide CleanlyPicked, ParentsOf, NewTable, SourcesOrdered, AllEntries;
    SelectedMembers(a.version, level, inputs0, inputs1);
    LayersAll({}, a.version, level, inputs0, inputs1);
    var below := level + 1;
    forall f | f in inputs0 ensures f in b.version.files[level] {
      assert HasFile(a.version, level, f);
      assert HasFile(b.version, level, f);
    }
    forall f | f in inputs1 ensures f in b.version.files[below] {
      assert HasFile(a.version, below, f);
      assert HasFile(b.version, below, f);
    }
  }

  /** What stays at the input level is not older than an input. */
  lemma RestIsNewer(a: Store, b: Store, level: nat, inputs0: seq<FileMeta>, inputs1: seq<FileMeta>, f: FileMeta, x: Entry, y: Entry)
    requires Grown(a, b) && Selected(a.version, level, inputs0, inputs1)
    requires HasFile(b.version, level, f) && f !in inputs0 && x in f.table && y in Entries(inputs0) && x.key.user == y.key.user
    ensures x.key.sequence > y.key.sequence
  {
    hide CleanlyPicked, ParentsOf, SourcesOrdered, Layered, NumbersAllocated;
    assert x in ToSet(f.table);
    var g :| g in inputs0 && y in g.table;
    assert y in ToSet(g.table);
    InputsAreThere(a, b, level, inputs0, inputs1);
    if HasFile(a.version, level, f) {
      LevelInAll(a.version, level);
      TreeIsUnique(a);
      RestAboveInputs(a.version.files[level], level, inputs0, g, f, AllEntries(a.version));
    } else {
      assert NewTable(a, level, f);
      assert y in AllEntries(a.version);
    }
  }

  lemma TreeIsUnique(a: Store)
    requires Inv(a)
    ensures SeqUnique(AllEntries(a.version))
  {
    SplitMemTables(ToSet(a.mem), a.Imm(), AllEntries(a.version), a.lastSequence);
  }

  lemma AllIsUnique(b: Store)
    requires Inv(b)
    ensures SeqUnique(b.All())
  {
  }

  /** Where an entry of a level came from. */
  ghost predicate From(b: Store, level: nat, inputs0: seq<FileMeta>, inputs1: seq<FileMeta>, l: nat, x: Entry)
    requires l < |b.version.files|
  {
    || (exists f :: f in b.version.files[l] && !(l == level && f in inputs0) && x in f.table)
    || (l == level + 1 && (x in Entries(inputs0) || x in Entries(inputs1)))
  }

  lemma ComesFrom(a: Store, b: Store, level: nat, inputs0: seq<FileMeta>, inputs1: seq<FileMeta>, outputs: seq<FileMeta>, c: Store,
                  l: nat, x: Entry)
    requires |b.version.files| == NUM_LEVELS && FinishStep(a, level, inputs0, inputs1, outputs, b, c)
    requires l < NUM_LEVELS && x in Entries(c.version.files[l])
    ensures From(b, level, inputs0, inputs1, l, x)
  {
    hide Selected, NumberedApart, Disjoint, ValidFiles;
    OutputEntries(a, level, inputs0, inputs1, outputs);
    var f :| f in c.version.files[l] && x in f.table;
    assert NewMember(b.version, level, inputs0, inputs1, outputs, l, f);
    if l == level + 1 && f in outputs {
      assert x in Entries(outputs);
    }
  }

  lemma StillAbove(a: Store, b: Store, level: nat, inputs0: seq<FileMeta>, inputs1: seq<FileMeta>, l: nat, m: nat, x: Entry, y: Entry)
    requires Grown(a, b) && Selected(a.version, level, inputs0, inputs1) && l < m < NUM_LEVELS
    requires |b.version.files| == NUM_LEVELS && From(b, level, inputs0, inputs1, l, x) && From(b, level, inputs0, inputs1, m, y)
    requires x.key.user == y.key.user
    ensures x.key.sequence > y.key.sequence
  {
    hide CleanlyPicked, ParentsOf, NewTable, SourcesOrdered, Selected, WellFormed, NumbersAllocated;
    InputsAreThere(a, b, level, inputs0, inputs1);
    var files := b.version.files;
    if l == level && m == level + 1 && y in Entries(inputs0) {
      var f :| f in files[l] && f !in inputs0 && x in f.table;
      assert HasFile(b.version, level, f);
      RestIsNewer(a, b, level, inputs0, inputs1, f, x, y);
    } else {
      var p: nat := if l == level + 1 && x in Entries(inputs0) then level else l;
      var q: nat := if m == level + 1 && y in Entries(inputs0) then level else m;
      assert x in Entries(files[p]) && y in Entries(files[q]);
      LevelsAbove(b.version, p, q);
    }
  }

  lemma LayersFit(a: Store, b: Store, level: nat, inputs0: seq<FileMeta>, inputs1: seq<FileMeta>, outputs: seq<FileMeta>, c: Store)
    requires Grown(a, b) && FinishStep(a, level, inputs0, inputs1, outputs, b, c)
    ensures |c.version.files| == NUM_LEVELS && Layered(c.version)
  {
    hide CleanlyPicked, ParentsOf, NewTable, SourcesOrdered, KeptEntries, Entries, Selected, NumberedApart, From;
    var w := c.version;
    forall f | f in w.files[0] ensures f in b.version.files[0] {
      assert NewMember(b.version, level, inputs0, inputs1, outputs, 0, f);
    }
    forall l, m | 0 <= l < m < NUM_LEVELS ensures Above(Entries(w.files[l]), Entries(w.files[m])) {
      forall x, y | x in Entries(w.files[l]) && y in Entries(w.files[m]) && x.key.user == y.key.user
        ensures x.key.sequence > y.key.sequence
      {
        ComesFrom(a, b, level, inputs0, inputs1, outputs, c, l, x);
        ComesFrom(a, b, level, inputs0, inputs1, outputs, c, m, y);
        StillAbove(a, b, level, inputs0, inputs1, l, m, x, y);
      }
    }
  }

  lemma NumbersFit(a: Store, b: Store, level: nat, inputs0: seq<FileMeta>, inputs1: seq<FileMeta>, outputs: seq<FileMeta>, c: Store)
    requires Grown(a, b) && FinishStep(a, level, inputs0, inputs1, outputs, b, c)
    ensures NumbersAllocated(c.version, c.nextFile)
  {
    hide CleanlyPicked, ParentsOf, NewTable, SourcesOrdered, KeptEntries, Entries, Selected, Layered, ValidFile, Disjoint;
    forall l, f | HasFile(c.version, l, f)
      ensures HasFile(b.version, l, f) || (l == level + 1 && f in outputs)
    {
      assert NewMember(b.version, level, inputs0, inputs1, outputs, l, f);
    }
  }

  /** Nothing comes in with the outputs. */
  lemma FewerEntries(a: Store, b: Store, level: nat, inputs0: seq<FileMeta>, inputs1: seq<FileMeta>, outputs: seq<FileMeta>, c: Store)
    requires Grown(a, b) && FinishStep(a, level, inputs0, inputs1, outputs, b, c)
    ensures AllEntries(c.version) <= AllEntries(b.version)
  {
    hide CleanlyPicked, ParentsOf, NewTable, SourcesOrdered, KeptEntries, Selected, WellFormed, Layered, NumberedApart;
    InputsAreThere(a, b, level, inputs0, inputs1);
    forall e | e in AllEntries(c.version) ensures e in AllEntries(b.version) {
      var l: nat :| l < |c.version.files| && e in Entries(c.version.files[l]);
      ComesFrom(a, b, level, inputs0, inputs1, outputs, c, l, e);
      var m: nat := if l == level + 1 && e in Entries(inputs0) then level else l;
      assert e in Entries(b.version.files[m]);
    }
  }

  /** The store stays legal exactly when no table flushed meanwhile is in the way of an output. */
  lemma FinishIsLegal(a: Store, b: Store, level: nat, inputs0: seq<FileMeta>, inputs1: seq<FileMeta>, outputs: seq<FileMeta>, c: Store)
    requires Grown(a, b) && FinishStep(a, level, inputs0, inputs1, outputs, b, c)
    ensures Inv(c) <==> NothingInTheWay(a, level, outputs, b)
  {
    hide CleanlyPicked, ParentsOf, NewTable, KeptEntries, Sorted, AllEntries, Disjoint, Layered, NumbersAllocated;
    if NothingInTheWay(a, level, outputs, b) {
      LevelsFit(a, b, level, inputs0, inputs1, outputs, c);
      LayersFit(a, b, level, inputs0, inputs1, outputs, c);
      NumbersFit(a, b, level, inputs0, inputs1, outputs, c);
      FewerEntries(a, b, level, inputs0, inputs1, outputs, c);
      FewerIsOrdered(ToSet(b.mem), b.Imm(), AllEntries(b.version), AllEntries(c.version), b.lastSequence);
    }
    if Inv(c) {
      LegalIsFree(a, b, level, inputs0, inputs1, outputs, c);
    }
  }

  lemma FewerIsOrdered(mem: set<Entry>, imm: set<Entry>, tree: set<Entry>, fewer: set<Entry>, last: SequenceNumber)
    requires SourcesOrdered(mem, imm, tree, last) && fewer <= tree
    ensures SourcesOrdered(mem, imm, fewer, last)
  {
  }

  lemma LegalIsFree(a: Store, b: Store, level: nat, inputs0: seq<FileMeta>, inputs1: seq<FileMeta>, outputs: seq<FileMeta>, c: Store)
    requires Grown(a, b) && FinishStep(a, level, inputs0, inputs1, outputs, b, c) && WellFormed(c.version)
    ensures NothingInTheWay(a, level, outputs, b)
  {
    hide CleanlyPicked, ParentsOf, NewTable, KeptEntries, SourcesOrdered, Disjoint, Layered, ValidFile, Apart;
    SelectedMembers(a.version, level, inputs0, inputs1);
    var below := level + 1;
    forall l, f, g | l == below && HasFile(b.version, l, f) && !HasFile(a.version, l, f) && g in outputs ensures Apart(f, g) {
      assert f !in inputs1;
      assert NewMember(b.version, level, inputs0, inputs1, outputs, below, f) && NewMember(b.version, level, inputs0, inputs1, outputs, below, g);
      assert f.number != g.number;
      DisjointIsApart(c.version.files[below], f, g);
    }
  }

  /** Inputs without a gap leave no room for a flushed table at the output level. */
  lemma GapFreeIsLegal(a: Store, b: Store, level: nat, inputs0: seq<FileMeta>, inputs1: seq<FileMeta>, outputs: seq<FileMeta>, c: Store)
    requires Grown(a, b) && FinishStep(a, level, inputs0, inputs1, outputs, b, c) && GapFree(inputs0 + inputs1)
    ensures Inv(c)
  {
    hide CleanlyPicked, ParentsOf, KeptEntries, SourcesOrdered, Disjoint, Layered, GapFree, NumberedApart;
    OutputEntries(a, level, inputs0, inputs1, outputs);
    SelectedMembers(a.version, level, inputs0, inputs1);
    var below := level + 1;
    forall l, f, g | l == below && HasFile(b.version, l, f) && !HasFile(a.version, l, f) && g in outputs ensures Apart(f, g) {
      assert NewTable(a, l, f) && ValidFile(f);
      InputsOutside(a, level, inputs0, inputs1, f);
      OutputInHull(inputs0, inputs1, outputs, g);
    }
    FinishIsLegal(a, b, level, inputs0, inputs1, outputs, c);
  }

  /** A table outside of all inputs is on one side of them. */
  lemma InputsOutside(a: Store, level: nat, inputs0: seq<FileMeta>, inputs1: seq<FileMeta>, f: FileMeta)
    requires Selected(a.version, level, inputs0, inputs1) && GapFree(inputs0 + inputs1)
    requires ValidFile(f) && Outside(f, a.version, level + 1)
    ensures inputs0 + inputs1 != []
    ensures f.largest.user < LowUser(inputs0 + inputs1) || HighUser(inputs0 + inputs1) < f.smallest.user
  {
    hide CleanlyPicked, ParentsOf, GapFree;
    var all := inputs0 + inputs1;
    HasFiles(all);
    FileEndsInOrder(f);
    SelectedMembers(a.version, level, inputs0, inputs1);
    var below := level + 1;
    forall g | g in all ensures ValidFile(g) && !Overlaps(g, Some(f.smallest.user), Some(f.largest.user)) {
      assert HasFile(a.version, level, g) || HasFile(a.version, below, g);
    }
    if f.smallest.user <= HighUser(all) && LowUser(all) <= f.largest.user {
      MeetsOne(all, f.smallest.user, f.largest.user);
    }
  }

  lemma OutputInHull(inputs0: seq<FileMeta>, inputs1: seq<FileMeta>, outputs: seq<FileMeta>, g: FileMeta)
    requires inputs0 + inputs1 != [] && ValidFiles(inputs0 + inputs1) && g in outputs && ValidFile(g)
    requires Entries(outputs) <= Entries(inputs0) + Entries(inputs1)
    ensures LowUser(inputs0 + inputs1) <= g.smallest.user && g.largest.user <= HighUser(inputs0 + inputs1)
  {
    var first, last := g.table[0], g.table[|g.table| - 1];
    assert first in g.table && last in g.table;
    assert first in Entries(outputs) && last in Entries(outputs);
    InHull(inputs0, inputs1, first);
    InHull(inputs0, inputs1, last);
  }

  lemma InHull(inputs0: seq<FileMeta>, inputs1: seq<FileMeta>, e: Entry)
    requires inputs0 + inputs1 != [] && ValidFiles(inputs0 + inputs1)
    requires e in Entries(inputs0) || e in Entries(inputs1)
    ensures LowUser(inputs0 + inputs1) <= e.key.user <= HighUser(inputs0 + inputs1)
  {
    UserHull(inputs0 + inputs1);
    var f :| f in inputs0 + inputs1 && e in f.table;
    FileBounds(f, e);
  }

  // ----- Reads -----

  /** All of a version's entries but the inputs', and those of the tables flushed since. */
  ghost function Rest(v: Version, level: nat, inputs0: seq<FileMeta>, inputs1: seq<FileMeta>): set<Entry> {
    set l, f, e | 0 <= l < |v.files| && f in v.files[l] && !(l == level && f in inputs0) && !(l == level + 1 && f in inputs1)
                  && e in f.table :: e
  }

  ghost function Flushed(v: Version, w: Version): set<Entry> {
    set l, f, e | 0 <= l < |w.files| && f in w.files[l] && !HasFile(v, l, f) && e in f.table :: e
  }

  lemma LayersRest(v: Version, level: nat, inputs0: seq<FileMeta>, inputs1: seq<FileMeta>, kept: set<Entry>)
    requires |v.files| == NUM_LEVELS && level + 1 < NUM_LEVELS
    ensures LayersOf({}, v, level, inputs0, inputs1).With(kept) == Rest(v, level, inputs0, inputs1) + kept
  {
    WithoutMembers(v.files[level], inputs0);
    WithoutMembers(v.files[level + 1], inputs1);
    var x, below := LayersOf({}, v, level, inputs0, inputs1), level + 1;
    forall e | e in Rest(v, level, inputs0, inputs1) ensures e in x.With(kept) {
      var l: nat, f :| l < |v.files| && f in v.files[l] && !(l == level && f in inputs0) && !(l == below && f in inputs1)
                       && e in f.table;
      assert e in Entries(v.files[l]);
      assert l == level ==> f in Without(v.files[level], inputs0);
      assert l == below ==> f in Without(v.files[below], inputs1);
    }
    forall e | e in x.With(kept) && e !in kept ensures e in Rest(v, level, inputs0, inputs1) {
      if e in x.rest0 {
        var f :| f in Without(v.files[level], inputs0) && e in f.table;
        assert f in v.files[level];
      } else if e in x.rest1 {
        var f :| f in Without(v.files[below], inputs1) && e in f.table;
        assert f in v.files[below];
      } else {
        var l: nat :| l < |v.files| && l != level && l != below && e in Entries(v.files[l]);
        var f :| f in v.files[l] && e in f.table;
      }
    }
  }

  lemma GrownEntries(a: Store, b: Store)
    requires Grown(a, b)
    ensures AllEntries(b.version) == AllEntries(a.version) + Flushed(a.version, b.version)
    ensures Above(b.MemTables() + Flushed(a.version, b.version), AllEntries(a.version))
  {
    hide TreeInv, Sorted, SourcesOrdered, NewTable;
    OlderTree(a, b);
    forall e | e in AllEntries(b.version) ensures e in AllEntries(a.version) + Flushed(a.version, b.version) {
      var l: nat :| l < |b.version.files| && e in Entries(b.version.files[l]);
      var f :| f in b.version.files[l] && e in f.table;
      assert HasFile(b.version, l, f);
      if HasFile(a.version, l, f) {
        assert e in Entries(a.version.files[l]);
      }
    }
    FlushedIsAbove(a, b);
  }

  lemma FlushedIsAbove(a: Store, b: Store)
    requires Grown(a, b)
    ensures Flushed(a.version, b.version) <= AllEntries(b.version)
    ensures Above(Flushed(a.version, b.version), AllEntries(a.version))
  {
    hide Inv;
    forall e | e in Flushed(a.version, b.version)
      ensures e in AllEntries(b.version)
      ensures forall x :: x in AllEntries(a.version) && x.key.user == e.key.user ==> e.key.sequence > x.key.sequence
    {
      var l: nat, f :| l < |b.version.files| && f in b.version.files[l] && !HasFile(a.version, l, f) && e in f.table;
      assert HasFile(b.version, l, f);
      assert NewTable(a, l, f);
      assert e in ToSet(f.table) && e in Entries(b.version.files[l]);
    }
  }

  lemma FinishedEntries(a: Store, b: Store, level: nat, inputs0: seq<FileMeta>, inputs1: seq<FileMeta>, outputs: seq<FileMeta>, c: Store)
    requires Grown(a, b) && FinishStep(a, level, inputs0, inputs1, outputs, b, c)
    ensures AllEntries(c.version) == Rest(a.version, level, inputs0, inputs1) + Entries(outputs) + Flushed(a.version, b.version)
  {
    hide TreeInv, Sorted, SourcesOrdered, NewTable, Selected, KeptEntries, NumberedApart;
    SelectedMembers(a.version, level, inputs0, inputs1);
    InputsAreThere(a, b, level, inputs0, inputs1);
    var w, below := c.version, level + 1;
    forall e | e in AllEntries(w)
      ensures e in Rest(a.version, level, inputs0, inputs1) + Entries(outputs) + Flushed(a.version, b.version)
    {
      var l: nat :| l < |w.files| && e in Entries(w.files[l]);
      var f :| f in w.files[l] && e in f.table;
      assert NewMember(b.version, level, inputs0, inputs1, outputs, l, f);
      if !(l == below && f in outputs) && HasFile(a.version, l, f) {
        assert e in Rest(a.version, level, inputs0, inputs1);
      }
    }
    forall e | e in Rest(a.version, level, inputs0, inputs1) ensures e in AllEntries(w) {
      var l: nat, f :| l < |a.version.files| && f in a.version.files[l] && !(l == level && f in inputs0)
                       && !(l == below && f in inputs1) && e in f.table;
      assert HasFile(a.version, l, f);
      assert HasFile(b.version, l, f);
      assert NewMember(b.version, level, inputs0, inputs1, outputs, l, f);
      assert e in Entries(w.files[l]);
    }
    forall e | e in Entries(outputs) ensures e in AllEntries(w) {
      var f :| f in outputs && e in f.table;
      assert NewMember(b.version, level, inputs0, inputs1, outputs, below, f);
      assert e in Entries(w.files[below]);
    }
    FlushedStays(a, b, level, inputs0, inputs1, outputs, c);
  }

  lemma FlushedStays(a: Store, b: Store, level: nat, inputs0: seq<FileMeta>, inputs1: seq<FileMeta>, outputs: seq<FileMeta>, c: Store)
    requires Grown(a, b) && FinishStep(a, level, inputs0, inputs1, outputs, b, c)
    ensures Flushed(a.version, b.version) <= AllEntries(c.version)
  {
    hide TreeInv, Sorted, SourcesOrdered, NewTable, Selected, KeptEntries, NumberedApart;
    SelectedMembers(a.version, level, inputs0, inputs1);
    InputsAreThere(a, b, level, inputs0, inputs1);
    forall e | e in Flushed(a.version, b.version) ensures e in AllEntries(c.version) {
      var l: nat, f :| l < |b.version.files| && f in b.version.files[l] && !HasFile(a.version, l, f) && e in f.table;
      assert NewMember(b.version, level, inputs0, inputs1, outputs, l, f);
      assert e in Entries(c.version.files[l]);
    }
  }

  lemma TreeReadsKept(a: Store, level: nat, inputs0: seq<FileMeta>, inputs1: seq<FileMeta>, outputs: seq<FileMeta>)
    requires Inv(a) && Selected(a.version, level, inputs0, inputs1) && Entries(outputs) == KeptEntries(a, level, inputs0, inputs1)
    requires ResurrectsNothing(TreeOnly(a), level, inputs0, inputs1)
    ensures ReadsPreserved(AllEntries(a.version), Rest(a.version, level, inputs0, inputs1) + Entries(outputs), a.OldestSnapshot())
  {
    hide Inv, Selected, Rest, AllEntries, Entries, Obsolete, Read, Resurrects, Ordered, NothingBelow, Without, EntriesBefore, EntriesFrom;
    var x, v := StepLayers(TreeOnly(a), level, inputs0, inputs1), a.version;
    assert TreeOnly(a).MemTables() == {};
    SelectedMembers(v, level, inputs0, inputs1);
    TreeOnlyInv(a);
    SameKept(a, level, inputs0, inputs1);
    StoreIsOrdered(TreeOnly(a), level, inputs0, inputs1);
    LayersRest(v, level, inputs0, inputs1, Entries(outputs));
    CompactionPreservesReads(x, a.OldestSnapshot(), v, level);
  }

  /** If the compaction would have resurrected no key among the tables it was chosen from, every live read is kept, whatever was
      written, flushed or released meanwhile, and wherever the outputs fall. */
  lemma FinishKeepsReads(a: Store, b: Store, level: nat, inputs0: seq<FileMeta>, inputs1: seq<FileMeta>, outputs: seq<FileMeta>,
                         c: Store)
    requires Grown(a, b) && FinishStep(a, level, inputs0, inputs1, outputs, b, c)
    requires ResurrectsNothing(TreeOnly(a), level, inputs0, inputs1)
    ensures c.All() <= b.All() && ReadsPreserved(b.All(), c.All(), a.OldestSnapshot())
  {
    hide Inv, NewTable, Selected, NumberedApart, Rest, Flushed, AllEntries, Entries, KeptEntries, ReadsPreserved, ResurrectsNothing,
         Installed, SeqUnique, Above;
    var v, added := a.version, b.MemTables() + Flushed(a.version, b.version);
    var after := Rest(v, level, inputs0, inputs1) + Entries(outputs);
    AllIsUnique(b);
    TreeReadsKept(a, level, inputs0, inputs1, outputs);
    GrownEntries(a, b);
    FinishedEntries(a, b, level, inputs0, inputs1, outputs, c);
    FewerEntries(a, b, level, inputs0, inputs1, outputs, c);
    InputsAreThere(a, b, level, inputs0, inputs1);
    FewerInTree(a, level, inputs0, inputs1, outputs);
    assert b.All() == AllEntries(v) + added && c.All() == after + added;
    AboveReadsAgree(AllEntries(v), after, added, a.OldestSnapshot(), a.OldestSnapshot());
  }

  lemma FewerInTree(a: Store, level: nat, inputs0: seq<FileMeta>, inputs1: seq<FileMeta>, outputs: seq<FileMeta>)
    requires Selected(a.version, level, inputs0, inputs1) && Entries(outputs) == KeptEntries(a, level, inputs0, inputs1)
    ensures Rest(a.version, level, inputs0, inputs1) + Entries(outputs) <= AllEntries(a.version)
  {
    hide Selected, KeptEntries;
    OutputEntries(a, level, inputs0, inputs1, outputs);
    LayersAll({}, a.version, level, inputs0, inputs1);
    forall e | e in Rest(a.version, level, inputs0, inputs1) ensures e in AllEntries(a.version) {
      var l: nat, f :| l < |a.version.files| && f in a.version.files[l] && e in f.table;
      assert e in Entries(a.version.files[l]);
    }
  }
}
