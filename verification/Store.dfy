/** The store as a state machine: writes, memtable switches and flushes, moves, compactions, snapshots
    (db/db_impl.cc). */
module Stores {
  import opened DbFormat
  import opened Reads
  import opened Files
  import opened Versions
  import opened InputSelection
  import opened Compactions
  import opened CompactionWork
  import opened CompactionSafety
  import opened Layering

  datatype Store = Store(mem: seq<Entry>, imm: Option<seq<Entry>>, version: Version,
                         snapshots: seq<SequenceNumber>, lastSequence: SequenceNumber, nextFile: nat) {
    ghost function Imm(): set<Entry> {
      if imm.Some? then ToSet(imm.value) else {}
    }

    ghost function MemTables(): set<Entry> {
      ToSet(mem) + Imm()
    }

    ghost function All(): set<Entry> {
      MemTables() + AllEntries(version)
    }

    /** The oldest sequence number anyone may still read at. */
    function OldestSnapshot(): SequenceNumber {
      if snapshots == [] then lastSequence else snapshots[0]
    }
  }

  datatype Update = Update(kind: ValueType, key: UserKey, value: Value)

  datatype Step =
    | Write(batch: seq<Update>)
    | SwitchMemTable
    | Flush(level: nat, fileSize: nat)
    | TrivialMove(level: nat, file: FileMeta)
    | Compact(level: nat, inputs0: seq<FileMeta>, inputs1: seq<FileMeta>, outputs: seq<FileMeta>)
    | NewSnapshot
    | ReleaseSnapshot(index: nat)

  /** The entries of a batch, numbered from `first` on (MemTableInserter). */
  function NewEntries(batch: seq<Update>, first: nat): seq<Entry>
    requires first + |batch| <= MAX_SEQUENCE
  {
    seq(|batch|, i requires 0 <= i < |batch| =>
          Entry(InternalKey(batch[i].key, first + i, batch[i].kind), batch[i].value))
  }

  ghost predicate SequencesUpTo(es: set<Entry>, last: SequenceNumber) {
    forall e :: e in es ==> e.key.sequence <= last
  }

  ghost predicate HasFile(v: Version, l: int, f: FileMeta) {
    0 <= l < |v.files| && f in v.files[l]
  }

  /** Table numbers are allocated once: below the counter, and no two files of a version share one. */
  ghost predicate NumbersAllocated(v: Version, nextFile: nat) {
    && (forall l, f {:trigger HasFile(v, l, f)} :: HasFile(v, l, f) ==> f.number < nextFile)
    && forall l, m, f, g {:trigger HasFile(v, l, f), HasFile(v, m, g)} ::
         HasFile(v, l, f) && HasFile(v, m, g) && f.number == g.number ==> l == m && f == g
  }

  ghost predicate SnapshotsAscend(snapshots: seq<SequenceNumber>, last: SequenceNumber) {
    && (forall i, j :: 0 <= i < j < |snapshots| ==> snapshots[i] <= snapshots[j])
    && (forall s :: s in snapshots ==> s <= last)
  }

  /** Memtable over immutable memtable over files, each newer than what is behind it. */
  ghost predicate SourcesOrdered(mem: set<Entry>, imm: set<Entry>, tree: set<Entry>, last: SequenceNumber) {
    && SeqUnique(mem + imm + tree) && SequencesUpTo(mem + imm + tree, last)
    && Above(mem, imm + tree) && Above(imm, tree)
  }

  ghost predicate TreeInv(v: Version, nextFile: nat) {
    WellFormed(v) && Layered(v) && NumbersAllocated(v, nextFile)
  }

  ghost predicate Inv(d: Store) {
    && TreeInv(d.version, d.nextFile)
    && Sorted(d.mem) && (d.imm.Some? ==> Sorted(d.imm.value))
    && SourcesOrdered(ToSet(d.mem), d.Imm(), AllEntries(d.version), d.lastSequence)
    && SnapshotsAscend(d.snapshots, d.lastSequence)
    && d.lastSequence < MAX_SEQUENCE
  }

  /** Every read anyone may still make gives what the history of all writes says. */
  ghost predicate Coherent(d: Store, history: set<Entry>) {
    && d.All() <= history
    && SeqUnique(history) && SequencesUpTo(history, d.lastSequence)
    && ReadsPreserved(history, d.All(), d.OldestSnapshot())
  }

  ghost predicate EmptyVersion(v: Version) {
    |v.files| == NUM_LEVELS && forall l :: 0 <= l < NUM_LEVELS ==> v.files[l] == []
  }

  ghost predicate Init(d: Store) {
    && d.mem == [] && d.imm == None && EmptyVersion(d.version)
    && d.snapshots == [] && d.lastSequence == 0
  }

  /** `w` is `v` with one more file at `level`. */
  ghost predicate AddedAt(v: Version, w: Version, level: nat, f: FileMeta)
    requires |v.files| == NUM_LEVELS
  {
    && |w.files| == NUM_LEVELS
    && (forall l :: 0 <= l < NUM_LEVELS ==> SortedBySmallest(w.files[l]))
    && forall l, g :: 0 <= l < NUM_LEVELS ==> (g in w.files[l] <==> g in v.files[l] || (l == level && g == f))
  }

  ghost predicate WriteStep(a: Store, batch: seq<Update>, b: Store) {
    && a.lastSequence + |batch| < MAX_SEQUENCE
    && Sorted(b.mem)
    && ToSet(b.mem) == ToSet(a.mem) + ToSet(NewEntries(batch, a.lastSequence + 1))
    && b == a.(mem := b.mem, lastSequence := a.lastSequence + |batch|)
  }

  /** No file of levels 0 to `level` meets the user-key range. */
  ghost predicate ClearDownTo(v: Version, level: nat, lo: UserKey, hi: UserKey)
    requires |v.files| == NUM_LEVELS && level < NUM_LEVELS
  {
    forall l :: 0 <= l <= level ==> !MeetsLevel(v, l, lo, hi)
  }

  ghost predicate FlushStep(a: Store, level: nat, fileSize: nat, b: Store)
    requires WellFormed(a.version)
  {
    && a.imm.Some?
    && b == a.(imm := None, version := b.version, nextFile := a.nextFile + 1)
    && var es := a.imm.value;
       if es == [] then b.version == a.version
       else
         && level < NUM_LEVELS
         && (level > 0 ==> ClearDownTo(a.version, level, es[0].key.user, es[|es| - 1].key.user))
         && AddedAt(a.version, b.version, level, FileMeta(a.nextFile, fileSize, es[0].key, es[|es| - 1].key, es))
  }

  ghost predicate MoveStep(a: Store, level: nat, file: FileMeta, b: Store) {
    && Selected(a.version, level, [file], [])
    && Installed(a.version, b.version, level, [file], [], [file])
    && b == a.(version := b.version)
  }

  /** The input entries a compaction must keep. */
  ghost function KeptEntries(a: Store, level: nat, inputs0: seq<FileMeta>, inputs1: seq<FileMeta>): set<Entry>
    requires Selected(a.version, level, inputs0, inputs1)
  {
    Kept(LayersOf(a.MemTables(), a.version, level, inputs0, inputs1), a.OldestSnapshot(), a.version, level)
  }

  ghost predicate CompactStep(a: Store, level: nat, inputs0: seq<FileMeta>, inputs1: seq<FileMeta>,
                              outputs: seq<FileMeta>, b: Store) {
    && Selected(a.version, level, inputs0, inputs1)
    && ValidFiles(outputs) && Disjoint(outputs) && NumberedFrom(outputs, a.nextFile)
    && Entries(outputs) == KeptEntries(a, level, inputs0, inputs1)
    && Installed(a.version, b.version, level, inputs0, inputs1, outputs)
    && b == a.(version := b.version, nextFile := a.nextFile + |outputs|)
  }

  ghost predicate Next(a: Store, step: Step, b: Store)
    requires WellFormed(a.version)
  {
    match step
    case Write(batch) => WriteStep(a, batch, b)
    case SwitchMemTable => a.imm.None? && b == a.(mem := [], imm := Some(a.mem))
    case Flush(level, fileSize) => FlushStep(a, level, fileSize, b)
    case TrivialMove(level, file) => MoveStep(a, level, file, b)
    case Compact(level, inputs0, inputs1, outputs) => CompactStep(a, level, inputs0, inputs1, outputs, b)
    case NewSnapshot => b == a.(snapshots := a.snapshots + [a.lastSequence])
    case ReleaseSnapshot(i) =>
      i < |a.snapshots| && b == a.(snapshots := a.snapshots[..i] + a.snapshots[i + 1..])
  }

  /** The history after a step: writes extend it, everything else leaves it alone. */
  ghost function Record(history: set<Entry>, a: Store, step: Step): set<Entry> {
    if step.Write? && a.lastSequence + |step.batch| < MAX_SEQUENCE
    then history + ToSet(NewEntries(step.batch, a.lastSequence + 1))
    else history
  }

  lemma EmptyTree(v: Version, nextFile: nat)
    requires EmptyVersion(v)
    ensures TreeInv(v, nextFile) && AllEntries(v) == {}
  {
    assert forall l :: 0 <= l < NUM_LEVELS ==> Entries(v.files[l]) == {};
  }

  lemma InitHolds(d: Store)
    requires Init(d)
    ensures Inv(d) && Coherent(d, {})
  {
    hide WellFormed, Layered, AllEntries, Read;
    EmptyTree(d.version, d.nextFile);
    assert d.All() == {};
  }

  // ----- Every step keeps the invariant -----

  lemma NewEntriesFacts(batch: seq<Update>, last: SequenceNumber)
    requires last + |batch| < MAX_SEQUENCE
    ensures var added := ToSet(NewEntries(batch, last + 1));
            && SeqUnique(added)
            && forall e :: e in added ==> last < e.key.sequence <= last + |batch|
  {
  }

  lemma AddingKeepsOrder(mem: set<Entry>, imm: set<Entry>, tree: set<Entry>, last: SequenceNumber,
                         added: set<Entry>, newLast: SequenceNumber)
    requires SourcesOrdered(mem, imm, tree, last)
    requires SeqUnique(added) && forall e :: e in added ==> last < e.key.sequence <= newLast
    requires last <= newLast
    ensures SourcesOrdered(mem + added, imm, tree, newLast)
  {
    assert forall e :: e in mem + added + imm + tree ==> e in mem + imm + tree || e in added;
  }

  lemma WriteKeepsInv(a: Store, batch: seq<Update>, b: Store)
    requires Inv(a) && WriteStep(a, batch, b)
    ensures Inv(b)
    ensures b.All() == a.All() + ToSet(NewEntries(batch, a.lastSequence + 1))
  {
    hide TreeInv, Above, SeqUnique, Sorted, AllEntries, SourcesOrdered, ToSet;
    var added := ToSet(NewEntries(batch, a.lastSequence + 1));
    NewEntriesFacts(batch, a.lastSequence);
    AddingKeepsOrder(ToSet(a.mem), a.Imm(), AllEntries(a.version), a.lastSequence, added, b.lastSequence);
  }

  lemma SwitchKeepsInv(a: Store, b: Store)
    requires Inv(a) && Next(a, SwitchMemTable, b)
    ensures Inv(b) && b.All() == a.All()
  {
    hide TreeInv, AllEntries;
    assert ToSet(b.mem) == {} && a.Imm() == {};
    assert {} + ToSet(a.mem) + AllEntries(a.version) == ToSet(a.mem) + {} + AllEntries(a.version);
  }

  lemma SnapshotKeepsInv(a: Store, b: Store)
    requires Inv(a) && Next(a, NewSnapshot, b)
    ensures Inv(b) && b.All() == a.All() && a.OldestSnapshot() <= b.OldestSnapshot()
  {
    hide TreeInv, AllEntries, SourcesOrdered, Sorted;
    var n := |a.snapshots|;
    assert forall i :: 0 <= i < n ==> a.snapshots[i] in a.snapshots && b.snapshots[i] == a.snapshots[i];
    assert b.snapshots[n] == a.lastSequence;
  }

  /** The other snapshots still ascend, and the oldest is no older. */
  lemma WithoutSnapshot(snapshots: seq<SequenceNumber>, i: nat, last: SequenceNumber)
    requires SnapshotsAscend(snapshots, last) && i < |snapshots|
    ensures var after := snapshots[..i] + snapshots[i + 1..];
      SnapshotsAscend(after, last) && snapshots[0] <= if after == [] then last else after[0]
  {
    var after := snapshots[..i] + snapshots[i + 1..];
    assert forall j :: 0 <= j < |after| ==> after[j] == snapshots[if j < i then j else j + 1];
    assert forall j :: 0 <= j < |snapshots| ==> snapshots[j] in snapshots;
    forall s | s in after ensures s <= last {
      var j :| 0 <= j < |after| && after[j] == s;
    }
  }

  lemma ReleaseKeepsInv(a: Store, i: nat, b: Store)
    requires Inv(a) && Next(a, ReleaseSnapshot(i), b)
    ensures Inv(b) && b.All() == a.All() && a.OldestSnapshot() <= b.OldestSnapshot()
  {
    hide TreeInv, AllEntries, SourcesOrdered, Sorted, SnapshotsAscend;
    WithoutSnapshot(a.snapshots, i, a.lastSequence);
  }
}
