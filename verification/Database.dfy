/** The database object: reads, writes, flushes, background compactions and snapshots (db/db_impl.cc). */
module Databases {
  import opened DbFormat
  import opened Reads
  import opened Files
  import opened Versions
  import opened InputSelection
  import opened Compactions
  import opened CompactionWork
  import opened GrandparentStops
  import opened Layering
  import opened InputGaps
  import opened VersionSets
  import Builders
  import opened MergeInput
  import opened Edits
  import opened Stores
  import opened StoreSafety
  import opened StoreRuns

  /** Where MemTable::Add puts an entry: SkipList::Insert into the sorted list. */
  method InsertSorted(es: seq<Entry>, e: Entry) returns (r: seq<Entry>)
    requires Sorted(es)
    requires forall f :: f in es && f.key.user == e.key.user ==> f.key.Tag() != e.key.Tag()
    ensures Sorted(r) && ToSet(r) == ToSet(es) + {e}
  {
    var n := LowerBound(es, e.key);
    LowerBoundSplits(es, e.key);
    assert forall i :: n <= i < |es| ==> es[i] in es;
    InsertedIsSorted(es, e, n);
    r := es[..n] + [e] + es[n..];
  }

  lemma InsertedIsSorted(es: seq<Entry>, e: Entry, n: nat)
    requires Sorted(es) && n <= |es|
    requires forall i :: 0 <= i < n ==> Less(es[i].key, e.key)
    requires forall i :: n <= i < |es| ==> Less(e.key, es[i].key)
    ensures Sorted(es[..n] + [e] + es[n..]) && ToSet(es[..n] + [e] + es[n..]) == ToSet(es) + {e}
  {
    hide Less, Sorted, ToSet;
    var front, back := es[..n], es[n..];
    CutSorted(es, e, n);
    JoinSorted(front, back);
    JoinSorted(front, [e]);
    JoinSorted(front + [e], back);
    assert es == front + back;
  }

  lemma CutSorted(es: seq<Entry>, e: Entry, n: nat)
    requires Sorted(es) && n <= |es|
    requires forall i :: 0 <= i < n ==> Less(es[i].key, e.key)
    requires forall i :: n <= i < |es| ==> Less(e.key, es[i].key)
    ensures Sorted(es[..n]) && Sorted([e]) && Sorted(es[n..]) && ToSet([e]) == {e}
    ensures forall x :: x in es[..n] ==> Less(x.key, e.key) && forall y :: y in es[n..] ==> Less(x.key, y.key)
    ensures forall y :: y in es[n..] ==> Less(e.key, y.key)
  {
    hide Less;
  }

  /** MemTable::Get: seek, then compare user keys. */
  method MemTableGet(es: seq<Entry>, k: UserKey, s: SequenceNumber) returns (r: Outcome)
    requires Sorted(es)
    ensures Answers(ToSet(es), k, s, r)
  {
    var n := LowerBound(es, LookupKey(k, s));
    SeekFindsNewest(es, k, s);
    if n < |es| && es[n].key.user == k {
      r := OutcomeOf(es[n]);
    } else {
      r := Missing;
    }
  }

  /** The read path of DBImpl::Get over one state: memtable, immutable memtable, files. */
  method Lookup(d: Store, k: UserKey, s: SequenceNumber) returns (r: Outcome)
    requires Inv(d)
    ensures Answers(d.All(), k, s, r)
  {
    r := MemTableGet(d.mem, k, s);
    if !r.Missing? {
      HitIn({}, ToSet(d.mem), d.Imm() + AllEntries(d.version), d.All(), k, s, r);
      return;
    }
    if d.imm.Some? {
      r := MemTableGet(d.imm.value, k, s);
      if !r.Missing? {
        HitIn(ToSet(d.mem), d.Imm(), AllEntries(d.version), d.All(), k, s, r);
        return;
      }
    }
    r := Versions.Get(d.version, k, s);
    if !r.Missing? {
      HitIn(d.MemTables(), AllEntries(d.version), {}, d.All(), k, s, r);
    }
  }

  lemma HitIn(before: set<Entry>, source: set<Entry>, behind: set<Entry>, all: set<Entry>, k: UserKey,
              s: SequenceNumber, r: Outcome)
    requires NoneVisible(before, k, s) && !r.Missing? && Answers(source, k, s, r) && Above(source, behind)
    requires all == before + source + behind
    ensures Answers(all, k, s, r)
  {
    FirstHit(before, source, behind, k, s, r);
  }

  /** WriteBatchInternal::InsertInto: insert the updates of a batch, numbered from `first` on. */
  method InsertBatch(mem: seq<Entry>, batch: seq<Update>, first: nat) returns (r: seq<Entry>)
    requires Sorted(mem) && first + |batch| <= MAX_SEQUENCE
    requires forall e :: e in mem ==> e.key.sequence < first
    ensures Sorted(r) && ToSet(r) == ToSet(mem) + ToSet(NewEntries(batch, first))
  {
    r := mem;
    ghost var all := NewEntries(batch, first);
    for i := 0 to |batch|
      invariant Sorted(r) && ToSet(r) == ToSet(mem) + ToSet(all[..i])
    {
      var e := Entry(InternalKey(batch[i].key, first + i, batch[i].kind), batch[i].value);
      assert e == all[i] && all[..i + 1] == all[..i] + [all[i]];
      forall f | f in r ensures f.key.sequence < first + i {
        assert f in ToSet(r);
        if f in ToSet(all[..i]) {
          var j :| 0 <= j < i && all[j] == f;
        }
      }
      r := InsertSorted(r, e);
    }
    assert all[..|batch|] == all;
  }

  /** What a background compaction is asked for: by scores and seeks, or by a manual request. */
  datatype Request = Automatic(choice: Choice) | Manual(level: nat, begin: Option<InternalKey>, end: Option<InternalKey>)

  /** The files that the compaction a request asks for starts from. */
  ghost predicate Starts(request: Request, v: Version, pointers: seq<Option<InternalKey>>, maxFileSize: nat, level: nat,
                         picked: seq<FileMeta>)
    requires LegalRequest(request, v) && |v.files| == |pointers| == NUM_LEVELS
  {
    match request
    case Manual(l, begin, end) => level == l && TakesRange(l, v.files[l], UserOf(begin), UserOf(end), maxFileSize, picked)
    case Automatic(SizeCompaction(l)) =>
      level == l && exists file :: IsNextFile(v.files[l], pointers[l], file) && TakesFile(l, v.files[l], file, picked) && file in picked
    case Automatic(SeekCompaction(l, file)) => level == l && TakesFile(l, v.files[l], file, picked) && file in picked
    case Automatic(NoCompaction) => false
  }

  /** The inputs of the compaction that a request asks for. */
  ghost predicate Chosen(request: Request, v: Version, pointers: seq<Option<InternalKey>>, maxFileSize: nat, level: nat,
                         inputs0: seq<FileMeta>, inputs1: seq<FileMeta>)
    requires LegalRequest(request, v) && |v.files| == |pointers| == NUM_LEVELS
  {
    level + 1 < NUM_LEVELS &&
    exists picked :: Starts(request, v, pointers, maxFileSize, level, picked) && AllIn(picked, inputs0) &&
                     IsSetUp(v, level, maxFileSize, picked, inputs0, inputs1)
  }

  predicate NothingToDo(request: Request, v: Version)
    requires LegalRequest(request, v) && |v.files| == NUM_LEVELS
  {
    match request
    case Manual(l, begin, end) => forall f :: f in v.files[l] ==> !Overlaps(f, UserOf(begin), UserOf(end))
    case Automatic(choice) => choice.NoCompaction?
  }

  /** A lone file with no parents and few grandparents is moved down, unless the compaction is a manual one. */
  ghost predicate Moves(request: Request, v: Version, level: nat, inputs0: seq<FileMeta>, inputs1: seq<FileMeta>, maxFileSize: nat)
  {
    request.Automatic? && |inputs0| == 1 && |inputs1| == 0 && FewBelow(v, level, inputs0, inputs1, maxFileSize)
  }

  ghost predicate FewBelow(v: Version, level: nat, inputs0: seq<FileMeta>, inputs1: seq<FileMeta>, maxFileSize: nat) {
    TotalFileSize(GrandparentsOf(v, level, inputs0, inputs1)) <= 10 * maxFileSize
  }

  /** The tables are cut at the stops that the compaction's own grandparents and entries make. */
  ghost predicate CutForGrandparents(v: Version, level: nat, inputs0: seq<FileMeta>, inputs1: seq<FileMeta>, outputs: seq<FileMeta>,
                                     flushedSize: seq<Entry> -> nat, maxFileSize: nat)
  {
    exists merged :: Sorted(merged) && ToSet(merged) == Entries(inputs0) + Entries(inputs1) &&
      CutAtStops(outputs, GrandparentsOf(v, level, inputs0, inputs1), merged, flushedSize, maxFileSize)
  }

  /** One round of compaction: nothing, a move, or a merge whose tables are cut by their size. */
  ghost predicate IsRound(request: Request, v: Version, pointers: seq<Option<InternalKey>>, maxFileSize: nat,
                          flushedSize: seq<Entry> -> nat, finishedSize: seq<Entry> -> nat, step: Option<Step>)
    requires LegalRequest(request, v) && |v.files| == |pointers| == NUM_LEVELS
  {
    if step.None? then NothingToDo(request, v)
    else
      match step.value
      case TrivialMove(level, file) =>
        Chosen(request, v, pointers, maxFileSize, level, [file], []) && Moves(request, v, level, [file], [], maxFileSize)
      case Compact(level, inputs0, inputs1, outputs) =>
        && Chosen(request, v, pointers, maxFileSize, level, inputs0, inputs1)
        && !Moves(request, v, level, inputs0, inputs1, maxFileSize)
        && (request.Automatic? ==> GapFree(inputs0 + inputs1))
        && ClosedAtLimit(outputs, flushedSize, finishedSize, maxFileSize)
        && CutForGrandparents(v, level, inputs0, inputs1, outputs, flushedSize, maxFileSize)
        && (FewBelow(v, level, inputs0, inputs1, maxFileSize) ==> FullButLast(outputs, flushedSize, maxFileSize))
      case _ => false
  }

  class Database {
    const versions: VersionSet
    var mem: seq<Entry>
    var imm: Option<seq<Entry>>
    var snapshots: seq<SequenceNumber>
    ghost var history: set<Entry>

    ghost function State(): Store
      reads this, versions
    {
      Store(mem, imm, versions.current, snapshots, versions.lastSequence, versions.nextFileNumber)
    }

    ghost predicate Valid()
      reads this, versions
    {
      versions.Valid() && Inv(State())
    }

    constructor (maxFileSize: nat, nextFileNumber: nat)
      ensures Valid() && fresh(versions) && Init(State()) && history == {}
      ensures versions.maxFileSize == maxFileSize && versions.nextFileNumber == nextFileNumber
    {
      versions := new VersionSet(maxFileSize, nextFileNumber);
      mem, imm, snapshots, history := [], None, [], {};
      new;
      InitHolds(State());
    }

    /** The database that recovery has put together. */
    constructor Recovered (maxFileSize: nat, d: Store, ghost history: set<Entry>)
      requires Inv(d)
      ensures Valid() && fresh(versions) && State() == d && this.history == history && versions.maxFileSize == maxFileSize
    {
      versions := new VersionSet(maxFileSize, d.nextFile);
      mem, imm, snapshots, this.history := d.mem, d.imm, d.snapshots, history;
      new;
      versions.current, versions.lastSequence := d.version, d.lastSequence;
    }

    /** The part of DBImpl::Write that logs aside: number the batch, insert it, publish its last sequence. */
    method Write(batch: seq<Update>)
      requires Valid() && versions.lastSequence + |batch| < MAX_SEQUENCE
      modifies this`mem, this`history, versions`lastSequence
      ensures Valid() && Next(old(State()), Step.Write(batch), State())
      ensures history == Record(old(history), old(State()), Step.Write(batch))
    {
      ghost var before := State();
      MemBelowLast(before);
      mem := InsertBatch(mem, batch, versions.lastSequence + 1);
      versions.lastSequence := versions.lastSequence + |batch|;
      history := Record(history, before, Step.Write(batch));
      StepKeepsInv(before, Step.Write(batch), State());
    }

    /** VersionSet::NewFileNumber, for a log. */
    method NewFileNumber() returns (number: nat)
      requires Valid()
      modifies versions`nextFileNumber
      ensures Valid() && number == old(versions.nextFileNumber) && State() == old(State()).(nextFile := number + 1)
    {
      number := versions.nextFileNumber;
      versions.nextFileNumber := number + 1;
    }

    /** The last branch of MakeRoomForWrite: the full memtable becomes immutable. */
    method SwitchMemTable()
      requires Valid() && imm.None?
      modifies this`mem, this`imm
      ensures Valid() && Next(old(State()), Step.SwitchMemTable, State())
    {
      ghost var before := State();
      mem, imm := [], Some(mem);
      StepKeepsInv(before, Step.SwitchMemTable, State());
    }

    /** DBImpl::Get: the newest entry of the key that the snapshot may see, over all writes ever made. */
    method Get(k: UserKey, s: SequenceNumber) returns (r: Option<Value>)
      requires Valid()
      ensures r == Read(State().All(), k, s)
      ensures Coherent(State(), history) && State().OldestSnapshot() <= s ==> r == Read(history, k, s)
    {
      var outcome := Lookup(Store(mem, imm, versions.current, snapshots, versions.lastSequence, versions.nextFileNumber),
                            k, s);
      AllSeqUnique(State());
      AnswersRead(State().All(), k, s, outcome);
      r := outcome.ToRead();
    }

    method GetSnapshot() returns (s: SequenceNumber)
      requires Valid()
      modifies this`snapshots
      ensures Valid() && Next(old(State()), NewSnapshot, State())
      ensures s == versions.lastSequence
    {
      ghost var before := State();
      s := versions.lastSequence;
      snapshots := snapshots + [s];
      StepKeepsInv(before, NewSnapshot, State());
    }

    method ReleaseSnapshot(i: nat)
      requires Valid() && i < |snapshots|
      modifies this`snapshots
      ensures Valid() && Next(old(State()), Step.ReleaseSnapshot(i), State())
    {
      ghost var before := State();
      snapshots := snapshots[..i] + snapshots[i + 1..];
      StepKeepsInv(before, Step.ReleaseSnapshot(i), State());
    }

    /** Turn the immutable memtable into a table as deep as it may go. */
    method CompactMemTable(fileSize: nat) returns (level: nat)
      requires Valid() && imm.Some?
      modifies this`imm, versions`current, versions`nextFileNumber
      ensures Valid() && Next(old(State()), Flush(level, fileSize), State())
      ensures var es := old(imm).value;
              es != [] ==> IsMemTableLevel(old(versions.current), es[0].key.user, es[|es| - 1].key.user,
                                           versions.maxFileSize, level)
    {
      hide Inv, Layered, Sorted, Builders.IsFold, AddedAt, NumbersAllocated, MeetsLevel;
      ghost var before := State();
      var es := imm.value;
      level := 0;
      TreeWellFormed(before);
      if es != [] {
        var f := FileMeta(versions.nextFileNumber, fileSize, es[0].key, es[|es| - 1].key, es);
        level := PickLevelForMemTableOutput(versions.current, es[0].key.user, es[|es| - 1].key.user, versions.maxFileSize);
        var edit := Builders.VersionEdit({}, AdditionsAt([f], level));
        FlushEditApplies(versions.current, versions.nextFileNumber, f, level);
        versions.LogAndApply(edit);
        FoldAdds(before.version, versions.current, level, f);
      }
      versions.nextFileNumber := versions.nextFileNumber + 1;
      imm := None;
      StepKeepsInv(before, Flush(level, fileSize), State());
      TreeWellFormed(State());
    }

    /** One round of background work: flush, or move a file down, or run a compaction. */
    method BackgroundCompaction(request: Request, fileSize: nat, flushedSize: seq<Entry> -> nat,
                                finishedSize: seq<Entry> -> nat) returns (step: Option<Step>)
      requires Valid() && LegalRequest(request, versions.current)
      modifies this`imm, versions
      ensures Valid()
      ensures step.None? ==> State() == old(State())
      ensures step.Some? ==> Next(old(State()), step.value, State())
      ensures old(imm).Some? ==> step.Some? && step.value.Flush? && step.value.fileSize == fileSize
      ensures old(imm).Some? && old(imm).value != [] ==>
                IsMemTableLevel(old(versions.current), old(imm).value[0].key.user, old(imm).value[|old(imm).value| - 1].key.user,
                                versions.maxFileSize, step.value.level)
      ensures old(imm).None? ==> IsRound(request, old(versions.current), old(versions.compactPointer), versions.maxFileSize,
                                         flushedSize, finishedSize, step)
    {
      if imm.Some? {
        var level := CompactMemTable(fileSize);
        return Some(Flush(level, fileSize));
      }
      step := CompactionRound(request, flushedSize, finishedSize);
    }

    /** PickCompaction or CompactRange, as the request has it. */
    method ChooseCompaction(request: Request) returns (c: Compaction?)
      requires Valid() && LegalRequest(request, versions.current)
      modifies versions`compactPointer
      ensures Valid()
      ensures c == null <==> NothingToDo(request, versions.current)
      ensures c != null ==> versions.Ready(c) && fresh(c) && fresh(c.levelPtrs)
      ensures c != null ==> Chosen(request, versions.current, old(versions.compactPointer), versions.maxFileSize, c.level, c.inputs0, c.inputs1)
      ensures c != null && request.Automatic? ==> GapFree(c.inputs0 + c.inputs1)
    {
      hide Inv, TakesRange, TakesFile, IsSetUp, IsNextFile, Compaction.IsSelected, GapFree;
      TreeFacts(State());
      if request.Manual? {
        c := versions.CompactRange(request.level, request.begin, request.end);
      } else {
        c := versions.PickCompaction(request.choice);
      }
    }

    method CompactionRound(request: Request, flushedSize: seq<Entry> -> nat, finishedSize: seq<Entry> -> nat)
      returns (step: Option<Step>)
      requires Valid() && LegalRequest(request, versions.current) && imm.None?
      modifies versions
      ensures Valid()
      ensures step.None? ==> State() == old(State())
      ensures step.Some? ==> Next(old(State()), step.value, State())
      ensures IsRound(request, old(versions.current), old(versions.compactPointer), versions.maxFileSize, flushedSize, finishedSize, step)
    {
      hide CutForGrandparents, Inv, Chosen, NothingToDo, Next, Compaction.IsSelected, LegalRequest, ClosedAtLimit, FullButLast, GapFree;
      var c := ChooseCompaction(request);
      if c == null {
        return None;
      }
      if request.Automatic? && c.IsTrivialMove() {
        var file := c.inputs0[0];
        assert c.inputs0 == [file] && c.inputs1 == [];
        MoveDown(c.level, file, c);
        return Some(TrivialMove(c.level, file));
      }
      var outputs := RunCompaction(c, flushedSize, finishedSize);
      return Some(Compact(c.level, c.inputs0, c.inputs1, outputs));
    }

    method MoveDown(level: nat, file: FileMeta, c: Compaction)
      requires Valid() && versions.Ready(c) && c.level == level && c.inputs0 == [file] && c.inputs1 == []
      modifies versions`current
      ensures Valid() && Next(old(State()), TrivialMove(level, file), State())
    {
      hide Inv, CleanlyPicked, ParentsOf, Installed, GrandparentsOf;
      ghost var before := State();
      TreeFacts(before);
      var edit := Builders.VersionEdit(DeletionsAt([file], level) + DeletionsAt([], level + 1), AdditionsAt([file], level + 1));
      MoveEditApplies(versions.current, versions.nextFileNumber, file, level);
      versions.LogAndApply(edit);
      SelectedMembers(before.version, level, [file], []);
      FoldInstalls(before.version, versions.current, before.nextFile, level, [file], [], [file]);
      StepKeepsInv(before, TrivialMove(level, file), State());
      TreeFacts(State());
    }

    /** Merge the inputs and write the entries that must be kept into new tables. */
    method CompactTables(c: Compaction, flushedSize: seq<Entry> -> nat, finishedSize: seq<Entry> -> nat)
      returns (outputs: seq<FileMeta>)
      requires Valid() && versions.Ready(c)
      modifies c`grandparentIndex, c`seenKey, c`overlappedBytes, c.levelPtrs
      ensures ValidFiles(outputs) && Disjoint(outputs) && NumberedFrom(outputs, versions.nextFileNumber)
      ensures Entries(outputs) == KeptEntries(State(), c.level, c.inputs0, c.inputs1)
      ensures ClosedAtLimit(outputs, flushedSize, finishedSize, c.maxFileSize)
      ensures CutForGrandparents(versions.current, c.level, c.inputs0, c.inputs1, outputs, flushedSize, c.maxFileSize)
      ensures c.FewGrandparents() ==> FullButLast(outputs, flushedSize, c.maxFileSize)
    {
      hide CutAtStops, Ascending, GrandparentsOf, Inv, Layered, WellFormed, CleanlyPicked, ParentsOf, SeqUnique, AllEntries, ValidFiles, Disjoint, NumberedFrom,
           Entries, Sorted, NumbersAllocated;
      var smallestSnapshot := if snapshots == [] then versions.lastSequence else snapshots[0];
      TreeFacts(State());
      GrandparentsAscend(versions.current, c.level, c.inputs0, c.inputs1);
      var input := MakeInputIterator(versions.current, c.level, c.inputs0, c.inputs1);
      var nextNumber;
      outputs, nextNumber := DoCompactionWork(c, input, smallestSnapshot, flushedSize, finishedSize,
                                              versions.nextFileNumber);
      OutputsAreKept(versions.current, c.level, c.inputs0, c.inputs1, input.merged, smallestSnapshot, outputs, State());
    }

    method InstallCompactionResults(level: nat, inputs0: seq<FileMeta>, inputs1: seq<FileMeta>, outputs: seq<FileMeta>)
      requires Valid() && Selected(versions.current, level, inputs0, inputs1)
      requires NumberedFrom(outputs, versions.nextFileNumber)
      modifies versions`current, versions`nextFileNumber
      ensures Installed(old(versions.current), versions.current, level, inputs0, inputs1, outputs)
      ensures versions.nextFileNumber == old(versions.nextFileNumber) + |outputs|
    {
      hide Inv, Layered, CleanlyPicked, ParentsOf, SeqUnique, AllEntries, NumberedFrom, NumbersAllocated, Installed;
      ghost var before := State();
      TreeFacts(before);
      var edit := CompactionEdit(level, inputs0, inputs1, outputs);
      CompactionEditApplies(versions.current, versions.nextFileNumber, edit, outputs, level);
      versions.LogAndApply(edit);
      versions.nextFileNumber := versions.nextFileNumber + |outputs|;
      SelectedMembers(before.version, level, inputs0, inputs1);
      FoldInstalls(before.version, versions.current, before.nextFile, level, inputs0, inputs1, outputs);
    }

    /** DoCompactionWork and InstallCompactionResults as one step. */
    method RunCompaction(c: Compaction, flushedSize: seq<Entry> -> nat, finishedSize: seq<Entry> -> nat)
      returns (outputs: seq<FileMeta>)
      requires Valid() && versions.Ready(c)
      modifies versions`current, versions`nextFileNumber, c`grandparentIndex, c`seenKey, c`overlappedBytes, c.levelPtrs
      ensures Valid() && Next(old(State()), Compact(c.level, c.inputs0, c.inputs1, outputs), State())
      ensures ClosedAtLimit(outputs, flushedSize, finishedSize, c.maxFileSize)
      ensures CutForGrandparents(old(versions.current), c.level, c.inputs0, c.inputs1, outputs, flushedSize, c.maxFileSize)
      ensures c.FewGrandparents() ==> FullButLast(outputs, flushedSize, c.maxFileSize)
    {
      hide CutForGrandparents, Inv, Selected, ValidFiles, Disjoint, NumberedFrom, Entries, Installed, KeptEntries;
      ghost var before := State();
      var level, inputs0, inputs1 := c.level, c.inputs0, c.inputs1;
      outputs := CompactTables(c, flushedSize, finishedSize);
      InstallCompactionResults(level, inputs0, inputs1, outputs);
      TreeFacts(before);
      StepKeepsInv(before, Compact(level, inputs0, inputs1, outputs), State());
      TreeFacts(State());
    }
  }

  /** A size compaction needs files at its level, a seek compaction a file of it; the last level is never asked. */
  predicate LegalRequest(request: Request, v: Version)
  {
    match request
    case Manual(level, _, _) => level + 1 < NUM_LEVELS
    case Automatic(SizeCompaction(level)) => level + 1 < NUM_LEVELS && level < |v.files| && v.files[level] != []
    case Automatic(SeekCompaction(level, file)) => level + 1 < NUM_LEVELS && level < |v.files| && file in v.files[level]
    case Automatic(NoCompaction) => true
  }

  /** Files of one level that meet a range are neighbours, so their largest keys ascend. */
  lemma GrandparentsAscend(v: Version, level: nat, inputs0: seq<FileMeta>, inputs1: seq<FileMeta>)
    requires Selected(v, level, inputs0, inputs1)
    ensures Ascending(GrandparentsOf(v, level, inputs0, inputs1))
  {
    hide CleanlyPicked, ParentsOf;
    var inputs := inputs0 + inputs1;
    if inputs != [] && level + 2 < |v.files| {
      var files := v.files[level + 2];
      var i, j := OverlappingIsSlice(files, Some(LowUser(inputs)), Some(HighUser(inputs)));
      forall a, b | i <= a < b < j ensures Less(files[a].largest, files[b].largest) {
        LargestAscends(files, a, b);
      }
    }
  }

  lemma MemBelowLast(d: Store)
    requires Inv(d)
    ensures Sorted(d.mem) && forall e :: e in d.mem ==> e.key.sequence < d.lastSequence + 1
  {
    assert forall e :: e in d.mem ==> e in ToSet(d.mem);
  }

  lemma AllSeqUnique(d: Store)
    requires Inv(d)
    ensures SeqUnique(d.All())
  {
  }

  lemma TreeWellFormed(d: Store)
    requires Inv(d)
    ensures WellFormed(d.version) && NumbersAllocated(d.version, d.nextFile)
  {
  }

  lemma TreeFacts(d: Store)
    requires Inv(d)
    ensures WellFormed(d.version) && Layered(d.version) && NumbersAllocated(d.version, d.nextFile)
    ensures SeqUnique(AllEntries(d.version))
    ensures d.OldestSnapshot() < MAX_SEQUENCE
  {
    SplitMemTables(ToSet(d.mem), d.Imm(), AllEntries(d.version), d.lastSequence);
    assert d.snapshots != [] ==> d.snapshots[0] in d.snapshots;
  }

  lemma FlushEditApplies(v: Version, nextFile: nat, f: FileMeta, level: nat)
    requires |v.files| == NUM_LEVELS && level < NUM_LEVELS && NumbersAllocated(v, nextFile) && f.number == nextFile
    ensures Builders.EditsApply(v, [Builders.VersionEdit({}, AdditionsAt([f], level))])
  {
    assert forall g :: g in v.files[level] ==> HasFile(v, level, g);
    AdditionsApply(v, Builders.VersionEdit({}, AdditionsAt([f], level)), [f], level);
  }

  lemma MoveEditApplies(v: Version, nextFile: nat, file: FileMeta, level: nat)
    requires Selected(v, level, [file], []) && NumbersAllocated(v, nextFile)
    ensures Builders.EditsApply(v, [CompactionEdit(level, [file], [], [file])])
  {
    SelectedMembers(v, level, [file], []);
    assert ([file])[0] == file && HasFile(v, level, file);
    var below := level + 1;
    assert forall g :: g in v.files[below] ==> HasFile(v, below, g);
    AdditionsApply(v, CompactionEdit(level, [file], [], [file]), [file], level + 1);
  }

  lemma CompactionEditApplies(v: Version, nextFile: nat, edit: Builders.VersionEdit, outputs: seq<FileMeta>, level: nat)
    requires |v.files| == NUM_LEVELS && level + 1 < NUM_LEVELS && NumbersAllocated(v, nextFile)
    requires edit.newFiles == AdditionsAt(outputs, level + 1) && NumberedFrom(outputs, nextFile)
    ensures Builders.EditsApply(v, [edit])
  {
    var below := level + 1;
    assert forall g :: g in v.files[below] ==> HasFile(v, below, g);
    forall f | f in outputs ensures f.number >= nextFile {
      var i :| 0 <= i < |outputs| && outputs[i] == f;
    }
    forall f, g | f in outputs && g in outputs && f.number == g.number ensures f == g {
      var i :| 0 <= i < |outputs| && outputs[i] == f;
      var j :| 0 <= j < |outputs| && outputs[j] == g;
    }
    AdditionsApply(v, edit, outputs, level + 1);
  }
}
