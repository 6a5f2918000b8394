/** What a crash leaves of the store: the tables the manifest names and the logs behind it (db/db_impl.cc). */
module CrashSafety {
  import opened DbFormat
  import opened Reads
  import opened Files
  import opened Versions
  import opened Compactions
  import opened CompactionSafety
  import opened Layering
  import opened Stores
  import opened StoreSafety
  import opened StoreRuns
  import opened Recovery

  /** A log file: its number, the last sequence number before it, and the batches logged. */
  datatype LogFile = LogFile(number: nat, start: nat, batches: seq<Batch>) {
    ghost predicate Ok() {
      Committed(start, batches) && Last() < MAX_SEQUENCE
    }

    /** The last sequence number in it. */
    function Last(): nat {
      LastOf(start, batches)
    }

    /** What its first `n` batches wrote. */
    ghost function Wrote(n: nat): set<Entry>
      requires Ok() && n <= |batches|
    {
      CommittedPrefix(start, batches, n);
      Recovery.History(start, batches[..n])
    }

    ghost function All(): set<Entry>
      requires Ok()
    {
      Wrote(|batches|)
    }
  }

  /** The log of the memtable, and that of the immutable one until it is deleted. */
  datatype Logs = Logs(imm: Option<LogFile>, mem: LogFile) {
    ghost predicate Ok() {
      && mem.Ok()
      && (imm.Some? ==> imm.value.Ok() && imm.value.Last() == mem.start && imm.value.number < mem.number)
    }
  }

  /** A version as a manifest record describes it: its tables hold what is left of `flushed`; logs from `logNumber` on
      have the rest; `last` and `nextFile` are the record's counters. */
  datatype Tree = Tree(version: Version, flushed: set<Entry>, logNumber: nat, last: SequenceNumber, nextFile: nat) {
    predicate Needs(logs: Logs) {
      logs.imm.Some? && logs.imm.value.number >= logNumber
    }

    /** The last sequence number before the logs it needs. */
    function Base(logs: Logs): nat {
      if Needs(logs) then logs.imm.value.start else logs.mem.start
    }

    /** What those logs hold up to some batch of each. */
    ghost function Logged(logs: Logs, i: nat, m: nat): set<Entry>
      requires logs.Ok() && m <= |logs.mem.batches| && (Needs(logs) ==> i <= |logs.imm.value.batches|)
    {
      (if Needs(logs) then logs.imm.value.Wrote(i) else {}) + logs.mem.Wrote(m)
    }

    ghost function AllLogged(logs: Logs): set<Entry>
      requires logs.Ok()
    {
      Logged(logs, if Needs(logs) then |logs.imm.value.batches| else 0, |logs.mem.batches|)
    }
  }

  /** Tables and logs together have the whole history, and if no compaction resurrected a key, the tables read as
      what was flushed to them. */
  ghost predicate Recoverable(t: Tree, logs: Logs, clean: bool) {
    && logs.Ok() && t.logNumber <= logs.mem.number
    && TreeInv(t.version, t.nextFile)
    && AllEntries(t.version) <= t.flushed && SeqUnique(t.flushed)
    && SequencesUpTo(t.flushed, t.Base(logs)) && SequencesUpTo(t.flushed, t.last) && t.last <= logs.mem.Last()
    && (clean ==> ReadsPreserved(t.flushed, AllEntries(t.version), t.last))
  }

  lemma {:induction false} HistoryFacts(last: nat, batches: seq<Batch>)
    requires Committed(last, batches) && LastOf(last, batches) < MAX_SEQUENCE
    ensures last <= LastOf(last, batches)
    ensures SeqUnique(Recovery.History(last, batches))
    ensures forall e :: e in Recovery.History(last, batches) ==> last < e.key.sequence <= LastOf(last, batches)
    decreases batches
  {
    hide SeqUnique;
    if batches == [] {
      NothingIsUnique();
    } else {
      var next := last + |batches[0].ops|;
      LastOfFirst(last, batches);
      HistoryFacts(next, batches[1..]);
      var added := ToSet(NewEntries(UpdatesOf(batches[0].ops), last + 1));
      NewEntriesFacts(UpdatesOf(batches[0].ops), last);
      HistoryGrows(added, next, Recovery.History(next, batches[1..]), LastOf(next, batches[1..]));
    }
  }

  lemma NothingIsUnique()
    ensures SeqUnique({})
  {
  }

  lemma {:induction false} HistoryPrefix(last: nat, batches: seq<Batch>, n: nat)
    requires Committed(last, batches) && n <= |batches|
    ensures Committed(last, batches[..n]) && Recovery.History(last, batches[..n]) <= Recovery.History(last, batches)
    decreases n
  {
    hide NewEntries, UpdatesOf;
    CommittedPrefix(last, batches, n);
    if n > 0 {
      HistoryPrefix(last + |batches[0].ops|, batches[1..], n - 1);
      assert batches[..n][1..] == batches[1..][..n - 1];
    }
  }

  /** Whatever survives of the logs is newer than the tables, each number once. */
  lemma LoggedFacts(t: Tree, logs: Logs, i: nat, m: nat)
    requires logs.Ok() && m <= |logs.mem.batches| && (t.Needs(logs) ==> i <= |logs.imm.value.batches|)
    ensures SeqUnique(t.Logged(logs, i, m)) && t.Base(logs) <= logs.mem.Last() < MAX_SEQUENCE
    ensures forall e :: e in t.Logged(logs, i, m) ==> t.Base(logs) < e.key.sequence <= logs.mem.Last()
    ensures t.Logged(logs, i, m) <= t.AllLogged(logs)
  {
    hide Recovery.History, SeqUnique, Committed;
    LogFacts(logs.mem, m);
    if t.Needs(logs) {
      LogFacts(logs.imm.value, i);
      HistoryGrows(logs.imm.value.Wrote(i), logs.mem.start, logs.mem.Wrote(m), logs.mem.Last());
    } else {
      assert t.Logged(logs, i, m) == logs.mem.Wrote(m);
    }
  }

  lemma LogFacts(l: LogFile, n: nat)
    requires l.Ok() && n <= |l.batches|
    ensures l.start <= l.Last() < MAX_SEQUENCE && SeqUnique(l.Wrote(n)) && l.Wrote(n) <= l.All()
    ensures forall e :: e in l.Wrote(n) ==> l.start < e.key.sequence <= l.Last()
  {
    hide Recovery.History, Committed;
    HistoryFacts(l.start, l.batches);
    HistoryPrefix(l.start, l.batches, n);
    assert l.batches[..|l.batches|] == l.batches;
  }

  /** A store whose tables are a tree's and whose memtables are what the logs hold. */
  ghost predicate Stored(d: Store, t: Tree, logs: Logs) {
    && logs.Ok() && t.version == d.version && t.nextFile <= d.nextFile
    && logs.mem.number < d.nextFile && logs.mem.Last() == d.lastSequence && ToSet(d.mem) == logs.mem.All()
    && (d.imm.Some? <==> t.Needs(logs)) && (d.imm.Some? ==> ToSet(d.imm.value) == logs.imm.value.All())
  }

  // ----- What the database does keeps a tree recoverable -----

  ghost function MoreLogged(logs: Logs, b: Batch): Logs {
    logs.(mem := logs.mem.(batches := logs.mem.batches + [b]))
  }

  /** One more batch in the memtable's log. */
  lemma MoreInMem(logs: Logs, b: Batch)
    requires logs.Ok() && Committed(logs.mem.Last(), [b]) && logs.mem.Last() + |b.ops| < MAX_SEQUENCE
    ensures var more := MoreLogged(logs, b);
      && more.Ok() && more.mem.Last() == logs.mem.Last() + |b.ops|
      && more.mem.All() == logs.mem.All() + ToSet(NewEntries(UpdatesOf(b.ops), logs.mem.Last() + 1))
  {
    hide Recovery.History, Committed, UpdatesOf, ToSet;
    var l := logs.mem;
    CommittedMore(l.start, l.batches, b);
    var batches := l.batches + [b];
    assert batches[..|l.batches|] == l.batches && batches[|l.batches|] == b;
    HistoryOfLast(l.start, batches);
    assert batches[..|batches|] == batches && l.batches[..|l.batches|] == l.batches;
  }

  lemma WriteKeeps(t: Tree, logs: Logs, clean: bool, b: Batch)
    requires Recoverable(t, logs, clean) && Committed(logs.mem.Last(), [b]) && logs.mem.Last() + |b.ops| < MAX_SEQUENCE
    ensures MoreLogged(logs, b).Ok() && Recoverable(t, MoreLogged(logs, b), clean)
    ensures t.AllLogged(MoreLogged(logs, b)) == t.AllLogged(logs) + ToSet(NewEntries(UpdatesOf(b.ops), logs.mem.Last() + 1))
  {
    hide LogFile.Ok, LogFile.Wrote, TreeInv, SeqUnique, SequencesUpTo, ReadsPreserved, Committed, AllEntries, UpdatesOf, ToSet;
    MoreInMem(logs, b);
  }

  lemma {:induction false} CommittedMore(last: nat, batches: seq<Batch>, b: Batch)
    requires Committed(last, batches) && Committed(LastOf(last, batches), [b])
    ensures Committed(last, batches + [b])
    decreases batches
  {
    if batches == [] {
      assert [] + [b] == [b];
    } else {
      LastOfFirst(last, batches);
      CommittedMore(last + |batches[0].ops|, batches[1..], b);
      assert (batches + [b])[1..] == batches[1..] + [b];
    }
  }

  ghost function Switched(logs: Logs, number: nat): Logs {
    Logs(Some(logs.mem), LogFile(number, logs.mem.Last(), []))
  }

  /** The memtable's log becomes the immutable one's, and a new log starts. */
  lemma SwitchKeeps(t: Tree, logs: Logs, clean: bool, number: nat)
    requires Recoverable(t, logs, clean) && logs.imm.None? && logs.mem.number < number
    ensures var more := Switched(logs, number);
      && Recoverable(t, more, clean) && t.AllLogged(more) == t.AllLogged(logs)
      && t.Needs(more) && more.mem.All() == {} && more.mem.Last() == logs.mem.Last()
  {
    hide TreeInv, SeqUnique, SequencesUpTo, ReadsPreserved;
  }

  /** A log that no tree needs is deleted. */
  lemma DeleteKeeps(t: Tree, logs: Logs, clean: bool)
    requires Recoverable(t, logs, clean) && !t.Needs(logs)
    ensures Recoverable(t, logs.(imm := None), clean) && t.AllLogged(logs.(imm := None)) == t.AllLogged(logs)
  {
    hide TreeInv, SeqUnique, SequencesUpTo, ReadsPreserved;
  }

  /** A flush: the immutable memtable's log is needed no more. */
  lemma FlushKeeps(t: Tree, logs: Logs, clean: bool, v: Version, nextFile: nat)
    requires Recoverable(t, logs, clean) && t.Needs(logs)
    requires TreeInv(v, nextFile) && AllEntries(v) == AllEntries(t.version) + logs.imm.value.All()
    ensures var after := Tree(v, t.flushed + logs.imm.value.All(), logs.mem.number, logs.mem.Last(), nextFile);
      Recoverable(after, logs, clean) && after.flushed + after.AllLogged(logs) == t.flushed + t.AllLogged(logs)
  {
    hide TreeInv, SeqUnique, ReadsPreserved, LogFile.Wrote, LogFile.Ok, AllEntries;
    var imm, last := logs.imm.value, logs.mem.Last();
    LogFacts(imm, |imm.batches|);
    LogFacts(logs.mem, 0);
    HistoryGrows(t.flushed, imm.start, imm.All(), imm.Last());
    if clean {
      NewerReadsAgree(t.flushed, AllEntries(t.version), imm.All(), imm.start, t.last, last);
    }
  }

  /** A move or a compaction that keeps the reads from some sequence number on. */
  lemma ReplaceKeeps(t: Tree, logs: Logs, clean: bool, v: Version, nextFile: nat, stillClean: bool, from: SequenceNumber)
    requires Recoverable(t, logs, clean) && (stillClean ==> clean)
    requires TreeInv(v, nextFile) && AllEntries(v) <= AllEntries(t.version) && from <= logs.mem.Last()
    requires stillClean ==> ReadsPreserved(AllEntries(t.version), AllEntries(v), from)
    ensures var after := t.(version := v, last := logs.mem.Last(), nextFile := nextFile);
      Recoverable(after, logs, stillClean) && after.AllLogged(logs) == t.AllLogged(logs)
  {
    hide TreeInv, SeqUnique, LogFile.Wrote, LogFile.Ok, AllEntries, Read;
  }

  /** The store without its memtable, and without both. */
  function WithoutMem(d: Store): Store {
    d.(mem := [])
  }

  function TreeOnly(d: Store): Store {
    d.(mem := [], imm := None)
  }

  lemma TreeOnlyInv(d: Store)
    requires Inv(d)
    ensures Inv(WithoutMem(d)) && WithoutMem(d).All() == d.Imm() + AllEntries(d.version)
    ensures Inv(TreeOnly(d)) && TreeOnly(d).All() == AllEntries(d.version)
    ensures Coherent(TreeOnly(d), AllEntries(d.version))
  {
    hide AllEntries, TreeInv, Read;
    var tree := AllEntries(d.version);
    SplitMemTables(ToSet(d.mem), d.Imm(), tree, d.lastSequence);
    assert ToSet([]) == {};
    assert TreeOnly(d).All() == tree;
    assert forall e :: e in tree ==> e in ToSet(d.mem) + d.Imm() + tree;
    assert forall e :: e in d.Imm() + tree ==> e in ToSet(d.mem) + d.Imm() + tree;
  }

  lemma FlushedTree(d: Store, level: nat, fileSize: nat, b: Store)
    requires Inv(d) && FlushStep(d, level, fileSize, b)
    ensures AllEntries(b.version) == AllEntries(d.version) + d.Imm()
  {
    hide Inv, AllEntries, AddedAt, ClearDownTo;
    TreeOnlyInv(d);
    FlushKeepsInv(WithoutMem(d), level, fileSize, WithoutMem(b));
    assert WithoutMem(b).All() == {} + {} + AllEntries(b.version);
  }

  lemma MovedTree(d: Store, level: nat, file: FileMeta, b: Store)
    requires Inv(d) && MoveStep(d, level, file, b)
    ensures AllEntries(b.version) == AllEntries(d.version)
  {
    hide Inv, AllEntries, Selected, Installed;
    TreeOnlyInv(d);
    MoveKeepsInv(TreeOnly(d), level, file, TreeOnly(b));
    assert TreeOnly(b).All() == {} + {} + AllEntries(b.version);
  }

  /** A compaction that is clean for the tables alone keeps what they read as. */
  lemma CompactedTree(d: Store, level: nat, inputs0: seq<FileMeta>, inputs1: seq<FileMeta>, outputs: seq<FileMeta>, b: Store)
    requires Inv(d) && CompactStep(d, level, inputs0, inputs1, outputs, b)
    ensures AllEntries(b.version) <= AllEntries(d.version)
    ensures CleanStep(TreeOnly(d), Compact(level, inputs0, inputs1, outputs)) ==>
              ReadsPreserved(AllEntries(d.version), AllEntries(b.version), d.OldestSnapshot())
  {
    hide Inv, AllEntries, Selected, Installed, ResurrectsNothing, ReadsPreserved, SequencesUpTo, SeqUnique;
    var a, c := TreeOnly(d), TreeOnly(b);
    TreeOnlyInv(d);
    SameKept(d, level, inputs0, inputs1);
    CompactKeepsInv(a, level, inputs0, inputs1, outputs, c);
    CompactCoherence(a, level, inputs0, inputs1, outputs, c, AllEntries(d.version));
    assert c.All() == {} + {} + AllEntries(b.version) == AllEntries(b.version);
    assert c.OldestSnapshot() == d.OldestSnapshot();
  }

  lemma SameKept(d: Store, level: nat, inputs0: seq<FileMeta>, inputs1: seq<FileMeta>)
    requires Selected(d.version, level, inputs0, inputs1)
    ensures KeptEntries(TreeOnly(d), level, inputs0, inputs1) == KeptEntries(d, level, inputs0, inputs1)
  {
  }

  /** The tree as the record of a flush has it, and as that of a move or a compaction. */
  ghost function AfterFlush(t: Tree, logs: Logs, d: Store): Tree
    requires logs.Ok() && logs.imm.Some?
  {
    Tree(d.version, t.flushed + logs.imm.value.All(), logs.mem.number, d.lastSequence, d.nextFile)
  }

  ghost function AfterReplace(t: Tree, d: Store): Tree {
    t.(version := d.version, last := d.lastSequence, nextFile := d.nextFile)
  }

  /** Either tree can be recovered, and stands for all that was written. */
  ghost predicate StandsFor(t: Tree, synced: Tree, logs: Logs, clean: bool, history: set<Entry>) {
    && Recoverable(t, logs, clean) && t.flushed + t.AllLogged(logs) == history
    && Recoverable(synced, logs, clean) && synced.flushed + synced.AllLogged(logs) == history
  }

  lemma FlushStands(d: Store, level: nat, fileSize: nat, b: Store, t: Tree, logs: Logs, clean: bool, history: set<Entry>)
    requires Inv(d) && Inv(b) && FlushStep(d, level, fileSize, b)
    requires Stored(d, t, logs) && StandsFor(t, t, logs, clean, history)
    ensures logs.imm.Some? && Stored(b, AfterFlush(t, logs, b), logs) && StandsFor(AfterFlush(t, logs, b), t, logs, clean, history)
  {
    FlushedTree(d, level, fileSize, b);
    hide Recoverable, AllEntries, Tree.Logged, LogFile.Ok, LogFile.Wrote, FlushStep, ToSet;
    FlushKeeps(t, logs, clean, b.version, b.nextFile);
    FlushChanges(d, level, fileSize, b);
  }

  lemma FlushChanges(d: Store, level: nat, fileSize: nat, b: Store)
    requires Inv(d) && FlushStep(d, level, fileSize, b)
    ensures d.imm.Some? && b == d.(imm := None, version := b.version, nextFile := d.nextFile + 1)
  {
  }

  lemma MoveStands(d: Store, level: nat, file: FileMeta, b: Store, t: Tree, logs: Logs, clean: bool, history: set<Entry>)
    requires Inv(d) && Inv(b) && MoveStep(d, level, file, b)
    requires Stored(d, t, logs) && StandsFor(t, t, logs, clean, history)
    ensures Stored(b, AfterReplace(t, b), logs) && StandsFor(AfterReplace(t, b), t, logs, clean, history)
  {
    MovedTree(d, level, file, b);
    hide AllEntries, Tree.Logged, LogFile.Ok, LogFile.Wrote, Read, Selected, Installed, ToSet, TreeInv, SourcesOrdered, Sorted;
    ReplaceKeeps(t, logs, clean, b.version, b.nextFile, clean, d.lastSequence);
  }

  lemma CompactionStands(d: Store, level: nat, inputs0: seq<FileMeta>, inputs1: seq<FileMeta>, outputs: seq<FileMeta>, b: Store,
                         t: Tree, logs: Logs, clean: bool, history: set<Entry>)
    requires Inv(d) && Inv(b) && CompactStep(d, level, inputs0, inputs1, outputs, b)
    requires Stored(d, t, logs) && StandsFor(t, t, logs, clean, history)
    ensures var stillClean := clean && CleanStep(TreeOnly(d), Compact(level, inputs0, inputs1, outputs));
      Stored(b, AfterReplace(t, b), logs) && StandsFor(AfterReplace(t, b), t, logs, stillClean, history)
  {
    CompactedTree(d, level, inputs0, inputs1, outputs, b);
    CompactionChanges(d, level, inputs0, inputs1, outputs, b);
    hide AllEntries, Tree.Logged, LogFile.Ok, LogFile.Wrote, ReadsPreserved, Selected, CompactStep, ToSet, TreeInv, SourcesOrdered, Sorted,
         CleanStep;
    var stillClean := clean && CleanStep(TreeOnly(d), Compact(level, inputs0, inputs1, outputs));
    ReplaceKeeps(t, logs, clean, b.version, b.nextFile, stillClean, d.OldestSnapshot());
  }

  lemma CompactionChanges(d: Store, level: nat, inputs0: seq<FileMeta>, inputs1: seq<FileMeta>, outputs: seq<FileMeta>, b: Store)
    requires Inv(d) && CompactStep(d, level, inputs0, inputs1, outputs, b)
    ensures b == d.(version := b.version, nextFile := d.nextFile + |outputs|) && d.OldestSnapshot() <= d.lastSequence
  {
    assert d.snapshots != [] ==> d.snapshots[0] in d.snapshots;
  }

  lemma SwitchStands(d: Store, t: Tree, synced: Tree, logs: Logs, clean: bool, history: set<Entry>, b: Store)
    requires Stored(d, t, logs) && StandsFor(t, synced, logs, clean, history) && logs.imm.None?
    requires b == d.(mem := [], imm := Some(d.mem), nextFile := d.nextFile + 1)
    ensures var more := Switched(logs, d.nextFile); Stored(b, t, more) && StandsFor(t, synced, more, clean, history)
  {
    hide Recoverable, Tree.Logged;
    TreeNeedsMem(t, logs, clean);
    SwitchKeeps(t, logs, clean, d.nextFile);
    SwitchKeeps(synced, logs, clean, d.nextFile);
  }

  lemma DeleteStands(d: Store, t: Tree, logs: Logs, clean: bool, history: set<Entry>)
    requires Stored(d, t, logs) && StandsFor(t, t, logs, clean, history) && !t.Needs(logs)
    ensures var fewer := logs.(imm := None); Stored(d, t, fewer) && StandsFor(t, t, fewer, clean, history)
  {
    hide Recoverable, Tree.Logged;
    DeleteKeeps(t, logs, clean);
    StillOk(logs);
  }

  lemma StillOk(logs: Logs)
    requires logs.Ok()
    ensures logs.(imm := None).Ok()
  {
  }

  lemma TreeNeedsMem(t: Tree, logs: Logs, clean: bool)
    requires Recoverable(t, logs, clean)
    ensures t.logNumber <= logs.mem.number
  {
  }

  // ----- What recovery makes of it -----

  /** The store has nothing that the history has not, and reads as the history does if all compactions were clean. */
  ghost predicate Remembers(d: Store, history: set<Entry>, clean: bool) {
    && d.All() <= history && SeqUnique(history) && SequencesUpTo(history, d.lastSequence)
    && (clean ==> Coherent(d, history))
  }

  /** Reads of tables and surviving logs agree with the surviving history from the recovered sequence number on, and the
      recovered store is a legal one. */
  lemma RecoveredStore(t: Tree, logs: Logs, clean: bool, i: nat, m: nat, mem: seq<Entry>, last: SequenceNumber, nextFile: nat)
    requires Recoverable(t, logs, clean) && m <= |logs.mem.batches| && (t.Needs(logs) ==> i <= |logs.imm.value.batches|)
    requires Sorted(mem) && ToSet(mem) == t.Logged(logs, i, m)
    requires t.last <= last < MAX_SEQUENCE && SequencesUpTo(t.Logged(logs, i, m), last) && t.nextFile <= nextFile
    ensures var d := Store(mem, None, t.version, [], last, nextFile);
      Inv(d) && Remembers(d, t.flushed + t.Logged(logs, i, m), clean)
  {
    hide Recovery.History, SeqUnique, Read, AllEntries, Sorted, LogFile.Ok, LogFile.Wrote;
    var logged, tree, base := t.Logged(logs, i, m), AllEntries(t.version), t.Base(logs);
    var d := Store(mem, None, t.version, [], last, nextFile);
    LoggedFacts(t, logs, i, m);
    HistoryGrows(t.flushed, base, logged, logs.mem.Last());
    FewerAreUnique(t.flushed + logged, tree + logged);
    assert d.All() == tree + logged;
    assert ToSet(mem) + {} + tree == tree + logged;
    if clean {
      NewerReadsAgree(t.flushed, tree, logged, base, t.last, last);
    }
  }

  /** While the database runs, tables and memtables together read as the whole history at the last sequence number. */
  lemma StoreReadsHistory(d: Store, t: Tree, logs: Logs, history: set<Entry>)
    requires Inv(d) && Stored(d, t, logs) && StandsFor(t, t, logs, true, history)
    ensures ReadsPreserved(history, d.All(), d.lastSequence)
  {
    hide Recovery.History, SeqUnique, Read, AllEntries, LogFile.Ok, LogFile.Wrote, TreeInv, SourcesOrdered, Sorted;
    var logged, i := t.AllLogged(logs), if t.Needs(logs) then |logs.imm.value.batches| else 0;
    LoggedFacts(t, logs, i, |logs.mem.batches|);
    HistoryGrows(t.flushed, t.Base(logs), logged, logs.mem.Last());
    assert d.All() == AllEntries(t.version) + logged;
    NewerReadsAgree(t.flushed, AllEntries(t.version), logged, t.Base(logs), t.last, d.lastSequence);
  }

  lemma FewerAreUnique(more: set<Entry>, fewer: set<Entry>)
    requires SeqUnique(more) && fewer <= more
    ensures SeqUnique(fewer)
  {
  }

  /** A recovered store whose memtable has become a table starts over with an empty log. */
  lemma StartsOver(d: Store, after: Store, history: set<Entry>, clean: bool, number: nat)
    requires Inv(d) && d.imm == None && d.snapshots == [] && Remembers(d, history, clean) && Inv(after) && after.All() == d.All()
    requires after == d.(mem := [], version := after.version, nextFile := after.nextFile) && number < after.nextFile
    ensures var logs, t := Logs(None, LogFile(number, d.lastSequence, [])), Tree(after.version, history, number, d.lastSequence, after.nextFile);
      logs.Ok() && Stored(after, t, logs) && StandsFor(t, t, logs, clean, history)
  {
    hide AllEntries, TreeInv, SeqUnique, SequencesUpTo, Read;
    var tree := AllEntries(after.version);
    assert after.All() == {} + {} + tree == tree;
  }
}
