/** The queue of writers: one leads, the others wait, and the leader writes for a group
    (DBImpl::Write and BuildBatchGroup in db/db_impl.cc), under every interleaving. */
module WriteQueue {
  import opened DbFormat
  import opened Stores

  /** A waiting call of Write; without a batch it only asks for room in the memtable. */
  datatype Writer = Writer(batch: Option<seq<Update>>, byteSize: nat, sync: bool)

  /** One record of the log, for the writers from..to in order of arrival. */
  datatype LogRecord = LogRecord(from: nat, to: nat, first: nat, updates: seq<Update>, sync: bool)

  /** Between two holds of the mutex the leader appends to the log and inserts into the memtable. */
  datatype Phase = Idle | Working(count: nat, updates: seq<Update>, logged: bool, inserted: nat)

  /** `arrived` lists all writers ever; the queue is those from `finished` on. `base` is the last sequence number
      before the first of them. */
  datatype Queue = Queue(arrived: seq<Writer>, finished: nat, phase: Phase, log: seq<LogRecord>, mem: seq<Entry>,
                         last: nat, base: nat)

  function UpdatesOf(ws: seq<Writer>): seq<Update> {
    if ws == [] then [] else
      var w := ws[|ws| - 1];
      UpdatesOf(ws[..|ws| - 1]) + (if w.batch.Some? then w.batch.value else [])
  }

  lemma {:induction false} UpdatesOfConcat(a: seq<Writer>, b: seq<Writer>)
    ensures UpdatesOf(a + b) == UpdatesOf(a) + UpdatesOf(b)
  {
    if b == [] {
      assert a + b == a;
    } else {
      var n := |b| - 1;
      UpdatesOfConcat(a, b[..n]);
      assert (a + b)[..|a| + n] == a + b[..n];
    }
  }

  function Size(ws: seq<Writer>): nat {
    if ws == [] then 0 else
      var w := ws[|ws| - 1];
      Size(ws[..|ws| - 1]) + (if w.batch.Some? then w.byteSize else 0)
  }

  /** A small first batch keeps its group small. */
  function MaxSize(first: nat): nat {
    if first <= 0x2_0000 then first + 0x2_0000 else 0x10_0000
  }

  /** Waiting writer `i` may join the group of the first. */
  predicate Joins(waiting: seq<Writer>, i: nat)
    requires i < |waiting|
  {
    && (waiting[i].sync ==> waiting[0].sync)
    && (waiting[i].batch.Some? ==> Size(waiting[..i + 1]) <= MaxSize(waiting[0].byteSize))
  }

  /** The group is the longest front of the queue in which everyone may join the first. */
  ghost predicate IsGroup(waiting: seq<Writer>, count: nat) {
    && 0 < count <= |waiting|
    && (forall i :: 1 <= i < count ==> Joins(waiting, i))
    && (count < |waiting| ==> !Joins(waiting, count))
  }

  method BuildBatchGroup(waiting: seq<Writer>) returns (count: nat, updates: seq<Update>)
    requires waiting != [] && waiting[0].batch.Some?
    ensures IsGroup(waiting, count)
    ensures updates == UpdatesOf(waiting[..count])
  {
    hide Size, UpdatesOf;
    var first := waiting[0];
    updates := first.batch.value;
    var size := first.byteSize;
    var maxSize := MaxSize(size);
    GroupStarts(waiting);
    count := 1;
    while count < |waiting|
      invariant 1 <= count <= |waiting|
      invariant forall i :: 1 <= i < count ==> Joins(waiting, i)
      invariant size == Size(waiting[..count]) && updates == UpdatesOf(waiting[..count])
    {
      var w := waiting[count];
      GroupGrows(waiting, count);
      if w.sync && !first.sync {
        break;
      }
      if w.batch.Some? {
        size := size + w.byteSize;
        if size > maxSize {
          break;
        }
        updates := updates + w.batch.value;
      }
      count := count + 1;
    }
  }

  lemma GroupStarts(waiting: seq<Writer>)
    requires waiting != [] && waiting[0].batch.Some?
    ensures Size(waiting[..1]) == waiting[0].byteSize && UpdatesOf(waiting[..1]) == waiting[0].batch.value
  {
    assert waiting[..1][..0] == [];
  }

  lemma GroupGrows(waiting: seq<Writer>, n: nat)
    requires n < |waiting|
    ensures var w := waiting[n];
      && Size(waiting[..n + 1]) == Size(waiting[..n]) + (if w.batch.Some? then w.byteSize else 0)
      && UpdatesOf(waiting[..n + 1]) == UpdatesOf(waiting[..n]) + (if w.batch.Some? then w.batch.value else [])
      && (w.batch.None? ==> UpdatesOf(waiting[..n + 1]) == UpdatesOf(waiting[..n]))
  {
    assert waiting[..n + 1][..n] == waiting[..n];
  }

  lemma {:induction false} GroupSize(waiting: seq<Writer>, count: nat)
    requires waiting != [] && waiting[0].batch.Some? && 0 < count <= |waiting|
    requires forall i :: 1 <= i < count ==> Joins(waiting, i)
    ensures Size(waiting[..count]) == waiting[0].byteSize || Size(waiting[..count]) <= MaxSize(waiting[0].byteSize)
    decreases count
  {
    hide Size;
    if count == 1 {
      GroupStarts(waiting);
    } else {
      GroupSize(waiting, count - 1);
      GroupGrows(waiting, count - 1);
      assert Joins(waiting, count - 1);
    }
  }

  /** A group adds at most 128 KB to a first batch of at most 128 KB, and to a larger one what fits 1 MB; it ends before a synced
      write whose leader is not synced, or a batch that would be too much. */
  lemma GroupIsBounded(waiting: seq<Writer>, count: nat)
    requires waiting != [] && waiting[0].batch.Some? && IsGroup(waiting, count)
    ensures var first, size := waiting[0].byteSize, Size(waiting[..count]);
      && (first <= 131072 ==> size <= first + 131072)
      && (first > 131072 ==> size == first || size <= 1048576)
      && (count < |waiting| ==>
            var next := waiting[count];
            || (next.sync && !waiting[0].sync)
            || (next.batch.Some? && size + next.byteSize > if first <= 131072 then first + 131072 else 1048576))
  {
    hide Size;
    GroupSize(waiting, count);
    if count < |waiting| {
      GroupGrows(waiting, count);
    }
  }

  // ----- The steps -----

  datatype Step = Arrive(writer: Writer) | Pass | Lead(count: nat) | AppendLog | InsertOne | Finish

  predicate Init(q: Queue) {
    q.arrived == [] && q.finished == 0 && q.phase == Idle && q.log == [] && q.mem == [] && q.last == q.base
  }

  function Waiting(q: Queue): seq<Writer>
    requires q.finished <= |q.arrived|
  {
    q.arrived[q.finished..]
  }

  function EntryOf(u: Update, sequence: SequenceNumber): Entry {
    Entry(InternalKey(u.key, sequence, u.kind), u.value)
  }

  ghost predicate Next(a: Queue, step: Step, b: Queue)
    requires a.finished <= |a.arrived|
  {
    match step
    // A call of Write takes the mutex and joins the queue.
    case Arrive(w) => b == a.(arrived := a.arrived + [w])
    // The first in the queue has no batch: nothing to write.
    case Pass => a.phase.Idle? && Waiting(a) != [] && Waiting(a)[0].batch.None? && b == a.(finished := a.finished + 1)
    // The first in the queue takes a group and lets the mutex go.
    case Lead(count) =>
      && a.phase.Idle? && Waiting(a) != [] && Waiting(a)[0].batch.Some? && IsGroup(Waiting(a), count)
      && var updates := UpdatesOf(Waiting(a)[..count]);
         a.last + |updates| < MAX_SEQUENCE && b == a.(phase := Working(count, updates, false, 0))
    case AppendLog =>
      && a.phase.Working? && !a.phase.logged && a.finished < |a.arrived|
      && b == a.(phase := a.phase.(logged := true),
                 log := a.log + [LogRecord(a.finished, a.finished + a.phase.count, a.last + 1, a.phase.updates,
                                           a.arrived[a.finished].sync)])
    case InsertOne =>
      && a.phase.Working? && a.phase.logged && a.phase.inserted < |a.phase.updates|
      && a.last + 1 + a.phase.inserted <= MAX_SEQUENCE
      && b == a.(phase := a.phase.(inserted := a.phase.inserted + 1),
                 mem := a.mem + [EntryOf(a.phase.updates[a.phase.inserted], a.last + 1 + a.phase.inserted)])
    // Back under the mutex: publish the last sequence number and wake the group.
    case Finish =>
      && a.phase.Working? && a.phase.logged && a.phase.inserted == |a.phase.updates|
      && b == a.(phase := Idle, finished := a.finished + a.phase.count, last := a.last + |a.phase.updates|)
  }

  // ----- What every reachable state satisfies -----

  ghost predicate NoBatches(arrived: seq<Writer>, from: nat, to: nat)
    requires to <= |arrived|
  {
    forall i :: from <= i < to ==> arrived[i].batch.None?
  }

  /** No one who asked for a synced write is in a group whose leader did not. */
  ghost predicate SyncedByLeader(arrived: seq<Writer>, from: nat, to: nat)
    requires from < to <= |arrived|
  {
    forall i :: from <= i < to && arrived[i].sync ==> arrived[from].sync
  }

  /** The log holds the updates of the first `upto` arrivals, in order of arrival, each group in one record, numbered
      consecutively; only writers without a batch are in no record. */
  ghost predicate LogHolds(arrived: seq<Writer>, log: seq<LogRecord>, upto: nat, base: nat)
    requires upto <= |arrived|
    decreases |log|
  {
    if log == [] then NoBatches(arrived, 0, upto) else
      var r := log[|log| - 1];
      && r.from < r.to <= upto
      && NoBatches(arrived, r.to, upto)
      && SyncedByLeader(arrived, r.from, r.to)
      && r.sync == arrived[r.from].sync
      && r.updates == UpdatesOf(arrived[r.from..r.to])
      && r.first == base + |UpdatesOf(arrived[..r.from])| + 1
      && LogHolds(arrived, log[..|log| - 1], r.from, base)
  }

  /** How many arrivals the log covers. */
  function Logged(q: Queue): nat {
    q.finished + (if q.phase.Working? && q.phase.logged then q.phase.count else 0)
  }

  ghost predicate PhaseHolds(q: Queue)
    requires q.finished <= |q.arrived|
  {
    q.phase.Working? ==>
      && 0 < q.phase.count && q.finished + q.phase.count <= |q.arrived|
      && q.arrived[q.finished].batch.Some?
      && SyncedByLeader(q.arrived, q.finished, q.finished + q.phase.count)
      && q.phase.updates == UpdatesOf(q.arrived[q.finished..q.finished + q.phase.count])
      && q.phase.inserted <= |q.phase.updates| && (!q.phase.logged ==> q.phase.inserted == 0)
      && q.last + |q.phase.updates| < MAX_SEQUENCE
  }

  /** The updates in the memtable, in order. */
  function Applied(q: Queue): seq<Update>
    requires q.finished <= |q.arrived| && (q.phase.Working? ==> q.phase.inserted <= |q.phase.updates|)
  {
    UpdatesOf(q.arrived[..q.finished]) + (if q.phase.Working? then q.phase.updates[..q.phase.inserted] else [])
  }

  ghost predicate Inv(q: Queue) {
    && q.finished <= |q.arrived|
    && q.base < MAX_SEQUENCE && q.last < MAX_SEQUENCE
    && q.last == q.base + |UpdatesOf(q.arrived[..q.finished])|
    && PhaseHolds(q)
    && Logged(q) <= |q.arrived|
    && LogHolds(q.arrived, q.log, Logged(q), q.base)
    && q.base + 1 + |Applied(q)| <= MAX_SEQUENCE
    && q.mem == NewEntries(Applied(q), q.base + 1)
  }

  lemma {:induction false} LogHoldsMore(arrived: seq<Writer>, w: Writer, log: seq<LogRecord>, upto: nat, base: nat)
    requires upto <= |arrived| && LogHolds(arrived, log, upto, base)
    ensures LogHolds(arrived + [w], log, upto, base)
    decreases |log|
  {
    hide UpdatesOf;
    var more := arrived + [w];
    if log != [] {
      var r := log[|log| - 1];
      assert more[r.from..r.to] == arrived[r.from..r.to] && more[..r.from] == arrived[..r.from];
      LogHoldsMore(arrived, w, log[..|log| - 1], r.from, base);
    }
  }

  lemma ArriveKeepsInv(a: Queue, w: Writer, b: Queue)
    requires Inv(a) && Next(a, Arrive(w), b)
    ensures Inv(b)
  {
    hide UpdatesOf, LogHolds, NewEntries;
    LogHoldsMore(a.arrived, w, a.log, Logged(a), a.base);
    assert b.arrived[..b.finished] == a.arrived[..a.finished];
    if a.phase.Working? {
      assert b.arrived[b.finished..b.finished + b.phase.count] == a.arrived[a.finished..a.finished + a.phase.count];
    }
  }

  lemma PassKeepsInv(a: Queue, b: Queue)
    requires Inv(a) && Next(a, Pass, b)
    ensures Inv(b)
  {
    hide UpdatesOf, NewEntries;
    GroupGrows(a.arrived, a.finished);
    if a.log != [] {
      assert LogHolds(b.arrived, b.log, Logged(b), b.base);
    }
  }

  lemma LeadKeepsInv(a: Queue, count: nat, b: Queue)
    requires Inv(a) && Next(a, Lead(count), b)
    ensures Inv(b)
  {
    hide UpdatesOf, NewEntries, LogHolds;
    assert Waiting(a)[..count] == a.arrived[a.finished..a.finished + count];
    forall i | a.finished < i < a.finished + count && a.arrived[i].sync ensures a.arrived[a.finished].sync {
      assert Joins(Waiting(a), i - a.finished);
    }
    assert b.phase.updates[..0] == [];
  }

  lemma AppendKeepsInv(a: Queue, b: Queue)
    requires Inv(a) && Next(a, AppendLog, b)
    ensures Inv(b)
  {
    hide UpdatesOf, NewEntries;
    assert b.log[..|b.log| - 1] == a.log;
  }

  lemma InsertKeepsInv(a: Queue, b: Queue)
    requires Inv(a) && Next(a, InsertOne, b)
    ensures Inv(b)
  {
    hide UpdatesOf, LogHolds;
    var n := a.phase.inserted;
    assert a.phase.updates[..n + 1] == a.phase.updates[..n] + [a.phase.updates[n]];
    assert Applied(b) == Applied(a) + [a.phase.updates[n]];
  }

  lemma FinishKeepsInv(a: Queue, b: Queue)
    requires Inv(a) && Next(a, Finish, b)
    ensures Inv(b)
  {
    hide UpdatesOf, NewEntries, LogHolds;
    UpdatesOfConcat(a.arrived[..a.finished], a.arrived[a.finished..b.finished]);
    assert a.arrived[..a.finished] + a.arrived[a.finished..b.finished] == a.arrived[..b.finished];
    assert a.phase.updates[..|a.phase.updates|] == a.phase.updates;
    assert Applied(b) == Applied(a);
  }

  lemma StepKeepsInv(a: Queue, step: Step, b: Queue)
    requires Inv(a) && Next(a, step, b)
    ensures Inv(b)
  {
    match step
    case Arrive(w) => ArriveKeepsInv(a, w, b);
    case Pass => PassKeepsInv(a, b);
    case Lead(count) => LeadKeepsInv(a, count, b);
    case AppendLog => AppendKeepsInv(a, b);
    case InsertOne => InsertKeepsInv(a, b);
    case Finish => FinishKeepsInv(a, b);
  }

  ghost predicate IsExecution(states: seq<Queue>, steps: seq<Step>) {
    && |states| == |steps| + 1 && Init(states[0]) && states[0].base < MAX_SEQUENCE
    && forall i :: 0 <= i < |steps| ==> StepAt(states, steps, i)
  }

  ghost predicate StepAt(states: seq<Queue>, steps: seq<Step>, i: nat)
    requires |states| == |steps| + 1 && i < |steps|
  {
    states[i].finished <= |states[i].arrived| && Next(states[i], steps[i], states[i + 1])
  }

  /** Every interleaving of arrivals, leaders, log appends, insertions and wake-ups keeps the invariant. */
  lemma {:induction false} RunKeepsInv(states: seq<Queue>, steps: seq<Step>, n: nat)
    requires IsExecution(states, steps) && n <= |steps|
    ensures Inv(states[n])
  {
    if n > 0 {
      RunKeepsInv(states, steps, n - 1);
      assert StepAt(states, steps, n - 1);
      StepKeepsInv(states[n - 1], steps[n - 1], states[n]);
    }
  }

  // ----- What that means -----

  /** The sequence number before writer `i`'s first. */
  function Before(q: Queue, i: nat): nat
    requires i <= |q.arrived|
  {
    q.base + |UpdatesOf(q.arrived[..i])|
  }

  /** What a reader at the last published sequence number sees of the memtable. */
  ghost function Seen(q: Queue): set<Entry> {
    set e | e in q.mem && e.key.sequence <= q.last
  }

  /** Readers see exactly the batches of the writers that finished. */
  lemma ReadersSeeFinished(q: Queue)
    requires Inv(q)
    ensures Seen(q) == ToSet(NewEntries(UpdatesOf(q.arrived[..q.finished]), q.base + 1))
  {
    hide UpdatesOf, LogHolds;
    var done := UpdatesOf(q.arrived[..q.finished]);
    var entries := NewEntries(done, q.base + 1);
    assert forall i :: 0 <= i < |done| ==> q.mem[i] == entries[i];
    forall e | e in Seen(q) ensures e in entries {
      var i :| 0 <= i < |q.mem| && q.mem[i] == e;
      assert e == entries[i];
    }
    forall e | e in entries ensures e in Seen(q) {
      var i :| 0 <= i < |entries| && entries[i] == e;
      assert q.mem[i] == e;
    }
  }

  lemma {:induction false} PrefixUpdates(ws: seq<Writer>, i: nat, j: nat)
    requires i <= j <= |ws|
    ensures UpdatesOf(ws[..i]) <= UpdatesOf(ws[..j])
  {
    UpdatesOfConcat(ws[..i], ws[i..j]);
    assert ws[..i] + ws[i..j] == ws[..j];
  }

  /** Each batch is visible to a reader wholly or not at all, and each has its own run of numbers. */
  lemma BatchesAreAtomic(q: Queue, i: nat, k: nat)
    requires Inv(q) && i < |q.arrived| && q.arrived[i].batch.Some? && k < |q.arrived[i].batch.value|
    ensures Before(q, i + 1) == Before(q, i) + |q.arrived[i].batch.value|
    ensures i < q.finished ==>
      Before(q, i) + 1 + k <= q.last && EntryOf(q.arrived[i].batch.value[k], Before(q, i) + 1 + k) in Seen(q)
    ensures i >= q.finished ==> q.last < Before(q, i) + 1 + k
  {
    hide LogHolds, UpdatesOf;
    GroupGrows(q.arrived, i);
    if i < q.finished {
      PrefixUpdates(q.arrived, i + 1, q.finished);
      var n := |UpdatesOf(q.arrived[..i])|;
      assert UpdatesOf(q.arrived[..i + 1])[n + k] == q.arrived[i].batch.value[k];
      assert Applied(q)[n + k] == q.arrived[i].batch.value[k];
      assert q.mem[n + k] in q.mem;
    } else {
      PrefixUpdates(q.arrived, q.finished, i);
    }
  }

  /** The log's records, end to end, are the updates of the arrivals they cover. */
  function LogUpdates(log: seq<LogRecord>): seq<Update> {
    if log == [] then [] else LogUpdates(log[..|log| - 1]) + log[|log| - 1].updates
  }

  lemma {:induction false} LogInOrder(arrived: seq<Writer>, log: seq<LogRecord>, upto: nat, base: nat)
    requires upto <= |arrived| && LogHolds(arrived, log, upto, base)
    ensures LogUpdates(log) == UpdatesOf(arrived[..upto])
    decreases |log|
  {
    hide UpdatesOf;
    var start := if log == [] then 0 else log[|log| - 1].to;
    SkippingNone(arrived, start, upto);
    if log == [] {
      NoUpdates(arrived);
    } else {
      var r := log[|log| - 1];
      LogInOrder(arrived, log[..|log| - 1], r.from, base);
      UpdatesOfConcat(arrived[..r.from], arrived[r.from..r.to]);
      assert arrived[..r.from] + arrived[r.from..r.to] == arrived[..r.to];
    }
  }

  lemma NoUpdates(arrived: seq<Writer>)
    ensures UpdatesOf(arrived[..0]) == []
  {
  }

  lemma {:induction false} SkippingNone(arrived: seq<Writer>, from: nat, to: nat)
    requires from <= to <= |arrived| && NoBatches(arrived, from, to)
    ensures UpdatesOf(arrived[..to]) == UpdatesOf(arrived[..from])
  {
    hide UpdatesOf;
    if from < to {
      SkippingNone(arrived, from, to - 1);
      GroupGrows(arrived, to - 1);
    }
  }

  /** The log of every reachable state replays the batches in queue order, numbered without gap or overlap. */
  lemma LogReplaysQueue(q: Queue)
    requires Inv(q)
    ensures LogUpdates(q.log) == UpdatesOf(q.arrived[..Logged(q)])
    ensures forall i :: 0 <= i < |q.log| - 1 ==> q.log[i + 1].first == q.log[i].first + |q.log[i].updates|
    ensures q.log != [] ==> q.log[0].first == q.base + 1
  {
    LogInOrder(q.arrived, q.log, Logged(q), q.base);
    RecordsAreContiguous(q.arrived, q.log, Logged(q), q.base);
  }

  lemma {:induction false} RecordsAreContiguous(arrived: seq<Writer>, log: seq<LogRecord>, upto: nat, base: nat)
    requires upto <= |arrived| && LogHolds(arrived, log, upto, base)
    ensures forall i :: 0 <= i < |log| - 1 ==> log[i + 1].first == log[i].first + |log[i].updates|
    ensures log != [] ==> log[0].first == base + 1
    ensures log != [] ==> log[|log| - 1].first + |log[|log| - 1].updates| == base + |UpdatesOf(arrived[..upto])| + 1
    decreases |log|
  {
    hide UpdatesOf;
    if log != [] {
      var n := |log| - 1;
      var r := log[n];
      RecordsAreContiguous(arrived, log[..n], r.from, base);
      UpdatesOfConcat(arrived[..r.from], arrived[r.from..r.to]);
      assert arrived[..r.from] + arrived[r.from..r.to] == arrived[..r.to];
      SkippingNone(arrived, r.to, upto);
      if n == 0 {
        SkippingNone(arrived, 0, r.from);
        NoUpdates(arrived);
      }
      forall i | 0 <= i < n ensures log[i + 1].first == log[i].first + |log[i].updates| {
        if i + 1 < n {
          assert log[..n][i + 1].first == log[..n][i].first + |log[..n][i].updates|;
        } else {
          assert log[..n][i] == log[i];
        }
      }
    }
  }

  /** A finished write that asked for a sync lies in a record that was synced. */
  lemma {:induction false} SyncWritesAreSynced(arrived: seq<Writer>, log: seq<LogRecord>, upto: nat, base: nat, i: nat) returns (k: nat)
    requires upto <= |arrived| && LogHolds(arrived, log, upto, base)
    requires i < upto && arrived[i].sync && arrived[i].batch.Some?
    ensures k < |log| && log[k].from <= i < log[k].to && log[k].sync
    decreases |log|
  {
    hide UpdatesOf;
    var r := log[|log| - 1];
    if r.from <= i < r.to {
      k := |log| - 1;
    } else {
      k := SyncWritesAreSynced(arrived, log[..|log| - 1], r.from, base, i);
    }
  }

  /** Only a wake-up changes what readers see, and then by the store's own Write step for the whole group. */
  lemma StepsRefineStoreWrites(a: Queue, step: Step, b: Queue)
    requires Inv(a) && Next(a, step, b)
    ensures step.Finish? ==>
      Seen(b) == Seen(a) + ToSet(NewEntries(a.phase.updates, a.last + 1)) && b.last == a.last + |a.phase.updates|
    ensures !step.Finish? ==> Seen(b) == Seen(a) && b.last == a.last
  {
    hide UpdatesOf, LogHolds, Inv;
    InvParts(a);
    StepKeepsInv(a, step, b);
    InvParts(b);
    ReadersSeeFinished(a);
    ReadersSeeFinished(b);
    match step
    case Arrive(w) =>
      assert b.arrived[..b.finished] == a.arrived[..a.finished];
    case Pass =>
      GroupGrows(a.arrived, a.finished);
    case Finish =>
      UpdatesOfConcat(a.arrived[..a.finished], a.arrived[a.finished..b.finished]);
      assert a.arrived[..a.finished] + a.arrived[a.finished..b.finished] == a.arrived[..b.finished];
      EntriesConcat(UpdatesOf(a.arrived[..a.finished]), a.phase.updates, a.base + 1);
    case Lead(_) =>
    case AppendLog =>
    case InsertOne =>
  }

  lemma InvParts(q: Queue)
    requires Inv(q)
    ensures q.finished <= |q.arrived| && PhaseHolds(q) && q.last < MAX_SEQUENCE
    ensures q.last == q.base + |UpdatesOf(q.arrived[..q.finished])|
  {
  }

  lemma EntriesConcat(a: seq<Update>, b: seq<Update>, first: nat)
    requires first + |a| + |b| <= MAX_SEQUENCE
    ensures ToSet(NewEntries(a + b, first)) == ToSet(NewEntries(a, first)) + ToSet(NewEntries(b, first + |a|))
  {
    assert NewEntries(a + b, first) == NewEntries(a, first) + NewEntries(b, first + |a|);
  }

  // ----- Every writer completes -----

  /** Work left for the writers that have arrived. */
  function Rank(q: Queue): int
    requires q.finished <= |q.arrived|
  {
    3 * (|q.arrived| - q.finished) + |UpdatesOf(q.arrived[q.finished..])|
    - (if q.phase.Working? then 1 + q.phase.inserted + (if q.phase.logged then 1 else 0) else 0)
  }

  /** Writers complete in order of arrival, each once: `finished` only grows; and each step of the queue itself
      leaves less to do. */
  lemma StepsMakeProgress(a: Queue, step: Step, b: Queue)
    requires Inv(a) && Next(a, step, b)
    ensures a.finished <= b.finished <= |b.arrived| && a.arrived <= b.arrived
    ensures !step.Arrive? ==> Rank(b) < Rank(a)
    ensures Rank(a) >= 0
  {
    hide LogHolds, UpdatesOf, NewEntries;
    StepKeepsInv(a, step, b);
    RankIsNatural(a);
    if b.finished > a.finished {
      UpdatesOfConcat(a.arrived[a.finished..b.finished], a.arrived[b.finished..]);
      assert a.arrived[a.finished..b.finished] + a.arrived[b.finished..] == a.arrived[a.finished..];
    }
  }

  lemma RankIsNatural(q: Queue)
    requires Inv(q)
    ensures Rank(q) >= 0
  {
    hide LogHolds, UpdatesOf, NewEntries;
    if q.phase.Working? {
      var mid := q.finished + q.phase.count;
      UpdatesOfConcat(q.arrived[q.finished..mid], q.arrived[mid..]);
      assert q.arrived[q.finished..mid] + q.arrived[mid..] == q.arrived[q.finished..];
    }
  }

  /** While anyone waits the queue can take a step, unless sequence numbers have run out. */
  lemma SomeStepIsEnabled(q: Queue) returns (step: Step, after: Queue)
    requires Inv(q) && q.finished < |q.arrived|
    requires q.last + |UpdatesOf(Waiting(q))| < MAX_SEQUENCE
    ensures !step.Arrive? && Next(q, step, after)
  {
    hide LogHolds, UpdatesOf, NewEntries, Size;
    if q.phase.Idle? {
      if Waiting(q)[0].batch.None? {
        step, after := Pass, q.(finished := q.finished + 1);
      } else {
        var count := GroupExists(Waiting(q), 1);
        PrefixUpdates(Waiting(q), count, |Waiting(q)|);
        assert Waiting(q)[..|Waiting(q)|] == Waiting(q);
        var updates := UpdatesOf(Waiting(q)[..count]);
        step, after := Lead(count), q.(phase := Working(count, updates, false, 0));
      }
    } else if !q.phase.logged {
      step := AppendLog;
      after := q.(phase := q.phase.(logged := true),
                  log := q.log + [LogRecord(q.finished, q.finished + q.phase.count, q.last + 1, q.phase.updates,
                                            q.arrived[q.finished].sync)]);
    } else if q.phase.inserted < |q.phase.updates| {
      step := InsertOne;
      after := q.(phase := q.phase.(inserted := q.phase.inserted + 1),
                  mem := q.mem + [EntryOf(q.phase.updates[q.phase.inserted], q.last + 1 + q.phase.inserted)]);
    } else {
      step := Finish;
      after := q.(phase := Idle, finished := q.finished + q.phase.count, last := q.last + |q.phase.updates|);
    }
  }

  lemma {:induction false} GroupExists(waiting: seq<Writer>, n: nat) returns (count: nat)
    requires 1 <= n <= |waiting| && forall i :: 1 <= i < n ==> Joins(waiting, i)
    ensures IsGroup(waiting, count)
    decreases |waiting| - n
  {
    if n == |waiting| || !Joins(waiting, n) {
      count := n;
    } else {
      count := GroupExists(waiting, n + 1);
    }
  }
}
