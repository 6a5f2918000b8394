/** Replaying a write-ahead log (DBImpl::RecoverLogFile in db/db_impl.cc). */
module Recovery {
  import opened DbFormat
  import opened Reads
  import opened Coding
  import opened LogFormat
  import opened LogRoundTrip
  import LogReaders
  import LogDamage
  import opened WriteBatches
  import BytewiseComparator
  import Stores

  /** What MemTableInserter passes to MemTable::Add. */
  datatype Insertion = Insertion(sequence: Word64, op: Op)

  /** Consecutive numbers, as the 64-bit counter counts. */
  function Numbered(sequence: Word64, ops: seq<Op>): seq<Insertion>
    decreases ops
  {
    if ops == [] then [] else [Insertion(sequence, ops[0])] + Numbered((sequence + 1) % TWO64, ops[1..])
  }

  /** InsertInto on one log record; a malformed batch is inserted up to the fault. */
  function Inserted(record: Bytes): seq<Insertion> {
    if |record| < HEADER then [] else Numbered(Sequence(record), Contents(record).0)
  }

  function InsertedAll(records: seq<Bytes>): seq<Insertion> {
    if records == [] then [] else InsertedAll(records[..|records| - 1]) + Inserted(records[|records| - 1])
  }

  /** Sequence + Count - 1 with a signed 32-bit count, in 64-bit arithmetic. */
  function LastSequence(record: Bytes): Word64
    requires |record| >= HEADER
  {
    var count := Count(record);
    (Sequence(record) + (if count < 0x8000_0000 then count else count - TWO32) - 1) % TWO64
  }

  function MaxSequence(records: seq<Bytes>, start: nat): nat {
    if records == [] then start else
      var before := MaxSequence(records[..|records| - 1], start);
      var record := records[|records| - 1];
      if |record| >= HEADER && LastSequence(record) > before then LastSequence(record) else before
  }

  function Flat(tables: seq<seq<Insertion>>): seq<Insertion> {
    if tables == [] then [] else Flat(tables[..|tables| - 1]) + tables[|tables| - 1]
  }

  lemma OneMoreRecord(records: seq<Bytes>, record: Bytes, start: nat)
    ensures InsertedAll(records + [record]) == InsertedAll(records) + Inserted(record)
    ensures TooShortIn(records + [record]) == TooShortIn(records) + (if |record| < HEADER then 1 else 0)
    ensures MaxSequence(records + [record], start) ==
      var before := MaxSequence(records, start);
      if |record| >= HEADER && LastSequence(record) > before then LastSequence(record) else before
  {
    assert (records + [record])[..|records|] == records;
  }

  lemma OneMoreTable(tables: seq<seq<Insertion>>, mem: seq<Insertion>)
    ensures Flat(tables + [mem]) + [] == Flat(tables) + mem
  {
    assert (tables + [mem])[..|tables|] == tables;
  }

  lemma Associates<T>(a: seq<T>, b: seq<T>, c: seq<T>)
    ensures a + (b + c) == (a + b) + c
  {
  }

  /** How many records are too short for a batch; each is reported. */
  function TooShortIn(records: seq<Bytes>): nat {
    if records == [] then 0 else
      TooShortIn(records[..|records| - 1]) + (if |records[|records| - 1]| < HEADER then 1 else 0)
  }

  /** No batch before the one that ends at `to` filled the memtable begun at `from`. */
  ghost predicate NotFullYet(records: seq<Bytes>, full: seq<Insertion> -> bool, from: nat, to: nat) {
    forall n :: from < n < to && n <= |records| && |records[n - 1]| >= HEADER ==> !full(InsertedAll(records[from..n]))
  }

  /** The records from `from` to `to` made a table, which became full with the last of them. */
  ghost predicate MadeTable(records: seq<Bytes>, full: seq<Insertion> -> bool, from: nat, to: nat, table: seq<Insertion>) {
    from < to <= |records| && table == InsertedAll(records[from..to]) && full(table) && NotFullYet(records, full, from, to)
  }

  /** Every table was closed after the first batch that made it full, and what is left has not become full. */
  ghost predicate CutWhenFull(records: seq<Bytes>, full: seq<Insertion> -> bool, cuts: seq<nat>, tables: seq<seq<Insertion>>,
                              mem: seq<Insertion>)
  {
    && |cuts| == |tables| + 1 && cuts[0] == 0 && cuts[|tables|] <= |records| && AllMade(records, full, cuts, tables)
    && mem == InsertedAll(records[cuts[|tables|]..]) && NotFullYet(records, full, cuts[|tables|], |records| + 1)
  }

  lemma StillNotFull(records: seq<Bytes>, record: Bytes, full: seq<Insertion> -> bool, from: nat, to: nat)
    requires NotFullYet(records, full, from, to) && to <= |records| + 1
    ensures NotFullYet(records + [record], full, from, to)
  {
    forall n | from < n < to && n <= |records| && |(records + [record])[n - 1]| >= HEADER
      ensures !full(InsertedAll((records + [record])[from..n]))
    {
      assert (records + [record])[from..n] == records[from..n];
    }
  }

  lemma StillMade(records: seq<Bytes>, record: Bytes, full: seq<Insertion> -> bool, from: nat, to: nat, table: seq<Insertion>)
    requires MadeTable(records, full, from, to, table)
    ensures MadeTable(records + [record], full, from, to, table)
  {
    assert (records + [record])[from..to] == records[from..to];
    StillNotFull(records, record, full, from, to);
  }

  ghost predicate AllMade(records: seq<Bytes>, full: seq<Insertion> -> bool, cuts: seq<nat>, tables: seq<seq<Insertion>>) {
    |cuts| == |tables| + 1 && forall t :: 0 <= t < |tables| ==> MadeTable(records, full, cuts[t], cuts[t + 1], tables[t])
  }

  lemma OneMoreMade(records: seq<Bytes>, full: seq<Insertion> -> bool, cuts: seq<nat>, tables: seq<seq<Insertion>>, table: seq<Insertion>,
                    to: nat)
    requires AllMade(records, full, cuts, tables) && MadeTable(records, full, cuts[|tables|], to, table)
    ensures AllMade(records, full, cuts + [to], tables + [table])
  {
    hide MadeTable;
  }

  lemma StillAllMade(records: seq<Bytes>, record: Bytes, full: seq<Insertion> -> bool, cuts: seq<nat>, tables: seq<seq<Insertion>>)
    requires AllMade(records, full, cuts, tables)
    ensures AllMade(records + [record], full, cuts, tables)
  {
    hide MadeTable;
    forall t | 0 <= t < |tables| ensures MadeTable(records + [record], full, cuts[t], cuts[t + 1], tables[t]) {
      StillMade(records, record, full, cuts[t], cuts[t + 1], tables[t]);
    }
  }

  lemma MoreCut(records: seq<Bytes>, record: Bytes, full: seq<Insertion> -> bool, cuts: seq<nat>, tables: seq<seq<Insertion>>,
                mem: seq<Insertion>)
    requires CutWhenFull(records, full, cuts, tables, mem)
    ensures var more := mem + Inserted(record);
      if |record| >= HEADER && full(more) then CutWhenFull(records + [record], full, cuts + [|records| + 1], tables + [more], [])
      else CutWhenFull(records + [record], full, cuts, tables, more)
  {
    hide Inserted, MadeTable, InsertedAll, AllMade;
    var all, m, from, more := records + [record], |tables|, cuts[|tables|], mem + Inserted(record);
    assert all[from..] == records[from..] + [record] == all[from..|all|];
    OneMoreRecord(records[from..], record, 0);
    StillAllMade(records, record, full, cuts, tables);
    StillNotFull(records, record, full, from, |all|);
    if |record| >= HEADER && full(more) {
      assert all[|all|..] == [];
      LastMade(all, full, from, more);
      OneMoreMade(all, full, cuts, tables, more, |all|);
    }
  }

  lemma LastMade(records: seq<Bytes>, full: seq<Insertion> -> bool, from: nat, table: seq<Insertion>)
    requires from < |records| && table == InsertedAll(records[from..|records|]) && full(table)
    requires NotFullYet(records, full, from, |records|)
    ensures MadeTable(records, full, from, |records|, table) && InsertedAll([]) == []
  {
  }

  /** The loop of RecoverLogFile with paranoid checks off: insert every batch, turning each memtable that
      grows past the buffer size (`full`) into a table, and track the largest sequence number. */
  method RecoverLogFile(reader: LogReaders.Reader, full: seq<Insertion> -> bool, start: nat)
    returns (tables: seq<seq<Insertion>>, mem: seq<Insertion>, maxSequence: nat, ghost cuts: seq<nat>)
    requires reader.Valid() && reader.Position() == 0
    modifies reader
    ensures Flat(tables) + mem == InsertedAll(ReadAll(reader.crc, reader.file, 0).0)
    ensures maxSequence == MaxSequence(ReadAll(reader.crc, reader.file, 0).0, start)
    ensures reader.reports - old(reader.reports)
         == ReadAll(reader.crc, reader.file, 0).1 + TooShortIn(ReadAll(reader.crc, reader.file, 0).0)
    ensures CutWhenFull(ReadAll(reader.crc, reader.file, 0).0, full, cuts, tables, mem)
  {
    hide CutWhenFull, ReadLogical, Inserted, LastSequence, LogReaders.Reader.Buffered, BufferEnd, ReadAll, InsertedAll, MaxSequence, Flat, TooShortIn;
    ghost var all := ReadAll(reader.crc, reader.file, 0);
    ghost var records: seq<Bytes> := [];
    tables, mem, maxSequence, cuts := [], [], start, [0];
    NothingCut(full);
    NothingReplayed(start);
    assert [] + all.0 == all.0;
    while true
      invariant reader.Valid()
      invariant all.0 == records + ReadAll(reader.crc, reader.file, reader.Position()).0
      invariant all.1 + TooShortIn(records) == reader.reports - old(reader.reports) + ReadAll(reader.crc, reader.file, reader.Position()).1
      invariant Flat(tables) + mem == InsertedAll(records) && maxSequence == MaxSequence(records, start)
      invariant CutWhenFull(records, full, cuts, tables, mem)
      decreases |reader.file| - reader.Position()
    {
      ReadAllStep(reader.crc, reader.file, reader.Position(), reader.reports);
      var ok, record := reader.ReadRecord();
      if !ok {
        assert records + [] == records;
        return;
      }
      Associates(records, [record], ReadAll(reader.crc, reader.file, reader.Position()).0);
      OneMoreRecord(records, record, start);
      MoreCut(records, record, full, cuts, tables, mem);
      records := records + [record];
      if |record| < HEADER {
        TooShort(record);
        reader.reports := reader.reports + 1;
        continue;
      }
      var added := InsertInto(record);
      Associates(Flat(tables), mem, added);
      mem := mem + added;
      var last := LastSequence(record);
      if last > maxSequence {
        maxSequence := last;
      }
      if full(mem) {
        OneMoreTable(tables, mem);
        tables, mem, cuts := tables + [mem], [], cuts + [|records|];
      }
    }
  }

  lemma NothingReplayed(start: nat)
    ensures Flat([]) + [] == InsertedAll([]) && MaxSequence([], start) == start && TooShortIn([]) == 0
  {
  }

  lemma NothingCut(full: seq<Insertion> -> bool)
    ensures CutWhenFull([], full, [0], [], [])
  {
  }

  lemma TooShort(record: Bytes)
    requires |record| < HEADER
    ensures forall s: seq<Insertion> :: s + Inserted(record) == s
  {
  }

  /** InsertInto with MemTableInserter as the handler. */
  method InsertInto(record: Bytes) returns (added: seq<Insertion>)
    requires |record| >= HEADER
    ensures added == Inserted(record)
  {
    var ops, ok := Iterate(record);
    var sequence: Word64 := Sequence(record);
    added := [];
    for i := 0 to |ops|
      invariant added + Numbered(sequence, ops[i..]) == Numbered(Sequence(record), ops)
    {
      assert ops[i..][1..] == ops[i + 1..];
      added := added + [Insertion(sequence, ops[i])];
      sequence := (sequence + 1) % TWO64;
    }
    assert added + [] == added;
  }

  // ----- Recovering what was committed -----

  datatype Batch = Batch(sequence: nat, ops: seq<Op>)

  /** Batches as Write commits them: each numbered right after the one before it. */
  ghost predicate Committed(last: nat, batches: seq<Batch>)
    decreases batches
  {
    batches != [] ==>
      && batches[0].sequence == last + 1
      && |batches[0].ops| < 0x8000_0000 && AllFit(batches[0].ops)
      && last + |batches[0].ops| < MAX_SEQUENCE
      && Committed(last + |batches[0].ops|, batches[1..])
  }

  /** The last sequence number after `batches`. */
  function LastOf(last: nat, batches: seq<Batch>): nat {
    if batches == [] then last else LastOf(last, batches[..|batches| - 1]) + |batches[|batches| - 1].ops|
  }

  /** The committed updates with their numbers. */
  function Updates(batches: seq<Batch>): seq<Insertion> {
    if batches == [] then [] else
      var b := batches[|batches| - 1];
      Updates(batches[..|batches| - 1]) + seq(|b.ops|, i requires 0 <= i < |b.ops| => Insertion((b.sequence + i) % TWO64, b.ops[i]))
  }

  lemma {:induction false} CommittedBatch(last: nat, batches: seq<Batch>, i: nat)
    requires Committed(last, batches) && i < |batches|
    ensures var b := batches[i]; b.sequence == LastOf(last, batches[..i]) + 1 && |b.ops| < 0x8000_0000 && AllFit(b.ops)
    ensures batches[i].sequence + |batches[i].ops| <= MAX_SEQUENCE
    decreases i
  {
    if i > 0 {
      CommittedBatch(last + |batches[0].ops|, batches[1..], i - 1);
      LastOfFirst(last, batches[..i]);
      assert batches[..i][1..] == batches[1..][..i - 1];
    }
  }

  lemma {:induction false} LastOfFirst(last: nat, batches: seq<Batch>)
    requires batches != []
    ensures LastOf(last, batches) == LastOf(last + |batches[0].ops|, batches[1..])
    decreases |batches|
  {
    var n := |batches| - 1;
    if n > 0 {
      LastOfFirst(last, batches[..n]);
      assert batches[..n][1..] == batches[1..][..n - 1];
    } else {
      assert LastOf(last, batches[..0]) == last;
    }
  }

  lemma {:induction false} NumberAt(sequence: Word64, ops: seq<Op>, i: nat)
    requires sequence + |ops| < TWO64 && i < |ops|
    ensures |Numbered(sequence, ops)| == |ops|
    ensures Numbered(sequence, ops)[i] == Insertion(sequence + i, ops[i])
    decreases |ops|
  {
    if |ops| > 1 {
      NumberAt(sequence + 1, ops[1..], if i > 0 then i - 1 else 0);
    } else {
      assert Numbered((sequence + 1) % TWO64, ops[1..]) == [];
    }
  }

  lemma NumberedAt(sequence: Word64, ops: seq<Op>)
    requires sequence + |ops| < TWO64
    ensures Numbered(sequence, ops) == seq(|ops|, i requires 0 <= i < |ops| => Insertion((sequence + i) % TWO64, ops[i]))
  {
    hide Numbered;
    if ops == [] {
      NothingNumbered(sequence, ops);
    } else {
      NumberAt(sequence, ops, 0);
      forall i | 0 <= i < |ops| ensures Numbered(sequence, ops)[i] == Insertion((sequence + i) % TWO64, ops[i]) {
        NumberAt(sequence, ops, i);
        assert (sequence + i) % TWO64 == sequence + i;
      }
    }
  }

  lemma NothingNumbered(sequence: Word64, ops: seq<Op>)
    requires ops == []
    ensures Numbered(sequence, ops) == []
  {
  }

  /** One intact committed batch replays as itself. */
  lemma BatchReplays(b: Batch)
    requires b.sequence + |b.ops| <= MAX_SEQUENCE && 1 <= b.sequence && |b.ops| < 0x8000_0000 && AllFit(b.ops)
    ensures var record := EncodeBatch(b.sequence, b.ops);
      && Inserted(record) == seq(|b.ops|, i requires 0 <= i < |b.ops| => Insertion((b.sequence + i) % TWO64, b.ops[i]))
      && LastSequence(record) == b.sequence + |b.ops| - 1
  {
    hide EncodeBatch, Contents, Sequence, Count;
    BatchRoundTrip(b.sequence, b.ops);
    NumberedAt(b.sequence, b.ops);
  }

  lemma CommittedFits(last: nat, batches: seq<Batch>)
    requires Committed(last, batches)
    ensures forall b :: b in batches ==> b.sequence < TWO64 && |b.ops| < TWO32
  {
    forall b | b in batches ensures b.sequence < TWO64 && |b.ops| < TWO32 {
      var i :| 0 <= i < |batches| && batches[i] == b;
      CommittedBatch(last, batches, i);
    }
  }

  /** The log records of committed batches. */
  ghost function Records(last: nat, batches: seq<Batch>): seq<Bytes>
    requires Committed(last, batches)
  {
    CommittedFits(last, batches);
    seq(|batches|, i requires 0 <= i < |batches| => EncodeBatch(batches[i].sequence, batches[i].ops))
  }

  /** A prefix of the committed records replays as that prefix of the batches. */
  lemma {:induction false} PrefixReplays(last: nat, batches: seq<Batch>, n: nat)
    requires Committed(last, batches) && n <= |batches|
    ensures InsertedAll(Records(last, batches)[..n]) == Updates(batches[..n]) && TooShortIn(Records(last, batches)[..n]) == 0
    ensures MaxSequence(Records(last, batches)[..n], last) == LastOf(last, batches[..n])
    decreases n
  {
    hide Inserted, LastSequence, EncodeBatch;
    var records := Records(last, batches);
    if n > 0 {
      var b := batches[n - 1];
      PrefixReplays(last, batches, n - 1);
      CommittedBatch(last, batches, n - 1);
      BatchReplays(b);
      assert records[..n][..n - 1] == records[..n - 1] && records[..n][n - 1] == EncodeBatch(b.sequence, b.ops);
      assert batches[..n][..n - 1] == batches[..n - 1];
    }
  }

  /** Recovery from a log that was cut off after any byte: exactly a prefix of the committed batches, with the
      numbers they were written with, and the last of those numbers; and no corruption is seen. */
  lemma TruncatedLogRecovers(crc: Checksum, last: nat, batches: seq<Batch>, cut: nat)
    requires Committed(last, batches)
    requires cut <= |Log(crc, 0, Records(last, batches))|
    ensures var n := Whole(crc, 0, Records(last, batches), cut);
      var replayed := ReadAll(crc, Log(crc, 0, Records(last, batches))[..cut], 0);
      && n <= |batches|
      && InsertedAll(replayed.0) == Updates(batches[..n])
      && MaxSequence(replayed.0, last) == LastOf(last, batches[..n])
      && replayed.1 == 0 && TooShortIn(replayed.0) == 0
  {
    LogSurvivesTruncation(crc, Records(last, batches), cut);
    PrefixReplays(last, batches, Whole(crc, 0, Records(last, batches), cut));
  }

  ghost predicate Replayable(b: Batch) {
    b.sequence + |b.ops| <= MAX_SEQUENCE && 1 <= b.sequence && |b.ops| < 0x8000_0000 && AllFit(b.ops)
  }

  ghost function Encoded(batches: seq<Batch>): seq<Bytes>
    requires forall i :: 0 <= i < |batches| ==> Replayable(batches[i])
  {
    assert forall i :: 0 <= i < |batches| ==> Replayable(batches[i]) ==> batches[i].sequence < TWO64 && |batches[i].ops| < TWO32;
    seq(|batches|, i requires 0 <= i < |batches| => EncodeBatch(batches[i].sequence, batches[i].ops))
  }

  /** Intact records replay as their batches, whichever they are. */
  lemma {:induction false} BatchesReplay(batches: seq<Batch>)
    requires forall i :: 0 <= i < |batches| ==> Replayable(batches[i])
    ensures InsertedAll(Encoded(batches)) == Updates(batches) && TooShortIn(Encoded(batches)) == 0
    decreases |batches|
  {
    hide Inserted, EncodeBatch;
    if batches != [] {
      var n := |batches| - 1;
      BatchesReplay(batches[..n]);
      BatchReplays(batches[n]);
      assert Encoded(batches)[..n] == Encoded(batches[..n]);
    }
  }

  /** Recovery from a log damaged in one fragment: exactly the batches whose records were not in its way, with the numbers they
      were written with, and reports of the loss; nothing that was not committed. */
  lemma DamagedLogRecovers(crc: Checksum, last: nat, batches: seq<Batch>, k: nat, q: nat, file: Bytes) returns (j: nat)
    requires Committed(last, batches) && k < |batches|
    requires var records := Records(last, batches);
      && q in LogDamage.Headers(LogDamage.StartOf(crc, 0, records, k), records[k])
      && LogDamage.DamagedAt(file, Log(crc, 0, records), q) && Spoiled(crc, file, q)
    ensures var replayed := ReadAll(crc, file, 0);
      && k < j <= |batches| && InsertedAll(replayed.0) == Updates(batches[..k] + batches[j..]) && replayed.1 > 0 && TooShortIn(replayed.0) == 0
  {
    hide ReadAll, Log, Spoiled, EncodeBatch, LogDamage.DamagedAt, LogDamage.StartOf;
    var records := Records(last, batches);
    j := LogDamage.DamageIsContained(crc, records, k, q, file);
    var left := batches[..k] + batches[j..];
    forall i | 0 <= i < |left| ensures Replayable(left[i]) {
      CommittedBatch(last, batches, if i < k then i else i - k + j);
    }
    assert records[..k] + records[j..] == Encoded(left);
    BatchesReplay(left);
  }

  // ----- And as the store's history -----

  function Chars(b: Bytes): Value {
    seq(|b|, i requires 0 <= i < |b| => b[i] as char)
  }

  /** An update as the state machine of the store has it: the key by its rank. */
  function UpdateOf(op: Op): Stores.Update {
    Stores.Update(op.kind, BytewiseComparator.Rank(op.key), Chars(op.value))
  }

  function UpdatesOf(ops: seq<Op>): seq<Stores.Update> {
    seq(|ops|, i requires 0 <= i < |ops| => UpdateOf(ops[i]))
  }

  function EntryOf(i: Insertion): Entry
    requires i.sequence <= MAX_SEQUENCE
  {
    Entry(InternalKey(BytewiseComparator.Rank(i.op.key), i.sequence, i.op.kind), Chars(i.op.value))
  }

  /** All the store has written after committing `batches`, by the store's own Write steps. */
  ghost function History(last: nat, batches: seq<Batch>): set<Entry>
    requires Committed(last, batches)
    decreases batches
  {
    if batches == [] then {} else
      ToSet(Stores.NewEntries(UpdatesOf(batches[0].ops), last + 1))
      + History(last + |batches[0].ops|, batches[1..])
  }

  lemma {:induction false} CommittedPrefix(last: nat, batches: seq<Batch>, n: nat)
    requires Committed(last, batches) && n <= |batches|
    ensures Committed(last, batches[..n])
    decreases n
  {
    if n > 0 {
      CommittedPrefix(last + |batches[0].ops|, batches[1..], n - 1);
      assert batches[..n][1..] == batches[1..][..n - 1];
    }
  }

  lemma {:induction false} HistoryOfLast(last: nat, batches: seq<Batch>)
    requires Committed(last, batches) && batches != []
    requires Committed(last, batches[..|batches| - 1])
    requires LastOf(last, batches[..|batches| - 1]) + |batches[|batches| - 1].ops| < MAX_SEQUENCE
    ensures var n := |batches| - 1;
      History(last, batches) == History(last, batches[..n])
        + ToSet(Stores.NewEntries(UpdatesOf(batches[n].ops), LastOf(last, batches[..n]) + 1))
    decreases |batches|
  {
    hide UpdatesOf, ToSet;
    var n := |batches| - 1;
    if n == 0 {
      assert History(last, batches[..0]) == {} && History(last + |batches[0].ops|, batches[1..]) == {};
      assert LastOf(last, batches[..0]) == last;
    } else {
      var last1 := last + |batches[0].ops|;
      CommittedPrefix(last1, batches[1..], n - 1);
      LastOfFirst(last, batches[..n]);
      assert batches[..n][1..] == batches[1..][..n - 1];
      HistoryOfLast(last1, batches[1..]);
    }
  }

  /** The replayed entries are the history those batches made. */
  lemma {:induction false} UpdatesAreHistory(last: nat, batches: seq<Batch>)
    requires Committed(last, batches)
    ensures forall i :: i in Updates(batches) ==> i.sequence <= MAX_SEQUENCE
    ensures (set i | i in Updates(batches) :: EntryOf(i)) == History(last, batches)
    decreases |batches|
  {
    if batches != [] {
      var n := |batches| - 1;
      var b := batches[n];
      var before := batches[..n];
      CommittedPrefix(last, batches, n);
      CommittedBatch(last, batches, n);
      UpdatesAreHistory(last, before);
      HistoryOfLast(last, batches);
      BatchIsHistory(b);
      var added := seq(|b.ops|, i requires 0 <= i < |b.ops| => Insertion((b.sequence + i) % TWO64, b.ops[i]));
      assert Updates(batches) == Updates(before) + added;
    }
  }

  lemma BatchIsHistory(b: Batch)
    requires b.sequence + |b.ops| <= MAX_SEQUENCE
    ensures var added := seq(|b.ops|, i requires 0 <= i < |b.ops| => Insertion((b.sequence + i) % TWO64, b.ops[i]));
      && (forall i :: i in added ==> i.sequence <= MAX_SEQUENCE)
      && (set i | i in added :: EntryOf(i)) == ToSet(Stores.NewEntries(UpdatesOf(b.ops), b.sequence))
  {
    var added := seq(|b.ops|, i requires 0 <= i < |b.ops| => Insertion((b.sequence + i) % TWO64, b.ops[i]));
    var entries := Stores.NewEntries(UpdatesOf(b.ops), b.sequence);
    assert forall i :: 0 <= i < |added| ==> EntryOf(added[i]) == entries[i];
    forall e | e in entries ensures exists i :: i in added && EntryOf(i) == e {
      var k :| 0 <= k < |entries| && entries[k] == e;
      assert added[k] in added;
    }
  }

  /** After a crash the store holds what its first `n` committed batches wrote, and numbers on from there. */
  lemma RecoveryIsAPrefixOfHistory(crc: Checksum, last: nat, batches: seq<Batch>, cut: nat)
    requires Committed(last, batches)
    requires cut <= |Log(crc, 0, Records(last, batches))|
    ensures var n := Whole(crc, 0, Records(last, batches), cut);
      var inserted := InsertedAll(ReadAll(crc, Log(crc, 0, Records(last, batches))[..cut], 0).0);
      && n <= |batches|
      && Committed(last, batches[..n])
      && (forall i :: i in inserted ==> i.sequence <= MAX_SEQUENCE)
      && (set i | i in inserted :: EntryOf(i)) == History(last, batches[..n])
  {
    hide EntryOf, History, Log, ReadAll, Whole, Committed;
    TruncatedLogRecovers(crc, last, batches, cut);
    CommittedPrefix(last, batches, Whole(crc, 0, Records(last, batches), cut));
    UpdatesAreHistory(last, batches[..Whole(crc, 0, Records(last, batches), cut)]);
  }
}
