/** Replaying what is left of a write-ahead log into a memtable (RecoverLogFile in db/db_impl.cc). */
module LogReplay {
  import opened DbFormat
  import opened LogFormat
  import opened LogRoundTrip
  import LogReaders
  import opened Coding
  import opened WriteBatches
  import R = Recovery
  import opened CrashSafety
  import opened Databases

  lemma {:induction false} UpdatesNumbered(last: nat, batches: seq<R.Batch>)
    requires R.Committed(last, batches)
    ensures |R.Updates(batches)| == R.LastOf(last, batches) - last
    ensures forall i :: 0 <= i < |R.Updates(batches)| ==> R.Updates(batches)[i].sequence == last + 1 + i
    decreases |batches|
  {
    hide R.Committed;
    if batches != [] {
      var n := |batches| - 1;
      var b, front := batches[n], R.Updates(batches[..n]);
      R.CommittedPrefix(last, batches, n);
      R.CommittedBatch(last, batches, n);
      UpdatesNumbered(last, batches[..n]);
      var all := R.Updates(batches);
      forall j | |front| <= j < |all| ensures all[j].sequence == b.sequence + (j - |front|) {
        InRange(b.sequence + (j - |front|));
      }
    }
  }

  lemma InRange(n: nat)
    requires n < TWO64
    ensures n % TWO64 == n
  {
  }

  /** MemTableInserter on numbered updates. */
  method InsertAll(mem: seq<Entry>, inserted: seq<R.Insertion>, ghost start: nat) returns (r: seq<Entry>)
    requires Sorted(mem) && forall e :: e in mem ==> e.key.sequence <= start
    requires start + |inserted| <= MAX_SEQUENCE && forall i :: 0 <= i < |inserted| ==> inserted[i].sequence == start + 1 + i
    ensures forall i :: i in inserted ==> i.sequence <= MAX_SEQUENCE
    ensures Sorted(r) && ToSet(r) == ToSet(mem) + set i | i in inserted :: R.EntryOf(i)
  {
    hide Sorted;
    r := mem;
    for n := 0 to |inserted|
      invariant Sorted(r) && ToSet(r) == ToSet(mem) + set i | i in inserted[..n] :: R.EntryOf(i)
      invariant forall e :: e in r ==> e.key.sequence <= start + n
    {
      var e := R.EntryOf(inserted[n]);
      assert inserted[..n + 1] == inserted[..n] + [inserted[n]];
      r := InsertSorted(r, e);
      assert forall f :: f in r ==> f in ToSet(r);
    }
    assert inserted[..|inserted|] == inserted;
  }

  /** The largest sequence number a replay has seen. */
  lemma {:induction false} LargestReplayed(last: nat, batches: seq<R.Batch>, n: nat, start: nat)
    requires R.Committed(last, batches) && n <= |batches|
    ensures R.MaxSequence(R.Records(last, batches)[..n], start) ==
            (if n == 0 || R.LastOf(last, batches[..n]) <= start then start else R.LastOf(last, batches[..n]))
    decreases n
  {
    hide *;
    if n > 0 {
      var b := batches[n - 1];
      LargestReplayed(last, batches, n - 1, start);
      R.CommittedBatch(last, batches, n - 1);
      R.BatchReplays(b);
      OneMoreBatch(last, batches, n);
      LargestStep(R.Records(last, batches)[..n - 1], EncodeBatch(b.sequence, b.ops), start);
    } else {
      LargestOfNone(start);
      assert R.Records(last, batches)[..0] == [];
    }
  }

  lemma OneMoreBatch(last: nat, batches: seq<R.Batch>, n: nat)
    requires R.Committed(last, batches) && 0 < n <= |batches|
    ensures var b := batches[n - 1];
      && b.sequence < 0x1_0000_0000_0000_0000 && |b.ops| < TWO32 && |R.Records(last, batches)| == |batches|
      && R.Records(last, batches)[..n] == R.Records(last, batches)[..n - 1] + [EncodeBatch(b.sequence, b.ops)]
      && R.LastOf(last, batches[..n]) == R.LastOf(last, batches[..n - 1]) + |b.ops|
      && (n == 1 ==> R.LastOf(last, batches[..0]) == last)
  {
    hide EncodeBatch, R.Committed;
    R.CommittedFits(last, batches);
    assert batches[n - 1] in batches && batches[..n][..n - 1] == batches[..n - 1];
  }

  lemma LargestStep(records: seq<Bytes>, record: Bytes, start: nat)
    requires |record| >= HEADER
    ensures var before := R.MaxSequence(records, start);
      R.MaxSequence(records + [record], start) == if R.LastSequence(record) > before then R.LastSequence(record) else before
  {
    assert (records + [record])[..|records|] == records;
  }

  lemma LargestOfNone(start: nat)
    ensures R.MaxSequence([], start) == start
  {
  }

  /** The larger of `start` and the last sequence number of the first `n` batches of a log. */
  function Larger(start: nat, l: LogFile, n: nat): nat
    requires n <= |l.batches|
  {
    if n == 0 || R.LastOf(l.start, l.batches[..n]) <= start then start else R.LastOf(l.start, l.batches[..n])
  }

  /** RecoverLogFile on what is left of a log, into a memtable. */
  method ReplayLog(crc: Checksum, file: Bytes, mem: seq<Entry>, start: nat, full: seq<R.Insertion> -> bool, ghost l: LogFile)
    returns (r: seq<Entry>, last: nat, ghost n: nat)
    requires l.Ok() && file <= Log(crc, 0, R.Records(l.start, l.batches))
    requires Sorted(mem) && forall e :: e in mem ==> e.key.sequence <= l.start
    ensures n == Whole(crc, 0, R.Records(l.start, l.batches), |file|) <= |l.batches|
    ensures Sorted(r) && ToSet(r) == ToSet(mem) + l.Wrote(n)
    ensures last == Larger(start, l, n) && forall e :: e in l.Wrote(n) ==> e.key.sequence <= last
    ensures start <= last && (last <= start || last <= l.Last())
    ensures l.start <= l.Last() && forall e :: e in r ==> e.key.sequence <= l.Last()
  {
    hide Sorted, ReadAll, Log, R.Committed, R.InsertedAll, R.MaxSequence, R.Updates, R.EntryOf;
    ghost var inserted, largest;
    n, inserted, largest := ReplayFacts(crc, l, |file|, start);
    assert file == Log(crc, 0, R.Records(l.start, l.batches))[..|file|];
    var reader := new LogReaders.Reader(crc, file);
    var tables, left;
    ghost var cuts;
    tables, left, last, cuts := R.RecoverLogFile(reader, full, start);
    r := InsertAll(mem, R.Flat(tables) + left, l.start);
    LogFacts(l, n);
    assert forall e :: e in r ==> e in ToSet(r);
  }

  lemma ReplayFacts(crc: Checksum, l: LogFile, cut: nat, start: nat) returns (n: nat, inserted: seq<R.Insertion>, largest: nat)
    requires l.Ok() && cut <= |Log(crc, 0, R.Records(l.start, l.batches))|
    ensures n == Whole(crc, 0, R.Records(l.start, l.batches), cut) <= |l.batches|
    ensures var replayed := ReadAll(crc, Log(crc, 0, R.Records(l.start, l.batches))[..cut], 0).0;
      inserted == R.InsertedAll(replayed) && largest == R.MaxSequence(replayed, start)
    ensures l.start + |inserted| <= MAX_SEQUENCE && forall i :: 0 <= i < |inserted| ==> inserted[i].sequence == l.start + 1 + i
    ensures (forall i :: i in inserted ==> i.sequence <= MAX_SEQUENCE) && (set i | i in inserted :: R.EntryOf(i)) == l.Wrote(n)
    ensures largest == Larger(start, l, n) && forall e :: e in l.Wrote(n) ==> e.key.sequence <= largest
    ensures start <= largest && (largest <= start || largest <= l.Last())
  {
    hide Log, ReadAll, R.EntryOf, R.Committed, R.Updates, R.InsertedAll, R.MaxSequence;
    ghost var records := R.Records(l.start, l.batches);
    n := Whole(crc, 0, records, cut);
    R.TruncatedLogRecovers(crc, l.start, l.batches, cut);
    LogSurvivesTruncation(crc, records, cut);
    R.CommittedPrefix(l.start, l.batches, n);
    UpdatesNumbered(l.start, l.batches[..n]);
    R.UpdatesAreHistory(l.start, l.batches[..n]);
    LargestReplayed(l.start, l.batches, n, start);
    PrefixEndsEarlier(l.start, l.batches, n);
    HistoryFacts(l.start, l.batches[..n]);
    inserted := R.Updates(l.batches[..n]);
    largest := R.MaxSequence(records[..n], start);
    NothingWrote(l);
  }

  /** A batch whose record ends before the cut survives: a synced one always does. */
  lemma LoggedSurvives(crc: Checksum, l: LogFile, k: nat, cut: nat)
    requires l.Ok() && k <= |l.batches|
    ensures R.Committed(l.start, l.batches[..k])
    ensures k > 0 && |Log(crc, 0, R.Records(l.start, l.batches[..k]))| <= cut ==>
              k <= Whole(crc, 0, R.Records(l.start, l.batches), cut)
  {
    hide R.Committed, Log, EncodeBatch;
    R.CommittedPrefix(l.start, l.batches, k);
    if k > 0 {
      assert R.Records(l.start, l.batches)[..k] == R.Records(l.start, l.batches[..k]);
      WholeCountsEnds(crc, 0, R.Records(l.start, l.batches), cut, k - 1);
    }
  }

  lemma WholeLogKept(crc: Checksum, l: LogFile)
    requires l.Ok()
    ensures Whole(crc, 0, R.Records(l.start, l.batches), |Log(crc, 0, R.Records(l.start, l.batches))|) == |l.batches|
  {
    hide R.Committed, Log, EncodeBatch;
    LoggedSurvives(crc, l, |l.batches|, |Log(crc, 0, R.Records(l.start, l.batches))|);
    assert l.batches[..|l.batches|] == l.batches;
  }

  lemma NothingWrote(l: LogFile)
    requires l.Ok()
    ensures l.Wrote(0) == {}
  {
  }

  lemma {:induction false} PrefixEndsEarlier(last: nat, batches: seq<R.Batch>, n: nat)
    requires n <= |batches|
    ensures R.LastOf(last, batches[..n]) <= R.LastOf(last, batches)
    decreases |batches|
  {
    if n < |batches| {
      PrefixEndsEarlier(last, batches[..|batches| - 1], n);
      assert batches[..|batches| - 1][..n] == batches[..n];
    } else {
      assert batches[..n] == batches;
    }
  }

  lemma MoreInLog(l: LogFile, b: R.Batch)
    requires l.Ok() && R.Committed(l.Last(), [b]) && l.Last() + |b.ops| < MAX_SEQUENCE
    ensures b.sequence < TWO64 && |b.ops| < TWO32
    ensures var more := l.(batches := l.batches + [b]);
      && more.Ok() && more.Last() == l.Last() + |b.ops|
      && R.Records(more.start, more.batches) == R.Records(l.start, l.batches) + [EncodeBatch(b.sequence, b.ops)]
  {
    CommittedMore(l.start, l.batches, b);
    assert (l.batches + [b])[..|l.batches|] == l.batches;
  }

  lemma OneBatch(last: nat, ops: seq<Op>)
    requires |ops| < 0x8000_0000 && AllFit(ops) && last + |ops| < MAX_SEQUENCE
    ensures R.Committed(last, [R.Batch(last + 1, ops)]) && |R.UpdatesOf(ops)| == |ops|
  {
    assert [R.Batch(last + 1, ops)][1..] == [];
  }
}
