/** A log cut off anywhere reads back as the records that lie wholly before the cut (db/log_reader.cc). */
module LogRoundTrip {
  import opened DbFormat
  import opened Coding
  import opened LogFormat

  /** The bytes of `whole` that `file` still has from `p` on. */
  predicate HoldsAt(file: Bytes, p: nat, whole: Bytes) {
    p <= |file| && if p + |whole| <= |file| then file[p..p + |whole|] == whole else file[p..] == whole[..|file| - p]
  }

  lemma ParseComplete(crc: Checksum, buffer: Bytes, atEof: bool, t: RecordType, payload: Bytes)
    requires |payload| <= 0xffff && !t.Zero?
    requires HEADER_SIZE + |payload| <= |buffer|
    requires buffer[..HEADER_SIZE + |payload|] == Physical(crc, t, payload)
    ensures ParseBuffer(crc, buffer, atEof) == Parsed(Code(t), payload)
  {
    var head := EncodeFixed32(Mask(crc([Code(t)] + payload)));
    var record := Physical(crc, t, payload);
    var n := HEADER_SIZE + |payload|;
    assert buffer[4] == record[4] == |payload| % 256;
    assert buffer[5] == record[5] == |payload| / 256;
    assert buffer[6] == record[6] == Code(t);
    assert buffer[6..n] == record[6..] == [Code(t)] + payload;
    assert buffer[HEADER_SIZE..n] == record[HEADER_SIZE..] == payload;
    assert DecodeFixed32(buffer) == DecodeFixed32(head) by {
      assert forall i :: 0 <= i < 4 ==> buffer[i] == record[i] == head[i];
    }
    Fixed32RoundTrip(Mask(crc([Code(t)] + payload)), []);
    assert head + [] == head;
    UnmaskInvertsMask(crc([Code(t)] + payload));
  }

  lemma PhysicalComplete(crc: Checksum, file: Bytes, p: nat, t: RecordType, payload: Bytes)
    requires p % BLOCK_SIZE + HEADER_SIZE + |payload| <= BLOCK_SIZE
    requires p + HEADER_SIZE + |payload| <= |file|
    requires HoldsAt(file, p, Physical(crc, t, payload))
    requires !t.Zero?
    ensures ReadPhysical(crc, file, p) == Got(Code(t), payload, p + HEADER_SIZE + |payload|)
  {
    hide ParseBuffer, Physical;
    BlockOf(p, p);
    var block := p - p % BLOCK_SIZE + BLOCK_SIZE;
    var end := Min(|file|, block);
    assert file[p..end][..HEADER_SIZE + |payload|] == file[p..p + HEADER_SIZE + |payload|];
    ParseComplete(crc, file[p..end], end % BLOCK_SIZE != 0, t, payload);
  }

  lemma PhysicalCut(crc: Checksum, file: Bytes, p: nat, t: RecordType, payload: Bytes)
    requires p % BLOCK_SIZE + HEADER_SIZE + |payload| <= BLOCK_SIZE
    requires p <= |file| < p + HEADER_SIZE + |payload|
    requires HoldsAt(file, p, Physical(crc, t, payload))
    ensures ReadPhysical(crc, file, p) == Eof
  {
    hide ParseBuffer, Physical;
    BlockOf(p, |file|);
    if |file| - p >= HEADER_SIZE {
      assert file[p..] == file[p..|file|];
      ParseCut(crc, file[p..], t, payload);
    }
  }

  /** A position past `p` but inside its block is on no block boundary. */
  lemma BlockOf(p: nat, q: nat)
    requires p <= q < p - p % BLOCK_SIZE + BLOCK_SIZE
    ensures (q == p && p % BLOCK_SIZE == 0) || q % BLOCK_SIZE != 0
    ensures p - p % BLOCK_SIZE + BLOCK_SIZE == (p / BLOCK_SIZE + 1) * BLOCK_SIZE
  {
  }

  lemma ParseCut(crc: Checksum, buffer: Bytes, t: RecordType, payload: Bytes)
    requires |payload| <= 0xffff
    requires HEADER_SIZE <= |buffer| < HEADER_SIZE + |payload|
    requires buffer == Physical(crc, t, payload)[..|buffer|]
    ensures ParseBuffer(crc, buffer, true) == Short
  {
    var record := Physical(crc, t, payload);
    assert buffer[4] == record[4] == |payload| % 256;
    assert buffer[5] == record[5] == |payload| / 256;
  }

  lemma HoldsSplit(file: Bytes, p: nat, a: Bytes, b: Bytes)
    requires HoldsAt(file, p, a + b)
    ensures HoldsAt(file, p, a)
    ensures p + |a| <= |file| ==> HoldsAt(file, p + |a|, b)
  {
    if p + |a| <= |file| {
      if p + |a + b| <= |file| {
        assert file[p..p + |a|] == file[p..p + |a + b|][..|a|] == a;
        assert file[p + |a|..p + |a| + |b|] == file[p..p + |a + b|][|a|..] == b;
      } else {
        assert file[p..p + |a|] == file[p..][..|a|] == a;
        assert file[p + |a|..] == file[p..][|a|..] == b[..|file| - p - |a|];
      }
    } else {
      assert file[p..] == a[..|file| - p];
    }
  }

  /** A trailer too short for a header is skipped, whole or cut. */
  lemma TrailerIsSkipped(crc: Checksum, file: Bytes, p: nat, next: nat, inFragment: bool, scratch: Bytes, reports: nat)
    requires p <= |file|
    requires p <= next < p + HEADER_SIZE && next % BLOCK_SIZE == 0
    ensures ReadLogical(crc, file, p, inFragment, scratch, reports)
      == if next <= |file| then ReadLogical(crc, file, next, inFragment, scratch, reports) else End(reports)
  {
    if p < next {
      assert (p / BLOCK_SIZE + 1) * BLOCK_SIZE == next;
      if next <= |file| {
        assert ReadPhysical(crc, file, p) == ReadPhysical(crc, file, next);
      } else {
        assert |file| % BLOCK_SIZE != 0;
      }
    }
  }

  /** The reader on one physical record that ends its logical record, or does not. */
  lemma ReadsOne(crc: Checksum, file: Bytes, p: nat, fragment: Bytes, begin: bool, end: bool, scratch: Bytes, reports: nat)
    requires p % BLOCK_SIZE + HEADER_SIZE + |fragment| <= BLOCK_SIZE
    requires p <= |file| && HoldsAt(file, p, Physical(crc, TypeOf(begin, end), fragment))
    requires begin ==> scratch == []
    ensures var n := p + HEADER_SIZE + |fragment|;
      ReadLogical(crc, file, p, !begin, scratch, reports)
      == if |file| < n then End(reports)
         else if end then Record(scratch + fragment, n, reports)
         else ReadLogical(crc, file, n, true, scratch + fragment, reports)
  {
    hide ReadPhysical, HoldsAt, Physical;
    assert begin ==> scratch + fragment == fragment;
    if p + HEADER_SIZE + |fragment| <= |file| {
      PhysicalComplete(crc, file, p, TypeOf(begin, end), fragment);
    } else {
      PhysicalCut(crc, file, p, TypeOf(begin, end), fragment);
    }
  }

  /** Fragments, one step. */
  lemma FragmentsStep(crc: Checksum, offset: nat, payload: Bytes, begin: bool)
    requires offset <= BLOCK_SIZE
    ensures var avail := BLOCK_SIZE - offset - HEADER_SIZE;
      Fragments(crc, offset, payload, begin) ==
      if avail < 0 then Zeros(BLOCK_SIZE - offset) + Fragments(crc, 0, payload, begin)
      else if |payload| <= avail then Physical(crc, TypeOf(begin, true), payload)
      else Physical(crc, TypeOf(begin, false), payload[..avail]) + Fragments(crc, BLOCK_SIZE, payload[avail..], false)
  {
  }

  lemma EndOfBlock(p: nat, offset: nat)
    requires offset <= BLOCK_SIZE && p % BLOCK_SIZE == offset % BLOCK_SIZE
    ensures offset < BLOCK_SIZE ==> p % BLOCK_SIZE == offset
    ensures (p + (BLOCK_SIZE - offset)) % BLOCK_SIZE == 0
  {
  }

  /** The reader on what the writer wrote for one record, from any fragment of it on, for any cut. */
  lemma {:induction false} ReadsBack(crc: Checksum, file: Bytes, p: nat, offset: nat, payload: Bytes, begin: bool, scratch: Bytes, reports: nat)
    requires offset <= BLOCK_SIZE && p % BLOCK_SIZE == offset % BLOCK_SIZE
    requires p <= |file| && HoldsAt(file, p, Fragments(crc, offset, payload, begin))
    requires begin ==> scratch == []
    ensures var n := p + |Fragments(crc, offset, payload, begin)|;
      ReadLogical(crc, file, p, !begin, scratch, reports)
      == if n <= |file| then Record(scratch + payload, n, reports) else End(reports)
    decreases |payload|, BLOCK_SIZE + (if offset + HEADER_SIZE > BLOCK_SIZE then 2 else if offset + HEADER_SIZE == BLOCK_SIZE then 3 else 1)
  {
    hide ReadLogical, HoldsAt, Physical, Fragments;
    var whole := Fragments(crc, offset, payload, begin);
    EndOfBlock(p, offset);
    FragmentsStep(crc, offset, payload, begin);
    if BLOCK_SIZE - offset < HEADER_SIZE {
      var rest := Fragments(crc, 0, payload, begin);
      var zeros := Zeros(BLOCK_SIZE - offset);
      assert whole == zeros + rest;
      HoldsSplit(file, p, zeros, rest);
      TrailerIsSkipped(crc, file, p, p + |zeros|, !begin, scratch, reports);
      if p + |zeros| <= |file| {
        ReadsBack(crc, file, p + |zeros|, 0, payload, begin, scratch, reports);
      }
    } else {
      var avail := BLOCK_SIZE - offset - HEADER_SIZE;
      if |payload| <= avail {
        ReadsOne(crc, file, p, payload, begin, true, scratch, reports);
      } else {
        var fragment := payload[..avail];
        var head, rest := Physical(crc, TypeOf(begin, false), fragment), Fragments(crc, BLOCK_SIZE, payload[avail..], false);
        assert whole == head + rest;
        HoldsSplit(file, p, head, rest);
        ReadsOne(crc, file, p, fragment, begin, false, scratch, reports);
        if p + |head| <= |file| {
          assert scratch + fragment + payload[avail..] == scratch + payload;
          ReadsBack(crc, file, p + |head|, BLOCK_SIZE, payload[avail..], false, scratch + fragment, reports);
        }
      }
    }
  }

  /** The bytes of a log of `records` that starts `start` bytes into its file. */
  function Log(crc: Checksum, start: nat, records: seq<Bytes>): Bytes
    decreases records
  {
    if records == [] then [] else
      var first := Fragments(crc, start % BLOCK_SIZE, records[0], true);
      first + Log(crc, start + |first|, records[1..])
  }

  /** The loop of RecoverLogFile: read records from `p` until there are no more, counting corruption reports. */
  function ReadAll(crc: Checksum, file: Bytes, p: nat): (seq<Bytes>, nat)
    requires p <= |file|
    decreases |file| - p
  {
    match ReadLogical(crc, file, p, false, [], 0)
    case End(reports) => ([], reports)
    case Record(record, next, reports) =>
      var rest := ReadAll(crc, file, next);
      ([record] + rest.0, reports + rest.1)
  }

  /** How many records end within the first `size` bytes. */
  function Whole(crc: Checksum, start: nat, records: seq<Bytes>, size: int): (n: nat)
    ensures n <= |records|
    decreases records
  {
    if records == [] then 0 else
      var first := |Fragments(crc, start % BLOCK_SIZE, records[0], true)|;
      if first <= size then 1 + Whole(crc, start + first, records[1..], size - first) else 0
  }

  /** `Whole` counts exactly the records whose last byte the cut kept. */
  lemma {:induction false} WholeCountsEnds(crc: Checksum, start: nat, records: seq<Bytes>, size: nat, i: nat)
    requires i < |records|
    ensures i < Whole(crc, start, records, size) <==> |Log(crc, start, records[..i + 1])| <= size
    decreases records
  {
    var first := Fragments(crc, start % BLOCK_SIZE, records[0], true);
    assert records[..i + 1][1..] == records[1..][..i];
    if i > 0 && |first| <= size {
      WholeCountsEnds(crc, start + |first|, records[1..], size - |first|, i - 1);
    } else if i == 0 {
      assert Log(crc, start + |first|, records[1..][..0]) == [];
    }
  }

  /** One turn of the loop. */
  lemma NextRecord(crc: Checksum, file: Bytes, p: nat)
    requires p <= |file|
    ensures match ReadLogical(crc, file, p, false, [], 0)
      case End(n) => ReadAll(crc, file, p) == ([], n)
      case Record(record, next, n) =>
        ReadAll(crc, file, p) == ([record] + ReadAll(crc, file, next).0, n + ReadAll(crc, file, next).1)
  {
    hide ReadLogical;
  }

  function MoreReports(r: LogicalRead, n: nat): LogicalRead {
    r.(reports := r.reports + n)
  }

  lemma TurnOnlyAdds(read: PhysicalRead, inFragment: bool, scratch: Bytes, m: nat, n: nat)
    ensures TurnOf(read, inFragment, scratch, m + n) ==
      match TurnOf(read, inFragment, scratch, m)
      case Done(result) => Done(MoreReports(result, n))
      case Again(next, f, s, k) => Again(next, f, s, k + n)
  {
  }

  /** Reports made before do not change what is read. */
  lemma {:induction false} ReportsOnlyAdd(crc: Checksum, file: Bytes, p: nat, inFragment: bool, scratch: Bytes, m: nat, n: nat)
    requires p <= |file|
    ensures ReadLogical(crc, file, p, inFragment, scratch, m + n) == MoreReports(ReadLogical(crc, file, p, inFragment, scratch, m), n)
    decreases |file| - p
  {
    hide ReadPhysical, TurnOf;
    TurnOnlyAdds(ReadPhysical(crc, file, p), inFragment, scratch, m, n);
    match TurnOf(ReadPhysical(crc, file, p), inFragment, scratch, m)
    case Done(_) =>
    case Again(next, f, s, k) => ReportsOnlyAdd(crc, file, next, f, s, k, n);
  }

  lemma ReadAllStep(crc: Checksum, file: Bytes, p: nat, reports: nat)
    requires p <= |file|
    ensures match ReadLogical(crc, file, p, false, [], reports)
      case End(n) => n >= reports && ReadAll(crc, file, p) == ([], n - reports)
      case Record(record, next, n) =>
        n >= reports && ReadAll(crc, file, p) == ([record] + ReadAll(crc, file, next).0, n - reports + ReadAll(crc, file, next).1)
  {
    hide ReadLogical;
    ReportsOnlyAdd(crc, file, p, false, [], 0, reports);
  }

  lemma NothingLeft(crc: Checksum, file: Bytes)
    ensures ReadLogical(crc, file, |file|, false, [], 0) == End(0)
  {
    assert BufferEnd(file, |file|) == |file|;
  }

  /** Truncation: reading the first `cut` bytes of a log yields the records wholly inside them, in order, and no report. */
  lemma {:induction false} TruncatedLogReads(crc: Checksum, file: Bytes, start: nat, records: seq<Bytes>)
    requires start <= |file| && HoldsAt(file, start, Log(crc, start, records))
    requires |file| <= start + |Log(crc, start, records)|
    ensures ReadAll(crc, file, start) == (records[..Whole(crc, start, records, |file| - start)], 0)
    decreases records
  {
    hide ReadLogical, HoldsAt, Fragments, ReadAll;
    NextRecord(crc, file, start);
    if records == [] {
      assert Log(crc, start, records) == [] && |file| == start;
      NothingLeft(crc, file);
    } else {
      var first := Fragments(crc, start % BLOCK_SIZE, records[0], true);
      var rest := Log(crc, start + |first|, records[1..]);
      HoldsSplit(file, start, first, rest);
      ReadsBack(crc, file, start, start % BLOCK_SIZE, records[0], true, [], 0);
      if start + |first| <= |file| {
        TruncatedLogReads(crc, file, start + |first|, records[1..]);
        var n := Whole(crc, start + |first|, records[1..], |file| - start - |first|);
        assert records[..1 + n] == [records[0]] + records[1..][..n];
        assert [] + records[0] == records[0];
      }
    }
  }

  /** The whole log, cut after any byte. */
  lemma LogSurvivesTruncation(crc: Checksum, records: seq<Bytes>, cut: nat)
    requires cut <= |Log(crc, 0, records)|
    ensures ReadAll(crc, Log(crc, 0, records)[..cut], 0) == (records[..Whole(crc, 0, records, cut)], 0)
  {
    var file := Log(crc, 0, records)[..cut];
    assert file[0..] == Log(crc, 0, records)[..|file|];
    TruncatedLogReads(crc, file, 0, records);
  }
}
