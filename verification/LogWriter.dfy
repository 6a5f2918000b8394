/** log::Writer (db/log_writer.cc). The destination file is the bytes appended to it so far. */
module LogWriters {
  import opened DbFormat
  import opened Coding
  import opened LogFormat
  import opened LogRoundTrip

  /** A full block and an empty one are the same place. */
  lemma OffsetModuloBlock(crc: Checksum, offset: nat, payload: Bytes, begin: bool)
    requires offset <= BLOCK_SIZE
    ensures Fragments(crc, offset, payload, begin) == Fragments(crc, offset % BLOCK_SIZE, payload, begin)
  {
    hide Fragments;
    if offset == BLOCK_SIZE {
      FragmentsStep(crc, offset, payload, begin);
      assert Zeros(0) == [];
    }
  }

  lemma {:induction false} LogAppend(crc: Checksum, start: nat, records: seq<Bytes>, record: Bytes)
    ensures var log := Log(crc, start, records);
      Log(crc, start, records + [record]) == log + Fragments(crc, (start + |log|) % BLOCK_SIZE, record, true)
    decreases records
  {
    hide Fragments;
    if records == [] {
      assert [record][1..] == [];
    } else {
      var first := Fragments(crc, start % BLOCK_SIZE, records[0], true);
      LogAppend(crc, start + |first|, records[1..], record);
      assert (records + [record])[1..] == records[1..] + [record];
    }
  }

  lemma SameOffset(a: nat, b: nat, k: nat)
    requires a % BLOCK_SIZE == b % BLOCK_SIZE
    ensures (a + k) % BLOCK_SIZE == (b + k) % BLOCK_SIZE
  {
    assert a + k - (b + k) == BLOCK_SIZE * (a / BLOCK_SIZE - b / BLOCK_SIZE);
  }

  class Writer {
    const crc: Checksum
    var dest: Bytes
    var blockOffset: nat
    /** What the file held before this writer, and the records added since. */
    ghost const before: Bytes
    ghost var records: seq<Bytes>

    ghost predicate Valid()
      reads this
    {
      && blockOffset <= BLOCK_SIZE
      && blockOffset % BLOCK_SIZE == |dest| % BLOCK_SIZE
      && dest == before + Log(crc, |before|, records)
    }

    /** A writer on an empty file, or appending to one that a recovery reuses. */
    constructor (crc: Checksum, dest: Bytes)
      ensures Valid() && this.crc == crc && this.dest == dest && before == dest && records == []
    {
      this.crc := crc;
      this.dest := dest;
      blockOffset := |dest| % BLOCK_SIZE;
      before := dest;
      records := [];
    }

    /** The log grows by exactly the fragments of `payload`, and is the log of one more record. */
    method AddRecord(payload: Bytes)
      requires Valid()
      modifies this
      ensures Valid() && records == old(records) + [payload]
      ensures dest == old(dest) + Fragments(crc, |old(dest)| % BLOCK_SIZE, payload, true)
    {
      hide Fragments, Physical, Log, Zeros;
      var left := payload;
      var begin, more := true, true;
      OffsetModuloBlock(crc, blockOffset, payload, true);
      ghost var whole := dest + Fragments(crc, blockOffset, payload, true);
      while more
        invariant blockOffset <= BLOCK_SIZE && blockOffset % BLOCK_SIZE == |dest| % BLOCK_SIZE
        invariant records == old(records)
        invariant whole == if more then dest + Fragments(crc, blockOffset, left, begin) else dest
        decreases more, |left|, BLOCK_SIZE - blockOffset == HEADER_SIZE
      {
        FragmentsStep(crc, blockOffset, left, begin);
        var leftover := BLOCK_SIZE - blockOffset;
        if leftover < HEADER_SIZE {
          SameOffset(blockOffset, |dest|, leftover);
          AppendAssociates(dest, Zeros(leftover), Fragments(crc, 0, left, begin));
          dest := dest + Zeros(leftover);
          blockOffset := 0;
          FragmentsStep(crc, 0, left, begin);
        }
        var avail := BLOCK_SIZE - blockOffset - HEADER_SIZE;
        var length := Min(|left|, avail);
        var end := |left| == length;
        AppendAssociates(dest, Physical(crc, TypeOf(begin, end), left[..length]), Fragments(crc, BLOCK_SIZE, left[length..], false));
        assert left[..|left|] == left;
        SameOffset(blockOffset, |dest|, HEADER_SIZE + length);
        EmitPhysicalRecord(TypeOf(begin, end), left[..length]);
        left := left[length..];
        begin := false;
        more := |left| > 0;
      }
      LogAppend(crc, |before|, records, payload);
      AppendAssociates(before, Log(crc, |before|, records), Fragments(crc, |old(dest)| % BLOCK_SIZE, payload, true));
      records := records + [payload];
    }

    method EmitPhysicalRecord(t: RecordType, payload: Bytes)
      requires blockOffset + HEADER_SIZE + |payload| <= BLOCK_SIZE
      modifies `dest, `blockOffset
      ensures dest == old(dest) + Physical(crc, t, payload)
      ensures blockOffset == old(blockOffset) + HEADER_SIZE + |payload|
    {
      dest := dest + Physical(crc, t, payload);
      blockOffset := blockOffset + HEADER_SIZE + |payload|;
    }
  }

  lemma AppendAssociates(a: Bytes, b: Bytes, c: Bytes)
    ensures (a + b) + c == a + (b + c)
  {
  }
}
