/** The write-ahead log: how records are cut into fragments and how they read back
    (db/log_format.h, db/log_writer.cc, db/log_reader.cc). */
module LogFormat {
  import opened DbFormat
  import opened Coding

  const BLOCK_SIZE: nat := 32768
  const HEADER_SIZE: nat := 7

  datatype RecordType = Zero | Full | First | Middle | Last

  function Code(t: RecordType): Byte {
    match t case Zero => 0 case Full => 1 case First => 2 case Middle => 3 case Last => 4
  }

  // Past the record types: the reader's own codes for the end of the file and for a dropped record.
  const EOF_CODE: nat := 5
  const BAD_CODE: nat := 6

  /** crc32c::Value; every result here holds for any checksum function. */
  type Checksum = Bytes -> Word32

  function TypeOf(begin: bool, end: bool): RecordType {
    if begin && end then Full else if begin then First else if end then Last else Middle
  }

  /** EmitPhysicalRecord: masked checksum of type and payload, length, type, payload. */
  function Physical(crc: Checksum, t: RecordType, payload: Bytes): (r: Bytes)
    requires |payload| <= 0xffff
    ensures |r| == HEADER_SIZE + |payload|
  {
    EncodeFixed32(Mask(crc([Code(t)] + payload))) + [|payload| % 256, |payload| / 256, Code(t)] + payload
  }

  function Zeros(n: nat): (r: Bytes)
    ensures |r| == n
  {
    seq(n, _ => 0)
  }

  /** The bytes AddRecord appends for `payload` when `offset` bytes of the current block are used. */
  function Fragments(crc: Checksum, offset: nat, payload: Bytes, begin: bool): Bytes
    requires offset <= BLOCK_SIZE
    decreases |payload|, BLOCK_SIZE + (if offset + HEADER_SIZE > BLOCK_SIZE then 2 else if offset + HEADER_SIZE == BLOCK_SIZE then 3 else 1)
  {
    if BLOCK_SIZE - offset < HEADER_SIZE then Zeros(BLOCK_SIZE - offset) + Fragments(crc, 0, payload, begin)
    else
      var avail := BLOCK_SIZE - offset - HEADER_SIZE;
      if |payload| <= avail then Physical(crc, TypeOf(begin, true), payload)
      else Physical(crc, TypeOf(begin, false), payload[..avail]) + Fragments(crc, BLOCK_SIZE, payload[avail..], false)
  }

  /** What one physical read yields. */
  datatype PhysicalRead = Eof | Bad(next: nat, reported: bool) | Got(code: Byte, fragment: Bytes, next: nat)

  function Min(a: nat, b: nat): nat {
    if a <= b then a else b
  }

  /** End of the bytes buffered while the reader stands at `p`: its block, or the file, whichever ends first. */
  function BufferEnd(file: Bytes, p: nat): nat
    requires p <= |file|
  {
    if p % BLOCK_SIZE == 0 then p else Min(|file|, (p / BLOCK_SIZE + 1) * BLOCK_SIZE)
  }

  /** What the buffer's first header says. */
  datatype Header = Short | Dropped(reported: bool) | Parsed(code: Byte, fragment: Bytes)

  /** Parse the record at the front of `buffer`; `atEof` says the file ends with it. */
  function ParseBuffer(crc: Checksum, buffer: Bytes, atEof: bool): (r: Header)
    requires |buffer| >= HEADER_SIZE
    ensures r.Parsed? ==> HEADER_SIZE + |r.fragment| <= |buffer|
  {
    var length := buffer[4] as int + 256 * (buffer[5] as int);
    var code := buffer[6];
    if HEADER_SIZE + length > |buffer| then
      if atEof then Short else Dropped(true)
    else if code == 0 && length == 0 then
      Dropped(false)
    else if Unmask(DecodeFixed32(buffer)) != crc(buffer[6..HEADER_SIZE + length]) then
      Dropped(true)
    else
      Parsed(code, buffer[HEADER_SIZE..HEADER_SIZE + length])
  }

  /** Parse the record at `q` with `file[q..end]` buffered; a bad one drops the whole buffer. */
  function ParseAt(crc: Checksum, file: Bytes, q: nat, end: nat): (r: PhysicalRead)
    requires q + HEADER_SIZE <= end <= |file|
    ensures r.Eof? || q < r.next <= end
  {
    match ParseBuffer(crc, file[q..end], end % BLOCK_SIZE != 0)
    case Short => Eof
    case Dropped(reported) => Bad(end, reported)
    case Parsed(code, fragment) => Got(code, fragment, q + HEADER_SIZE + |fragment|)
  }

  /** ReadPhysicalRecord from position `p`: skip a trailer, load the next block, parse. */
  function ReadPhysical(crc: Checksum, file: Bytes, p: nat): (r: PhysicalRead)
    requires p <= |file|
    ensures r.Eof? || p < r.next <= |file|
  {
    var end := BufferEnd(file, p);
    if end - p >= HEADER_SIZE then ParseAt(crc, file, p, end)
    else
      // A block cut off by the end of the file has no successor.
      var next := Min(|file|, end + BLOCK_SIZE);
      if end % BLOCK_SIZE != 0 || next - end < HEADER_SIZE then Eof else ParseAt(crc, file, end, next)
  }

  /** ReadRecord's outcome: a record and where it ends, or the end; with the number of corruption reports. */
  datatype LogicalRead = Record(record: Bytes, next: nat, reports: nat) | End(reports: nat)

  /** How one turn of ReadRecord's loop leaves it. */
  datatype Turn = Done(result: LogicalRead) | Again(next: nat, inFragment: bool, scratch: Bytes, reports: nat)

  /** One turn of ReadRecord's loop. */
  function TurnOf(read: PhysicalRead, inFragment: bool, scratch: Bytes, reports: nat): (t: Turn)
    ensures t.Again? ==> !read.Eof? && t.next == read.next
    ensures t.Done? && t.result.Record? ==> !read.Eof? && t.result.next == read.next
  {
    match read
    case Eof => Done(End(reports))
    case Bad(next, reported) =>
      Again(next, false, [], reports + (if reported then 1 else 0) + (if inFragment then 1 else 0))
    case Got(code, fragment, next) =>
      var broken := if inFragment && scratch != [] then 1 else 0;
      if code == Code(Full) then Done(Record(fragment, next, reports + broken))
      else if code == Code(First) then Again(next, true, fragment, reports + broken)
      else if code == Code(Middle) then
        if inFragment then Again(next, true, scratch + fragment, reports) else Again(next, false, scratch, reports + 1)
      else if code == Code(Last) then
        if inFragment then Done(Record(scratch + fragment, next, reports)) else Again(next, false, scratch, reports + 1)
      // The type byte is not checked against the reader's own codes.
      else if code == EOF_CODE then Done(End(reports))
      else if code == BAD_CODE then Again(next, false, [], reports + (if inFragment then 1 else 0))
      else Again(next, false, [], reports + 1)
  }

  /** ReadRecord's loop from position `p`. */
  function ReadLogical(crc: Checksum, file: Bytes, p: nat, inFragment: bool, scratch: Bytes, reports: nat): (r: LogicalRead)
    requires p <= |file|
    ensures r.Record? ==> p < r.next <= |file|
    decreases |file| - p
  {
    match TurnOf(ReadPhysical(crc, file, p), inFragment, scratch, reports)
    case Done(result) => result
    case Again(next, f, s, n) => ReadLogical(crc, file, next, f, s, n)
  }

  // ----- Headers and checksums, on the bytes of a file -----

  /** Where the block of position `p` ends. */
  function BlockEnd(p: nat): (e: nat)
    ensures p < e <= p + BLOCK_SIZE && e % BLOCK_SIZE == 0
  {
    p - p % BLOCK_SIZE + BLOCK_SIZE
  }

  /** Where the next header at or after `p` is: a block's last bytes have no room for one. */
  function HeaderPlace(p: nat): (q: nat)
    ensures p <= q && q + HEADER_SIZE <= BlockEnd(q)
  {
    if p + HEADER_SIZE <= BlockEnd(p) then p else BlockEnd(p)
  }

  /** The length that the header at `q` announces. */
  function Announced(file: Bytes, q: nat): nat
    requires q + HEADER_SIZE <= |file|
  {
    (file[q + 4] as int) + 256 * (file[q + 5] as int)
  }

  /** The header at `q` and the fragment it announces are in the file and in one block. */
  predicate FragmentInside(file: Bytes, q: nat) {
    q + HEADER_SIZE <= |file| && q + HEADER_SIZE + Announced(file, q) <= Min(|file|, BlockEnd(q))
  }

  /** The first four bytes of the header at `q` are the masked checksum of the type byte and the fragment behind them. */
  predicate ChecksumHolds(crc: Checksum, file: Bytes, q: nat)
    requires FragmentInside(file, q)
  {
    Unmask(DecodeFixed32(file[q..q + 4])) == crc(file[q + 6..q + HEADER_SIZE + Announced(file, q)])
  }

  /** A header of type zero and length zero, as preallocated files have them. */
  predicate Unwritten(file: Bytes, q: nat)
    requires q + HEADER_SIZE <= |file|
  {
    file[q + 6] == 0 && Announced(file, q) == 0
  }

  /** A fragment whose bytes are all there and do not have its checksum. */
  ghost predicate Spoiled(crc: Checksum, file: Bytes, q: nat) {
    FragmentInside(file, q) && !Unwritten(file, q) && !ChecksumHolds(crc, file, q)
  }

  /** `fragment` stands in the file behind the header at `q`, with type `code` and with its checksum. */
  ghost predicate Verified(crc: Checksum, file: Bytes, q: nat, code: Byte, fragment: Bytes) {
    && FragmentInside(file, q) && !Unwritten(file, q) && ChecksumHolds(crc, file, q)
    && file[q + 6] == code && file[q + HEADER_SIZE..q + HEADER_SIZE + Announced(file, q)] == fragment
  }

  /** What a physical read at `p` may yield, on bytes alone. */
  ghost predicate ReadsBytes(crc: Checksum, file: Bytes, p: nat, r: PhysicalRead) {
    var q := HeaderPlace(p);
    if |file| < q + HEADER_SIZE then r.Eof?
    else if Verified(crc, file, q, file[q + 6], file[q + HEADER_SIZE..Min(|file|, q + HEADER_SIZE + Announced(file, q))]) then
      r == Got(file[q + 6], file[q + HEADER_SIZE..q + HEADER_SIZE + Announced(file, q)], q + HEADER_SIZE + Announced(file, q))
    // A fragment cut off by the end of the file was never finished; the rest of a block with any other fault is dropped.
    else if !FragmentInside(file, q) && |file| < BlockEnd(q) then r.Eof?
    else r == Bad(Min(|file|, BlockEnd(q)), !FragmentInside(file, q) || Spoiled(crc, file, q))
  }

  /** How ReadPhysicalRecord returns what it read: a code and a fragment, where it stands then, and how often it reported. */
  ghost predicate Returned(r: PhysicalRead, size: nat, code: nat, fragment: Bytes, position: nat, reported: int) {
    match r
    case Eof => code == EOF_CODE && fragment == [] && position == size && reported == 0
    case Bad(next, b) => code == BAD_CODE && fragment == [] && position == next && reported == if b then 1 else 0
    case Got(c, f, next) => code == c && fragment == f && position == next && reported == 0
  }

  /** The buffer the reader parses is the file up to the end of the block. */
  lemma ParseOnBytes(crc: Checksum, file: Bytes, q: nat, end: nat)
    requires q + HEADER_SIZE <= end && end == Min(|file|, BlockEnd(q))
    ensures ReadsBytes(crc, file, q, ParseAt(crc, file, q, end))
  {
    var buffer := file[q..end];
    assert buffer[4] == file[q + 4] && buffer[5] == file[q + 5] && buffer[6] == file[q + 6];
    assert end % BLOCK_SIZE != 0 <==> |file| < BlockEnd(q);
    if FragmentInside(file, q) {
      var length := Announced(file, q);
      assert buffer[6..HEADER_SIZE + length] == file[q + 6..q + HEADER_SIZE + length];
      assert buffer[HEADER_SIZE..HEADER_SIZE + length] == file[q + HEADER_SIZE..q + HEADER_SIZE + length];
      assert forall i :: 0 <= i < 4 ==> buffer[i] == file[q..q + 4][i];
      assert DecodeFixed32(buffer) == DecodeFixed32(file[q..q + 4]);
    }
  }

  /** One block holds the next header, and is parsed there. */
  lemma ReadsAtPlace(crc: Checksum, file: Bytes, p: nat)
    requires p <= |file|
    ensures var q := HeaderPlace(p);
      ReadPhysical(crc, file, p) == if |file| < q + HEADER_SIZE then Eof else ParseAt(crc, file, q, Min(|file|, BlockEnd(q)))
  {
    hide ParseAt;
    var block := p / BLOCK_SIZE;
    assert p == block * BLOCK_SIZE + p % BLOCK_SIZE && BlockEnd(p) == (block + 1) * BLOCK_SIZE;
    assert BlockEnd(BlockEnd(p)) == (block + 2) * BLOCK_SIZE;
  }

  lemma PhysicalOnBytes(crc: Checksum, file: Bytes, p: nat)
    requires p <= |file|
    ensures ReadsBytes(crc, file, p, ReadPhysical(crc, file, p))
  {
    hide ParseAt;
    ReadsAtPlace(crc, file, p);
    var q := HeaderPlace(p);
    assert HeaderPlace(q) == q;
    if q + HEADER_SIZE <= |file| {
      ParseOnBytes(crc, file, q, Min(|file|, BlockEnd(q)));
    }
  }
}
