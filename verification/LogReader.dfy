/** log::Reader (db/log_reader.cc) from offset 0, the only one its callers pass, with checksums on. */
module LogReaders {
  import opened DbFormat
  import opened Coding
  import opened LogFormat
  import opened LogDamage

  lemma BufferEndInside(file: Bytes, p: nat, end: nat)
    requires p <= end <= |file|
    requires end % BLOCK_SIZE == 0 || end == |file|
    requires end > 0 ==> end - p <= (end - 1) % BLOCK_SIZE
    ensures BufferEnd(file, p) == end
  {
    if p < end {
      var block := (end - 1) / BLOCK_SIZE;
      assert p == block * BLOCK_SIZE + (p - block * BLOCK_SIZE);
      assert 0 < p - block * BLOCK_SIZE < BLOCK_SIZE;
      assert p / BLOCK_SIZE == block;
    }
  }

  class Reader {
    const crc: Checksum
    const file: Bytes
    var buffer: Bytes
    var eof: bool
    var endOfBufferOffset: nat
    /** Calls to the reporter. */
    var reports: nat

    /** The buffer is the unread end of what was read of the file, all of it in one block. */
    ghost predicate Buffered()
      reads `buffer, `eof, `endOfBufferOffset
    {
      && |buffer| <= endOfBufferOffset <= |file|
      && buffer == file[endOfBufferOffset - |buffer|..endOfBufferOffset]
      && (if eof then endOfBufferOffset == |file| else endOfBufferOffset % BLOCK_SIZE == 0)
      && (buffer != [] ==> |buffer| <= (endOfBufferOffset - 1) % BLOCK_SIZE + 1)
      && (eof && buffer != [] ==> endOfBufferOffset % BLOCK_SIZE != 0)
    }

    ghost function Position(): (p: nat)
      reads `buffer, `eof, `endOfBufferOffset
      requires Buffered()
      ensures p <= |file|
    {
      endOfBufferOffset - |buffer|
    }

    ghost predicate Valid()
      reads `buffer, `eof, `endOfBufferOffset
    {
      Buffered() && BufferEnd(file, Position()) == endOfBufferOffset
    }

    constructor (crc: Checksum, file: Bytes)
      ensures Valid() && Position() == 0 && reports == 0 && this.crc == crc && this.file == file
    {
      hide Buffered, BufferEnd;
      this.crc, this.file := crc, file;
      buffer, eof, endOfBufferOffset, reports := [], false, 0, 0;
      new;
      NothingRead();
    }

    lemma NothingRead()
      requires buffer == [] && !eof && endOfBufferOffset == 0
      ensures Valid() && Position() == 0
    {
      hide BufferEnd;
      BufferEndInside(file, 0, 0);
    }

    /** What the next turn of ReadPhysicalRecord's loop is bound to yield. */
    ghost function Pending(): PhysicalRead
      reads `buffer, `eof, `endOfBufferOffset
      requires Buffered()
    {
      if |buffer| >= HEADER_SIZE then ParseAt(crc, file, Position(), endOfBufferOffset)
      else if eof then Eof
      else
        var next := Min(|file|, endOfBufferOffset + BLOCK_SIZE);
        if next - endOfBufferOffset < HEADER_SIZE then Eof else ParseAt(crc, file, endOfBufferOffset, next)
    }

    method LoadBlock()
      requires Buffered() && |buffer| < HEADER_SIZE && !eof
      modifies `buffer, `eof, `endOfBufferOffset
      ensures Buffered() && Pending() == old(Pending())
      ensures endOfBufferOffset > old(endOfBufferOffset) || eof
      ensures endOfBufferOffset >= old(endOfBufferOffset)
    {
      hide ParseAt;
      var next := Min(|file|, endOfBufferOffset + BLOCK_SIZE);
      buffer := file[endOfBufferOffset..next];
      endOfBufferOffset := next;
      if |buffer| < BLOCK_SIZE {
        eof := true;
      }
    }

    method ReadPhysicalRecord() returns (code: nat, fragment: Bytes)
      requires Valid()
      modifies this
      ensures Valid()
      ensures Returned(ReadPhysical(crc, file, old(Position())), |file|, code, fragment, Position(), reports - old(reports))
      // What that is, on the bytes of the file.
      ensures ReadsBytes(crc, file, old(Position()), ReadPhysical(crc, file, old(Position())))
    {
      hide ReadsBytes;
      PhysicalOnBytes(crc, file, Position());
      fragment := [];
      while |buffer| < HEADER_SIZE
        invariant Buffered() && Pending() == ReadPhysical(crc, file, old(Position())) && reports == old(reports)
        decreases |file| - endOfBufferOffset, !eof
      {
        if eof {
          // A truncated header: the writer stopped in the middle of it.
          buffer := [];
          return EOF_CODE, [];
        }
        LoadBlock();
      }
      code, fragment := ParseHeader();
    }

    lemma BufferIsFile()
      requires Buffered() && buffer != []
      ensures Position() <= endOfBufferOffset <= |file|
      ensures buffer == file[Position()..endOfBufferOffset]
      ensures eof <==> endOfBufferOffset % BLOCK_SIZE != 0
      ensures eof ==> endOfBufferOffset == |file|
    {
    }

    /** Give up the first `n` bytes of the buffer. */
    method Skip(n: nat)
      requires Buffered() && 0 < n <= |buffer|
      modifies `buffer
      ensures Valid() && Position() == old(Position()) + n
    {
      hide BufferEnd;
      buffer := buffer[n..];
      BufferEndInside(file, Position(), endOfBufferOffset);
    }

    method ParseHeader() returns (code: nat, fragment: Bytes)
      requires Buffered() && |buffer| >= HEADER_SIZE
      modifies this
      ensures Valid()
      ensures Returned(ParseAt(crc, file, old(Position()), old(endOfBufferOffset)), |file|, code, fragment, Position(),
                       reports - old(reports))
    {
      hide Buffered, BufferEnd;
      BufferIsFile();
      var length := buffer[4] as int + 256 * (buffer[5] as int);
      code := buffer[6] as int;
      fragment := [];
      if HEADER_SIZE + length > |buffer| {
        Skip(|buffer|);
        if !eof {
          reports := reports + 1;
          code := BAD_CODE;
        } else {
          code := EOF_CODE;
        }
      } else if code == 0 && length == 0 {
        Skip(|buffer|);
        code := BAD_CODE;
      } else if Unmask(DecodeFixed32(buffer)) != crc(buffer[6..HEADER_SIZE + length]) {
        Skip(|buffer|);
        reports := reports + 1;
        code := BAD_CODE;
      } else {
        fragment := buffer[HEADER_SIZE..HEADER_SIZE + length];
        Skip(HEADER_SIZE + length);
      }
    }

    /** The next logical record, or false at the end of the log. */
    method ReadRecord() returns (ok: bool, record: Bytes)
      requires Valid()
      modifies this
      ensures Valid()
      ensures match ReadLogical(crc, file, old(Position()), false, [], old(reports))
        case End(n) => !ok && reports == n
        case Record(r, next, n) => ok && record == r && Position() == next && reports == n
      // Whatever the file, the record stands in it, and every fragment of it has its checksum.
      ensures ok ==> exists q :: old(Position()) <= q && Stands(crc, file, q, record, true, Position())
    {
      hide ReadPhysical, Buffered, BufferEnd, ReadsBytes, Stands;
      RecordsAreGenuine(crc, file, Position(), false, [], reports);
      record := [];
      var scratch: Bytes := [];
      var inFragment := false;
      while true
        invariant Valid() && (inFragment || scratch == [])
        invariant ReadLogical(crc, file, Position(), inFragment, scratch, reports)
               == ReadLogical(crc, file, old(Position()), false, [], old(reports))
        decreases |file| - Position()
      {
        var code, fragment := ReadPhysicalRecord();
        if code == Code(Full) {
          if inFragment && scratch != [] {
            reports := reports + 1;
          }
          return true, fragment;
        } else if code == Code(First) {
          if inFragment && scratch != [] {
            reports := reports + 1;
          }
          scratch := fragment;
          inFragment := true;
        } else if code == Code(Middle) {
          if !inFragment {
            reports := reports + 1;
          } else {
            scratch := scratch + fragment;
          }
        } else if code == Code(Last) {
          if !inFragment {
            reports := reports + 1;
          } else {
            return true, scratch + fragment;
          }
        } else if code == EOF_CODE {
          return false, [];
        } else if code == BAD_CODE {
          if inFragment {
            reports := reports + 1;
            inFragment := false;
            scratch := [];
          }
        } else {
          reports := reports + 1;
          inFragment := false;
          scratch := [];
        }
      }
    }
  }
}
