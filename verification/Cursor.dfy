/** The Iterator interface over sorted entries (include/leveldb/iterator.h, table/iterator_wrapper.h). */
module Cursors {
  import opened DbFormat

  /** An iterator's data and position; None is "not Valid()", whichever end it ran off. */
  datatype Cursor = Cursor(data: seq<Entry>, pos: Option<nat>) {
    ghost predicate Ok() {
      Sorted(data) && (pos.Some? ==> pos.value < |data|)
    }

    predicate Valid() {
      pos.Some? && pos.value < |data|
    }

    function Entry(): Entry
      requires Valid()
    {
      data[pos.value]
    }

    function Key(): InternalKey
      requires Valid()
    {
      Entry().key
    }

    function At(i: int): Cursor {
      this.(pos := if 0 <= i < |data| then Some(i) else None)
    }

    function SeekToFirst(): Cursor {
      At(0)
    }

    function SeekToLast(): Cursor {
      At(|data| - 1)
    }

    function Seek(target: InternalKey): Cursor {
      At(LowerBound(data, target))
    }

    function Next(): Cursor
      requires Valid()
    {
      At(pos.value + 1)
    }

    function Prev(): Cursor
      requires Valid()
    {
      At(pos.value - 1)
    }
  }

  datatype Op = SeekToFirst | SeekToLast | Seek(target: InternalKey) | Next | Prev

  /** Next and Prev may only be called on a valid iterator. */
  predicate Legal(c: Cursor, op: Op) {
    op.Next? || op.Prev? ==> c.Valid()
  }

  function Apply(c: Cursor, op: Op): Cursor
    requires Legal(c, op)
  {
    match op
    case SeekToFirst => c.SeekToFirst()
    case SeekToLast => c.SeekToLast()
    case Seek(target) => c.Seek(target)
    case Next => c.Next()
    case Prev => c.Prev()
  }

  predicate LegalRun(c: Cursor, ops: seq<Op>)
    decreases |ops|
  {
    ops != [] ==> Legal(c, ops[0]) && LegalRun(Apply(c, ops[0]), ops[1..])
  }

  function ApplyAll(c: Cursor, ops: seq<Op>): Cursor
    requires LegalRun(c, ops)
    decreases |ops|
  {
    if ops == [] then c else ApplyAll(Apply(c, ops[0]), ops[1..])
  }
}
