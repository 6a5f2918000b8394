/** Batches of updates and their bytes (db/write_batch.cc). */
module WriteBatches {
  import opened DbFormat
  import opened Coding

  const HEADER: nat := 12

  /** One update; a deletion carries no value. */
  datatype Op = Op(kind: ValueType, key: Bytes, value: Bytes)

  /** Slices longer than a 32-bit length cannot be written. */
  predicate Fits(op: Op) {
    |op.key| < TWO32 && |op.value| < TWO32 && (op.kind.Deletion? ==> op.value == [])
  }

  predicate AllFit(ops: seq<Op>) {
    forall i :: 0 <= i < |ops| ==> Fits(ops[i])
  }

  function LengthPrefixed(b: Bytes): Bytes {
    EncodeVarint(|b|) + b
  }

  function EncodeOp(op: Op): (r: Bytes)
    ensures r != []
  {
    if op.kind.Put? then [1] + LengthPrefixed(op.key) + LengthPrefixed(op.value) else [0] + LengthPrefixed(op.key)
  }

  function EncodeOps(ops: seq<Op>): Bytes {
    if ops == [] then [] else EncodeOp(ops[0]) + EncodeOps(ops[1..])
  }

  /** A batch: sequence number of its first update, number of updates, the updates. */
  function EncodeBatch(sequence: Word64, ops: seq<Op>): (r: Bytes)
    requires |ops| < TWO32
    ensures |r| >= HEADER
  {
    EncodeFixed64(sequence) + EncodeFixed32(|ops|) + EncodeOps(ops)
  }

  function Sequence(rep: Bytes): Word64
    requires |rep| >= HEADER
  {
    DecodeFixed64(rep)
  }

  function Count(rep: Bytes): Word32
    requires |rep| >= HEADER
  {
    DecodeFixed32(rep[8..])
  }

  /** GetLengthPrefixedSlice: the slice and what follows it. */
  function GetSlice(input: Bytes): (r: Option<(Bytes, Bytes)>)
    ensures r.Some? ==> |r.value.1| < |input|
  {
    match DecodeVarint(input, 5)
    case None => None
    case Some((v, n)) =>
      var length := v % TWO32;
      if |input| - n >= length then Some((input[n..n + length], input[n + length..])) else None
  }

  /** The update at the front of `input` and what follows it. */
  function NextOp(input: Bytes): (r: Option<(Op, Bytes)>)
    requires input != []
    ensures r.Some? ==> |r.value.1| < |input|
  {
    if input[0] == 1 then
      match GetSlice(input[1..])
      case None => None
      case Some((key, rest)) =>
        match GetSlice(rest)
        case None => None
        case Some((value, after)) => Some((Op(Put, key, value), after))
    else if input[0] == 0 then
      match GetSlice(input[1..])
      case None => None
      case Some((key, rest)) => Some((Op(Deletion, key, []), rest))
    else None
  }

  /** The updates handed on before the end or the first malformed one. */
  function Walk(input: Bytes): (seq<Op>, bool)
    decreases |input|
  {
    if input == [] then ([], true) else
      match NextOp(input)
      case None => ([], false)
      case Some((op, rest)) => var after := Walk(rest); ([op] + after.0, after.1)
  }

  /** Iterate's whole outcome. */
  function Contents(rep: Bytes): (seq<Op>, bool) {
    if |rep| < HEADER then ([], false) else
      var walked := Walk(rep[HEADER..]);
      (walked.0, walked.1 && |walked.0| == Count(rep))
  }

  lemma SliceRoundTrip(b: Bytes, rest: Bytes)
    requires |b| < TWO32
    ensures GetSlice(LengthPrefixed(b) + rest) == Some((b, rest))
  {
    var input := LengthPrefixed(b) + rest;
    var n := |EncodeVarint(|b|)|;
    assert Power128(5) == 128 * (128 * (128 * (128 * 128))) by {
      assert Power128(1) == 128 && Power128(2) == 128 * 128 && Power128(3) == 128 * (128 * 128);
    }
    assert input == EncodeVarint(|b|) + (b + rest);
    VarintRoundTrip(|b|, 5, b + rest);
    assert input[n..n + |b|] == b && input[n + |b|..] == rest;
  }

  lemma OpRoundTrip(op: Op, rest: Bytes)
    requires Fits(op)
    ensures NextOp(EncodeOp(op) + rest) == Some((op, rest))
  {
    hide GetSlice, LengthPrefixed;
    var input := EncodeOp(op) + rest;
    if op.kind.Put? {
      assert input[1..] == LengthPrefixed(op.key) + (LengthPrefixed(op.value) + rest);
      SliceRoundTrip(op.key, LengthPrefixed(op.value) + rest);
      SliceRoundTrip(op.value, rest);
    } else {
      assert input[1..] == LengthPrefixed(op.key) + rest;
      SliceRoundTrip(op.key, rest);
    }
  }

  lemma {:induction false} WalkReadsBack(ops: seq<Op>)
    requires AllFit(ops)
    ensures Walk(EncodeOps(ops)) == (ops, true)
  {
    hide NextOp, EncodeOp;
    if ops != [] {
      OpRoundTrip(ops[0], EncodeOps(ops[1..]));
      WalkReadsBack(ops[1..]);
      assert EncodeOps(ops) == EncodeOp(ops[0]) + EncodeOps(ops[1..]) != [];
      assert ops == [ops[0]] + ops[1..];
    }
  }

  /** An encoded batch gives back its sequence number, its count and its updates. */
  lemma BatchRoundTrip(sequence: Word64, ops: seq<Op>)
    requires |ops| < TWO32 && AllFit(ops)
    ensures var rep := EncodeBatch(sequence, ops);
      Sequence(rep) == sequence && Count(rep) == |ops| && Contents(rep) == (ops, true)
  {
    hide EncodeFixed32, EncodeFixed64, DecodeFixed32, DecodeFixed64, EncodeOps, Walk;
    var rep := EncodeBatch(sequence, ops);
    assert rep == EncodeFixed64(sequence) + (EncodeFixed32(|ops|) + EncodeOps(ops));
    Fixed64RoundTrip(sequence, EncodeFixed32(|ops|) + EncodeOps(ops));
    assert rep[8..] == EncodeFixed32(|ops|) + EncodeOps(ops);
    Fixed32RoundTrip(|ops|, EncodeOps(ops));
    assert rep[HEADER..] == EncodeOps(ops);
    WalkReadsBack(ops);
  }

  lemma {:induction false} EncodeOpsAppend(a: seq<Op>, b: seq<Op>)
    ensures EncodeOps(a + b) == EncodeOps(a) + EncodeOps(b)
  {
    hide EncodeOp;
    if a == [] {
      assert a + b == b;
    } else {
      assert (a + b)[1..] == a[1..] + b;
      EncodeOpsAppend(a[1..], b);
    }
  }

  /** WriteBatch::Iterate: what the handler is called with, and whether the batch was sound. */
  method Iterate(rep: Bytes) returns (ops: seq<Op>, ok: bool)
    ensures (ops, ok) == Contents(rep)
  {
    ops := [];
    if |rep| < HEADER {
      return ops, false;
    }
    var input := rep[HEADER..];
    assert [] + Walk(input).0 == Walk(input).0;
    while input != []
      invariant Walk(rep[HEADER..]) == (ops + Walk(input).0, Walk(input).1)
      decreases |input|
    {
      match NextOp(input) {
        case None =>
          assert ops + [] == ops;
          return ops, false;
        case Some((op, rest)) =>
          assert ops + ([op] + Walk(rest).0) == (ops + [op]) + Walk(rest).0;
          ops := ops + [op];
          input := rest;
      }
    }
    assert ops + [] == ops;
    ok := |ops| == Count(rep);
  }

  class WriteBatch {
    var rep: Bytes
    ghost var ops: seq<Op>

    ghost predicate Valid()
      reads this
    {
      |ops| < TWO32 && AllFit(ops) && |rep| >= HEADER && rep == EncodeBatch(Sequence(rep), ops)
    }

    constructor ()
      ensures Valid() && ops == [] && Sequence(rep) == 0
    {
      rep := seq(HEADER, _ => 0);
      ops := [];
      new;
      assert EncodeBatch(0, []) == rep;
      BatchRoundTrip(0, []);
    }

    method SetSequence(sequence: Word64)
      requires Valid()
      modifies `rep
      ensures Valid() && Sequence(rep) == sequence
    {
      hide EncodeFixed32, EncodeFixed64, EncodeOps, Walk, Sequence;
      rep := EncodeFixed64(sequence) + rep[8..];
      assert rep == EncodeBatch(sequence, ops);
      BatchRoundTrip(sequence, ops);
    }

    /** Replace the count and append the encodings `more` stands for. */
    method Extend(count: Word32, bytes: Bytes, ghost more: seq<Op>)
      requires Valid() && count == |ops| + |more| && AllFit(more) && bytes == EncodeOps(more)
      modifies this
      ensures Valid() && ops == old(ops) + more && Sequence(rep) == old(Sequence(rep))
    {
      hide EncodeFixed32, EncodeFixed64, EncodeOps, Walk, Sequence;
      ghost var sequence := Sequence(rep);
      EncodeOpsAppend(ops, more);
      ops := ops + more;
      rep := rep[..8] + EncodeFixed32(count) + rep[HEADER..] + bytes;
      assert rep == EncodeBatch(sequence, ops);
      BatchRoundTrip(sequence, ops);
    }

    method Put(key: Bytes, value: Bytes)
      requires Valid() && |ops| + 1 < TWO32 && |key| < TWO32 && |value| < TWO32
      modifies this
      ensures Valid() && ops == old(ops) + [Op(ValueType.Put, key, value)] && Sequence(rep) == old(Sequence(rep))
    {
      BatchRoundTrip(Sequence(rep), ops);
      var op := Op(ValueType.Put, key, value);
      assert EncodeOps([op]) == EncodeOp(op);
      Extend(Count(rep) + 1, [1] + LengthPrefixed(key) + LengthPrefixed(value), [op]);
    }

    method Delete(key: Bytes)
      requires Valid() && |ops| + 1 < TWO32 && |key| < TWO32
      modifies this
      ensures Valid() && ops == old(ops) + [Op(Deletion, key, [])] && Sequence(rep) == old(Sequence(rep))
    {
      BatchRoundTrip(Sequence(rep), ops);
      var op := Op(Deletion, key, []);
      assert EncodeOps([op]) == EncodeOp(op);
      Extend(Count(rep) + 1, [0] + LengthPrefixed(key), [op]);
    }

    /** Append: the updates of `source` after this batch's own; BuildBatchGroup joins batches with it. */
    method Append(source: WriteBatch)
      requires Valid() && source.Valid() && |ops| + |source.ops| < TWO32
      modifies this
      ensures Valid() && ops == old(ops) + old(source.ops) && Sequence(rep) == old(Sequence(rep))
    {
      BatchRoundTrip(Sequence(rep), ops);
      BatchRoundTrip(Sequence(source.rep), source.ops);
      assert source.rep[HEADER..] == EncodeOps(source.ops);
      Extend(Count(rep) + Count(source.rep), source.rep[HEADER..], source.ops);
    }
  }
}
