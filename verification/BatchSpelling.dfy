/** Which bytes are a write batch (the grammar in db/write_batch.cc), and that exactly those are taken for one. */
module BatchSpelling {
  import opened DbFormat
  import opened Coding
  import opened WriteBatches
  import opened Spelling

  /** record := kTypeValue varstring varstring | kTypeDeletion varstring */
  ghost predicate SpellsOp(b: Bytes, op: Op) {
    b != [] &&
    if b[0] == 1 then
      op.kind.Put? && exists n: nat :: 1 <= n <= |b| && SpellsSlice(b[1..n], op.key) && SpellsSlice(b[n..], op.value)
    else
      b[0] == 0 && op.kind.Deletion? && op.value == [] && SpellsSlice(b[1..], op.key)
  }

  /** The parts of `bs` spell the updates, one each. */
  ghost predicate SpellOps(bs: seq<Bytes>, ops: seq<Op>) {
    |bs| == |ops| && forall i :: 0 <= i < |bs| ==> SpellsOp(bs[i], ops[i])
  }

  /** `input` goes on with something that no update starts with. */
  ghost predicate NoOpAt(input: Bytes) {
    input != [] && forall n: nat, op :: n <= |input| ==> !SpellsOp(input[..n], op)
  }

  lemma SpeltOpIsRead(b: Bytes, rest: Bytes, op: Op)
    requires SpellsOp(b, op)
    ensures NextOp(b + rest) == Some((op, rest))
  {
    hide GetSlice, SpellsSlice;
    var input := b + rest;
    if b[0] == 1 {
      var n: nat :| 1 <= n <= |b| && SpellsSlice(b[1..n], op.key) && SpellsSlice(b[n..], op.value);
      assert input[1..] == b[1..n] + (b[n..] + rest);
      SliceIsRead(b[1..n], b[n..] + rest, op.key);
      SliceIsRead(b[n..], rest, op.value);
    } else {
      assert input[1..] == b[1..] + rest;
      SliceIsRead(b[1..], rest, op.key);
    }
  }

  lemma ReadOpIsSpelt(input: Bytes) returns (b: Bytes)
    requires input != [] && NextOp(input).Some?
    ensures input == b + NextOp(input).value.1 && SpellsOp(b, NextOp(input).value.0)
  {
    hide GetSlice, SpellsSlice;
    var key := ReadSliceIsSpelt(input[1..]);
    var rest := GetSlice(input[1..]).value.1;
    if input[0] == 1 {
      var value := ReadSliceIsSpelt(rest);
      b := input[..1] + key + value;
      assert b[1..1 + |key|] == key && b[1 + |key|..] == value;
    } else {
      b := input[..1] + key;
      assert b[1..] == key;
    }
  }

  /** The walk hands on the updates that the input spells, and stops short exactly where no update is spelt. */
  lemma {:induction false} WalkIsSpelt(input: Bytes) returns (bs: seq<Bytes>)
    ensures SpellOps(bs, Walk(input).0) && Joined(bs) <= input
    ensures if Walk(input).1 then Joined(bs) == input else NoOpAt(input[|Joined(bs)|..])
    decreases |input|
  {
    hide NextOp, SpellsOp;
    bs := [];
    if input != [] {
      if NextOp(input).None? {
        forall n: nat, op | n <= |input| ensures !SpellsOp(input[..n], op) {
          if SpellsOp(input[..n], op) {
            assert input[..n] + input[n..] == input;
            SpeltOpIsRead(input[..n], input[n..], op);
          }
        }
        assert input[0..] == input;
      } else {
        var b := ReadOpIsSpelt(input);
        var rest := NextOp(input).value.1;
        var more := WalkIsSpelt(rest);
        bs := [b] + more;
        assert input[|b| + |Joined(more)|..] == rest[|Joined(more)|..];
      }
    }
  }

  lemma NoOpIsRead(rest: Bytes)
    ensures NoOpAt(rest) ==> rest != [] && NextOp(rest).None?
  {
    hide NextOp, SpellsOp;
    if rest != [] && NextOp(rest).Some? {
      var b := ReadOpIsSpelt(rest);
      assert rest[..|b|] == b;
    }
  }

  lemma {:induction false} SpeltIsWalked(bs: seq<Bytes>, ops: seq<Op>, rest: Bytes)
    requires SpellOps(bs, ops) && (rest == [] || NoOpAt(rest))
    ensures Walk(Joined(bs) + rest) == (ops, rest == [])
    decreases bs
  {
    hide NextOp, SpellsOp;
    if bs == [] {
      assert Joined(bs) + rest == rest;
      NoOpIsRead(rest);
    } else {
      var more := Joined(bs[1..]) + rest;
      assert Joined(bs) + rest == bs[0] + more;
      SpeltOpIsRead(bs[0], more, ops[0]);
      SpeltIsWalked(bs[1..], ops[1..], rest);
      SpeltIsNotEmpty(bs[0], ops[0]);
      assert ops == [ops[0]] + ops[1..];
    }
  }

  lemma SpeltIsNotEmpty(b: Bytes, op: Op)
    requires SpellsOp(b, op)
    ensures b != []
  {
  }

  /** The whole verdict: a record is a sound batch of `ops` exactly if behind a header with their number it spells them. */
  lemma SoundBatches(rep: Bytes, ops: seq<Op>)
    ensures Contents(rep) == (ops, true) <==>
            |rep| >= HEADER && |ops| == DecodeFixed32(rep[8..]) && exists bs :: SpellOps(bs, ops) && Joined(bs) == rep[HEADER..]
  {
    hide SpellOps, Walk;
    if |rep| >= HEADER {
      var body := rep[HEADER..];
      var bs := WalkIsSpelt(body);
      if them :| SpellOps(them, ops) && Joined(them) == body {
        SpeltIsWalked(them, ops, []);
        assert body + [] == body;
      }
    }
  }

  /** Where reading a batch goes wrong: before bytes that are no update, or at the end if the number is wrong. */
  ghost predicate IsFault(rest: Bytes, wrongCount: bool) {
    NoOpAt(rest) || (rest == [] && wrongCount)
  }

  /** And of an unsound one with a whole header, everything up to the fault: the updates are those the bytes spell, and either no
      update is spelt where they end, or the header has another number. */
  lemma UnsoundBatches(rep: Bytes, ops: seq<Op>)
    requires |rep| >= HEADER
    ensures Contents(rep) == (ops, false) <==>
            exists bs, rest :: SpellOps(bs, ops) && Joined(bs) + rest == rep[HEADER..]
              && IsFault(rest, |ops| != DecodeFixed32(rep[8..]))
  {
    hide SpellOps, Walk, NoOpAt;
    var body := rep[HEADER..];
    var bs := WalkIsSpelt(body);
    var rest := body[|Joined(bs)|..];
    assert Joined(bs) + rest == body;
    if them, after :| SpellOps(them, ops) && Joined(them) + after == body && IsFault(after, |ops| != DecodeFixed32(rep[8..])) {
      NoOpIsRead(after);
      SpeltIsWalked(them, ops, after);
    }
    if Contents(rep) == (ops, false) {
      assert Walk(body).0 == ops;
      assert IsFault(rest, |ops| != DecodeFixed32(rep[8..]));
    }
  }

  /** A sound batch cut short is not sound: only what is whole is handed on. */
  lemma CutBatch(sequence: Word64, ops: seq<Op>, cut: nat)
    requires |ops| < TWO32 && AllFit(ops) && cut < |EncodeBatch(sequence, ops)|
    ensures var (seen, ok) := Contents(EncodeBatch(sequence, ops)[..cut]); !ok && seen <= ops && (cut >= HEADER ==> |seen| < |ops|)
  {
    hide EncodeFixed32, EncodeFixed64, DecodeFixed32, EncodeOps, Walk;
    if cut < HEADER {
      return;
    }
    var rep := EncodeBatch(sequence, ops);
    var header := EncodeFixed64(sequence) + EncodeFixed32(|ops|);
    assert rep[..cut][HEADER..] == EncodeOps(ops)[..cut - HEADER];
    assert rep[..cut][8..] == EncodeFixed32(|ops|) + EncodeOps(ops)[..cut - HEADER];
    Fixed32RoundTrip(|ops|, EncodeOps(ops)[..cut - HEADER]);
    CutWalk(ops, cut - HEADER);
  }

  lemma {:induction false} CutWalk(ops: seq<Op>, cut: nat)
    requires AllFit(ops) && cut < |EncodeOps(ops)|
    ensures var (seen, ok) := Walk(EncodeOps(ops)[..cut]); seen <= ops && |seen| < |ops|
    decreases |ops|
  {
    hide NextOp, EncodeOp, SpellsOp;
    var first, more := EncodeOp(ops[0]), EncodeOps(ops[1..]);
    var input := EncodeOps(ops)[..cut];
    if cut >= |first| {
      assert input == first + more[..cut - |first|];
      OpRoundTrip(ops[0], more[..cut - |first|]);
      CutWalk(ops[1..], cut - |first|);
      assert ops == [ops[0]] + ops[1..];
    } else if cut > 0 && NextOp(input).Some? {
      var b := ReadOpIsSpelt(input);
      var (op, rest) := NextOp(input).value;
      assert b == input[..|b|] == first[..|b|];
      assert b + first[|b|..] == first == first + [];
      OpRoundTrip(ops[0], []);
      SpeltOpIsRead(b, first[|b|..], op);
    }
  }
}
