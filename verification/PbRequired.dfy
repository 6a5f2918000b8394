/** Which required fields the decoder has seen: two words of bits (nanopb/pb_decode.c). */
module PbRequired {
  import opened DbFormat
  import opened Coding
  import opened Bits
  import opened PbFormat
  import opened PbParse
  import opened PbCommon

  /** Bit `b` of the two words. */
  ghost predicate SeenBit(words: seq<Word32>, b: nat)
    requires |words| == 2 && b < 64
  {
    Bit(words[b / 32], b % 32)
  }

  /** fields_seen: bit `b` is set once the required field with `b` required fields before it was seen. */
  ghost predicate Tracks(words: seq<Word32>, fields: seq<Field>, seen: set<nat>) {
    && |words| == 2
    && (forall i :: i in seen ==> i < |fields| && fields[i].rule.Required?)
    && forall b :: 0 <= b < 64 ==> (SeenBit(words, b) <==> exists i :: i in seen && RequiredNumber(fields, i) == Some(b))
  }

  ghost function RequiredNumber(fields: seq<Field>, i: nat): Option<nat> {
    if i < |fields| && fields[i].rule.Required? then Some(RequiredBefore(fields, i)) else None
  }

  lemma NothingSeen(fields: seq<Field>)
    ensures Tracks([0, 0], fields, {})
  {
    forall b | 0 <= b < 64 ensures !Bit(0, b % 32) {
      NoBits(b % 32);
    }
  }

  lemma {:induction false} NoBits(j: nat)
    ensures !Bit(0, j)
  {
    if j > 0 {
      NoBits(j - 1);
    }
  }

  function SetBit(words: seq<Word32>, b: nat): (r: seq<Word32>)
    requires |words| == 2 && b < 64
    ensures |r| == 2
  {
    WordSizes();
    words[b / 32 := WithBit(words[b / 32], b % 32, 32)]
  }

  lemma SetsOneBit(words: seq<Word32>, b: nat, other: nat)
    requires |words| == 2 && b < 64 && other < 64
    ensures SeenBit(SetBit(words, b), other) <==> other == b || SeenBit(words, other)
  {
    hide Bit, Power2, WithBit;
    WordSizes();
    if other / 32 == b / 32 {
      OneBit(words[b / 32], b % 32, 32, other % 32);
    }
  }

  /** Set the bit of field `i`. */
  method MarkSeen(words: seq<Word32>, fields: seq<Field>, ghost seen: set<nat>, ghost i: nat, index: nat) returns (more: seq<Word32>)
    requires Tracks(words, fields, seen) && RequiredNumber(fields, i) == Some(index) && index < MAX_REQUIRED
    ensures Tracks(more, fields, seen + {i})
  {
    hide SeenBit, SetBit;
    more := SetBit(words, index);
    forall b | 0 <= b < 64
      ensures SeenBit(more, b) <==> exists j :: j in seen + {i} && RequiredNumber(fields, j) == Some(b)
    {
      SetsOneBit(words, index, b);
      if b == index {
        assert i in seen + {i};
      } else if exists j :: j in seen && RequiredNumber(fields, j) == Some(b) {
        var j :| j in seen && RequiredNumber(fields, j) == Some(b);
        assert j in seen + {i};
      }
    }
  }

  lemma {:induction false} RequiredAscend(fields: seq<Field>, i: nat, j: nat)
    requires i <= j <= |fields|
    ensures RequiredBefore(fields, i) <= RequiredBefore(fields, j)
    decreases j
  {
    if i < j {
      RequiredAscend(fields, i, j - 1);
    }
  }

  /** Different required fields have different numbers. */
  lemma NumbersDiffer(fields: seq<Field>, i: nat, j: nat)
    requires i < j < |fields| && fields[i].rule.Required?
    ensures RequiredBefore(fields, i) < RequiredBefore(fields, j)
  {
    RequiredAscend(fields, i + 1, j);
  }

  /** Every number below their count is some required field's. */
  lemma {:induction false} RequiredAt(fields: seq<Field>, n: nat, b: nat) returns (i: nat)
    requires n <= |fields| && b < RequiredBefore(fields, n)
    ensures i < n && RequiredNumber(fields, i) == Some(b)
    decreases n
  {
    if b == RequiredBefore(fields, n - 1) {
      i := n - 1;
    } else {
      i := RequiredAt(fields, n - 1, b);
    }
  }

  ghost function Tracked(fields: seq<Field>): nat {
    var total := RequiredBefore(fields, |fields|);
    if total > MAX_REQUIRED then MAX_REQUIRED else total
  }

  /** Bits past the number of required fields are never set. */
  lemma UnusedIsClear(words: seq<Word32>, fields: seq<Field>, seen: set<nat>, b: nat)
    requires Tracks(words, fields, seen) && Tracked(fields) <= b < 64
    ensures !SeenBit(words, b)
  {
    hide SeenBit;
    forall i | i in seen ensures RequiredNumber(fields, i) != Some(b) {
      RequiredAscend(fields, i + 1, |fields|);
    }
  }

  lemma CompleteHasBit(words: seq<Word32>, fields: seq<Field>, seen: set<nat>, b: nat)
    requires Tracks(words, fields, seen) && Complete(fields, seen) && b < Tracked(fields)
    ensures SeenBit(words, b)
  {
    hide SeenBit;
    var i := RequiredAt(fields, |fields|, b);
    assert i in seen;
  }

  lemma BitsAreComplete(words: seq<Word32>, fields: seq<Field>, seen: set<nat>)
    requires Tracks(words, fields, seen) && forall b :: 0 <= b < Tracked(fields) ==> SeenBit(words, b)
    ensures Complete(fields, seen)
  {
    hide SeenBit;
    forall i | 0 <= i < |fields| && fields[i].rule.Required? && RequiredBefore(fields, i) < MAX_REQUIRED ensures i in seen {
      var b := RequiredBefore(fields, i);
      RequiredAscend(fields, i + 1, |fields|);
      assert SeenBit(words, b);
      var j :| j in seen && RequiredNumber(fields, j) == Some(b);
      if i < j {
        NumbersDiffer(fields, i, j);
      } else if j < i {
        NumbersDiffer(fields, j, i);
      }
    }
  }

  ghost predicate LowBits(w: Word32, r: nat) {
    forall j :: 0 <= j < r ==> Bit(w, j)
  }

  /** A word without bits past the first `r` has all of those exactly if it is the greatest. */
  lemma WordIsFull(w: Word32, r: nat)
    requires r <= 32 && forall j :: r <= j < 32 ==> !Bit(w, j)
    ensures w == Power2(r) - 1 <==> LowBits(w, r)
  {
    hide Bit, Power2;
    WordSizes();
    UpperBitsClear(w, r, 32);
    if w == Power2(r) - 1 {
      forall j | 0 <= j < r ensures Bit(w, j) {
        GreatestHasAllBits(r, j);
      }
    }
    if LowBits(w, r) {
      AllBitsSet(w, r);
    }
  }

  lemma AllBitsShifted(r: nat)
    requires r <= 32
    ensures 0xffff_ffff / Power2(32 - r) == Power2(r) - 1
  {
    hide Power2;
    WordSizes();
    PowersAdd(r, 32 - r);
    var p, q := Power2(r), Power2(32 - r);
    assert (p - 1) * q == p * q - q;
    DivisionIsUnique(0xffff_ffff, p - 1, q - 1, q);
  }

  /** The bit of the field that was found, if it is kept track of. */
  method NoteSeen(iter: FieldIter, words: seq<Word32>, ghost seen: set<nat>) returns (more: seq<Word32>)
    requires iter.Valid() && iter.fields != [] && Tracks(words, iter.fields, seen)
    ensures Tracks(more, iter.fields, NowSeen(iter.fields, iter.pos, seen))
  {
    more := words;
    if iter.fields[iter.pos].rule.Required? && iter.requiredIndex < MAX_REQUIRED {
      more := MarkSeen(words, iter.fields, seen, iter.pos, iter.requiredIndex);
    }
  }

  /** The end of pb_decode_noinit: whole words, then the remaining bits. */
  method CheckRequired(iter: FieldIter, words: seq<Word32>, ghost seen: set<nat>) returns (ok: bool)
    requires iter.Valid() && Tracks(words, iter.fields, seen)
    modifies iter
    ensures ok <==> Complete(iter.fields, seen)
  {
    var count, lastRequired, more := 0, false, true;
    ghost var total := RequiredBefore(iter.fields, |iter.fields|);
    while more
      invariant iter.Valid()
      invariant !more ==> total == count + (if lastRequired && iter.fields != [] then 1 else 0)
      decreases if more then |iter.fields| + 1 - iter.pos else 0
    {
      count := iter.requiredIndex;
      lastRequired := iter.fields == [] || iter.fields[iter.pos].rule.Required?;
      more := iter.Next();
    }
    if lastRequired && iter.fields != [] {
      count := count + 1;
    }
    if count > MAX_REQUIRED {
      count := MAX_REQUIRED;
    }
    ok := CheckWords(words, iter.fields, seen, count);
  }

  method CheckWords(words: seq<Word32>, ghost fields: seq<Field>, ghost seen: set<nat>, count: nat) returns (ok: bool)
    requires Tracks(words, fields, seen) && count == Tracked(fields)
    ensures ok <==> Complete(fields, seen)
  {
    hide Bit, Power2, Complete;
    WordSizes();
    var i := 0;
    while i < count / 32
      invariant i <= count / 32
      invariant forall q :: 0 <= q < i ==> LowBits(words[q], 32)
    {
      WordIsFull(words[i], 32);
      if words[i] != 0xffff_ffff {
        BitMissing(words, fields, seen, i, 32);
        return false;
      }
      i := i + 1;
    }
    if count % 32 != 0 {
      var q, r := count / 32, count % 32;
      UpperIsClear(words, fields, seen, q, r);
      WordIsFull(words[q], r);
      AllBitsShifted(r);
      if words[q] != 0xffff_ffff / Power2(32 - r) {
        BitMissing(words, fields, seen, q, r);
        return false;
      }
    }
    forall b | 0 <= b < count ensures SeenBit(words, b) {
      assert LowBits(words[b / 32], if b / 32 == count / 32 then count % 32 else 32);
    }
    BitsAreComplete(words, fields, seen);
    return true;
  }

  lemma UpperIsClear(words: seq<Word32>, fields: seq<Field>, seen: set<nat>, q: nat, r: nat)
    requires Tracks(words, fields, seen) && q < 2 && r < 32 && 32 * q + r == Tracked(fields)
    ensures forall j :: r <= j < 32 ==> !Bit(words[q], j)
  {
    hide Bit;
    forall j | r <= j < 32 ensures !Bit(words[q], j) {
      UnusedIsClear(words, fields, seen, 32 * q + j);
      assert (32 * q + j) / 32 == q && (32 * q + j) % 32 == j;
    }
  }

  lemma BitMissing(words: seq<Word32>, fields: seq<Field>, seen: set<nat>, q: nat, r: nat)
    requires Tracks(words, fields, seen) && q < 2 && r <= 32 && 32 * q + r <= Tracked(fields) && !LowBits(words[q], r)
    ensures !Complete(fields, seen)
  {
    hide Bit, Complete;
    var j :| 0 <= j < r && !Bit(words[q], j);
    assert (32 * q + j) / 32 == q && (32 * q + j) % 32 == j;
    if Complete(fields, seen) {
      CompleteHasBit(words, fields, seen, 32 * q + j);
    }
  }
}
