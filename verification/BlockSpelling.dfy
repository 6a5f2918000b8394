/** Which bytes of a block are taken for the head of an entry: for any block, intact or not (DecodeEntry in table/block.cc). */
module BlockSpelling {
  import opened DbFormat
  import opened Coding
  import opened Spelling
  import opened BlockFormat
  import opened BlockIters

  /** A 32-bit number stands at data[p..q]. */
  ghost predicate NumberAt(data: Bytes, p: nat, q: nat, v: nat) {
    p <= q <= |data| && exists w: nat :: SpellsNumber(data[p..q], 5, w) && w % TWO32 == v
  }

  lemma NumberAtIsRead(data: Bytes, p: nat, limit: nat, q: nat, v: nat)
    requires p <= limit <= |data|
    ensures Number(data, p, limit) == Some((v, q)) <==> q <= limit && NumberAt(data, p, q, v)
  {
    hide SpellsNumber, DecodeVarint;
    if p <= q <= limit {
      assert data[p..q] + data[q..limit] == data[p..limit];
      forall w: nat ensures SpellsNumber(data[p..q], 5, w) <==> DecodeVarint(data[p..limit], 5) == Some((w, q - p)) {
        NumberIsRead(data[p..q], data[q..limit], 5, w);
      }
      if Number(data, p, limit) == Some((v, q)) {
        var (w, _) := DecodeVarint(data[p..limit], 5).value;
        assert SpellsNumber(data[p..q], 5, w);
      }
    }
  }

  /** The head at data[p..d.start] holds the three numbers one after the other, and what they announce has room before `limit`:
      the sum of the two lengths is taken modulo 2^32. */
  ghost predicate HeadAt(data: Bytes, p: nat, limit: nat, d: Decoded) {
    && p + 3 <= limit && d.start <= limit && (d.nonShared + d.valueLength) % TWO32 <= limit - d.start
    && exists q, r :: NumberAt(data, p, q, d.shared) && NumberAt(data, q, r, d.nonShared) && NumberAt(data, r, d.start, d.valueLength)
  }

  lemma HeadIsRead(data: Bytes, p: nat, limit: nat, d: Decoded)
    requires p <= limit <= |data|
    ensures DecodeEntry(data, p, limit) == Some(d) <==> HeadAt(data, p, limit, d)
  {
    hide NumberAt, Number;
    forall p: nat, q: nat, v: nat | p <= limit
      ensures Number(data, p, limit) == Some((v, q)) <==> q <= limit && NumberAt(data, p, q, v) {
      NumberAtIsRead(data, p, limit, q, v);
    }
    forall p: nat, q: nat, v: nat | NumberAt(data, p, q, v) ensures p <= q {
      Ascends(data, p, q, v);
    }
  }

  lemma Ascends(data: Bytes, p: nat, q: nat, v: nat)
    requires NumberAt(data, p, q, v)
    ensures p <= q
  {
  }

  /** Unless their sum wraps around, the key's rest and the value are inside the block. */
  lemma EntryIsInside(data: Bytes, p: nat, limit: nat, d: Decoded)
    requires p <= limit <= |data| && DecodeEntry(data, p, limit) == Some(d)
    ensures d.nonShared + d.valueLength < TWO32 ==> d.start + d.nonShared + d.valueLength <= limit
  {
    HeadIsRead(data, p, limit, d);
  }

  /** Contents are taken for a block exactly if the last number counts restart points that all have room before it. */
  lemma BlockOpens(contents: Bytes, at: nat, count: nat)
    ensures Open(contents) == Some((at, count)) <==>
            |contents| == at + 4 * count + 4 && DecodeFixed32(contents[|contents| - 4..]) == count
  {
    hide DecodeFixed32;
  }
}
