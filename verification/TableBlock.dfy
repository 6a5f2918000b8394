/** A table's data block as bytes: what the block builder writes and the block iterator finds (table/table_builder.cc,
    table/table.cc, db/dbformat.h). */
module TableBlocks {
  import opened DbFormat
  import opened Coding
  import opened BytewiseComparator
  import opened Tables
  import opened BlockFormat
  import opened BlockIters
  import Blocks

  /** An internal key in a block: the user key and eight bytes of sequence number and kind. */
  function KeyBytes(k: EncodedKey): Bytes {
    k.user + EncodeFixed64(k.tag)
  }

  /** ExtractUserKey and the last eight bytes. */
  function KeyOf(b: Bytes): EncodedKey {
    if |b| < 8 then EncodedKey([], 0) else EncodedKey(b[..|b| - 8], DecodeFixed64(b[|b| - 8..]))
  }

  lemma KeyRoundTrip(k: EncodedKey)
    ensures KeyOf(KeyBytes(k)) == k
  {
    hide EncodeFixed64, DecodeFixed64;
    var b := KeyBytes(k);
    assert b[|b| - 8..] == EncodeFixed64(k.tag) + [];
    assert b[..|b| - 8] == k.user;
    Fixed64RoundTrip(k.tag, []);
  }

  /** The comparator of a table's blocks. */
  function InternalOrder(): Order {
    (a, b) => KeyPrecedes(KeyOf(a), KeyOf(b))
  }

  function Pairs(block: seq<TableEntry>): seq<Pair> {
    seq(|block|, i requires 0 <= i < |block| => Pair(KeyBytes(block[i].key), block[i].value))
  }

  lemma OrderFits(block: seq<TableEntry>)
    requires SortedEntries(block)
    ensures Transitive(InternalOrder()) && SortedBy(InternalOrder(), Pairs(block))
  {
    hide KeyPrecedes, KeyBytes, KeyOf;
    forall a, b, c | InternalOrder()(a, b) && InternalOrder()(b, c) ensures InternalOrder()(a, c) {
      KeysAreOrdered(KeyOf(a), KeyOf(b), KeyOf(c));
    }
    forall i, j | 0 <= i < j < |block| ensures InternalOrder()(Pairs(block)[i].key, Pairs(block)[j].key) {
      KeyRoundTrip(block[i].key);
      KeyRoundTrip(block[j].key);
    }
  }

  /** The lower bound among the block's byte pairs is the one table lookups use. */
  lemma SeekAgrees(block: seq<TableEntry>, target: EncodedKey, n: nat)
    requires SortedEntries(block) && IsLowerBound(InternalOrder(), Pairs(block), KeyBytes(target), n)
    ensures n == SeekBlock(block, target)
  {
    hide KeyPrecedes, KeyBytes, KeyOf;
    KeyRoundTrip(target);
    var m := SeekBlock(block, target);
    if m < n {
      assert InternalOrder()(Pairs(block)[m].key, KeyBytes(target));
      KeyRoundTrip(block[m].key);
    } else if n < m {
      KeyRoundTrip(block[n].key);
    }
  }

  /** The block builder on a table's entries. */
  method WriteBlock(block: seq<TableEntry>, interval: nat) returns (contents: Bytes)
    requires interval > 0 && Fits(Pairs(block), interval)
    ensures contents == Finished(Pairs(block), interval)
  {
    hide Finished, Fits, KeyBytes, Blocks.BlockBuilder.Valid;
    var builder := new Blocks.BlockBuilder(interval);
    for i := 0 to |block|
      invariant fresh(builder) && builder.Valid() && !builder.finished && builder.interval == interval
      invariant builder.entries == Pairs(block)[..i]
    {
      PairFits(block, interval, i);
      builder.Add(KeyBytes(block[i].key), block[i].value);
    }
    assert Pairs(block)[..|block|] == Pairs(block);
    contents := builder.Finish();
  }

  lemma PairFits(block: seq<TableEntry>, interval: nat, i: nat)
    requires Fits(Pairs(block), interval) && i < |block|
    ensures |KeyBytes(block[i].key)| < TWO32 && |block[i].value| < TWO32
    ensures Pairs(block)[..i + 1] == Pairs(block)[..i] + [Pair(KeyBytes(block[i].key), block[i].value)]
  {
    assert Pairs(block)[i] == Pair(KeyBytes(block[i].key), block[i].value);
  }

  /** Seeking in a finished block's bytes finds the entry that InternalGet takes from the block. */
  method SeekInBytes(contents: Bytes, target: EncodedKey, ghost block: seq<TableEntry>, ghost interval: nat)
    returns (r: Option<TableEntry>)
    requires SortedEntries(block) && Fits(Pairs(block), interval) && contents == Finished(Pairs(block), interval)
    ensures var n := SeekBlock(block, target);
      r == if n < |block| then Some(block[n]) else None
  {
    hide Finished, Fits, KeyPrecedes, Transitive, SortedBy, SortedEntries, KeyBytes, KeyOf, Offset;
    OrderFits(block);
    var iter := new BlockIter(InternalOrder(), contents, Pairs(block), interval);
    ghost var n := iter.Seek(KeyBytes(target));
    SeekAgrees(block, target, n);
    if n < |block| {
      iter.AtIsValid(n);
      KeyRoundTrip(block[n].key);
    }
    r := if iter.Valid() then Some(TableEntry(KeyOf(iter.key), iter.value)) else None;
  }
}
