/** TableBuilder (table/table_builder.cc): blocks as large as the caller's size rule lets them grow, one index entry a
    block, filters by file offset. */
module TableBuilders {
  import opened DbFormat
  import opened Coding
  import opened BytewiseComparator
  import opened FilterBlocks
  import opened Tables
  import Bloom

  lemma {:induction false} FlatAppend(blocks: seq<seq<TableEntry>>, block: seq<TableEntry>)
    ensures Flat(blocks + [block]) == Flat(blocks) + block
  {
    assert (blocks + [block])[..|blocks|] == blocks;
  }

  /** Later keys join the lists' ends, or the lists grow: what was in a list stays in it. */
  lemma FilterGrows(block: seq<TableEntry>, lists: seq<seq<Bytes>>, more: seq<seq<Bytes>>, offset: nat)
    requires InFilter(block, lists, offset) && |lists| <= |more|
    requires forall i, k :: 0 <= i < |lists| && k in lists[i] ==> k in more[i]
    ensures InFilter(block, more, offset)
  {
  }

  class TableBuilder {
    const create: Create
    /** When a block is flushed, and how many bytes it takes in the file. */
    const full: seq<TableEntry> -> bool
    const sizeOf: seq<TableEntry> -> nat
    const filter: FilterBlockBuilder
    var file: map<nat, seq<TableEntry>>
    var index: seq<IndexEntry>
    var offset: nat
    var dataBlock: seq<TableEntry>
    var lastKey: EncodedKey
    var pendingIndexEntry: bool
    var pendingOffset: nat
    ghost var entries: seq<TableEntry>
    ghost var blocks: seq<seq<TableEntry>>
    ghost var offsets: seq<nat>

    ghost predicate Valid()
      reads this, filter
    {
      && filter.Valid() && filter.create == create
      && entries == Flat(blocks) + dataBlock && SortedEntries(entries)
      && Placed(file, index, blocks, offsets) && (forall o :: o in file ==> o < offset)
      && WellSeparated(blocks, index, dataBlock) && |blocks| == |index| + (if pendingIndexEntry then 1 else 0)
      && (if pendingIndexEntry then dataBlock == [] && pendingOffset == offsets[|blocks| - 1]
          else dataBlock == [] ==> blocks == [])
      && (entries != [] ==> lastKey == LastKey(entries))
      && Filtered()
    }

    /** Keys of every written block, and of the current one, are in the filter of its offset. */
    ghost predicate Filtered()
      reads this, filter
    {
      var lists := filter.lists + [filter.pending];
      && |filter.lists| == offset / BASE && InFilter(dataBlock, lists, offset)
      && |offsets| == |blocks| && forall i :: 0 <= i < |blocks| ==> InFilter(blocks[i], lists, offsets[i])
    }

    constructor (create: Create, full: seq<TableEntry> -> bool, sizeOf: seq<TableEntry> -> nat)
      ensures Valid() && entries == [] && fresh(filter) && this.create == create
    {
      this.create, this.full, this.sizeOf := create, full, sizeOf;
      filter := new FilterBlockBuilder(create);
      file, index, offset, dataBlock, lastKey := map[], [], 0, [], EncodedKey([], 0);
      pendingIndexEntry, pendingOffset, entries, blocks, offsets := false, 0, [], [], [];
      new;
      filter.StartBlock(0);
    }

    method Add(key: EncodedKey, value: Bytes)
      requires Valid() && (entries != [] ==> KeyPrecedes(LastKey(entries), key))
      modifies this, filter
      ensures Valid() && entries == old(entries) + [TableEntry(key, value)]
    {
      hide Flat, KeyPrecedes, Precedes, InFilter, SortedEntries, WellSeparated, Placed;
      ghost var entry := TableEntry(key, value);
      SortedAppend(entries, entry);
      if pendingIndexEntry {
        PendingHasEntries();
        SealBlock(key);
        assert WellSeparated(blocks, index, [TableEntry(key, value)]);
        assert dataBlock + [entry] == [entry];
      } else {
        DataSeparated(blocks, index, dataBlock, entry);
      }
      AddData(key, value);
      if full(dataBlock) {
        Flush();
      }
    }

    lemma PendingHasEntries()
      requires Valid() && pendingIndexEntry
      ensures entries != [] && blocks != [] && blocks[|blocks| - 1] != []
      ensures entries == Flat(blocks)
    {
      NothingFlat(blocks);
    }

    /** The index entry that was waiting for the next block's first key. */
    method SealBlock(key: EncodedKey)
      requires Valid() && pendingIndexEntry && KeyPrecedes(LastKey(entries), key)
      modifies `index, `lastKey, `pendingIndexEntry
      ensures !pendingIndexEntry && |index| == |blocks| && Placed(file, index, blocks, offsets)
      ensures forall value :: WellSeparated(blocks, index, [TableEntry(key, value)])
    {
      hide Flat, KeyPrecedes, Precedes, InFilter, SortedEntries;
      ghost var last := lastKey;
      lastKey := FindShortestKeySeparator(lastKey, key);
      LastOfBlocks(blocks);
      ghost var before := index;
      index := index + [IndexEntry(lastKey, pendingOffset)];
      pendingIndexEntry := false;
      forall value, i | 0 <= i < |index| ensures SeparatedAt(blocks, index, [TableEntry(key, value)], i) {
        if i < |before| {
          assert SeparatedAt(blocks, before, [], i);
        }
      }
    }

    /** Put an entry into the current block and its key into the current filter. */
    method AddData(key: EncodedKey, value: Bytes)
      requires filter.Valid() && filter.create == create && Filtered()
      requires entries == Flat(blocks) + dataBlock && SortedEntries(entries + [TableEntry(key, value)])
      requires Placed(file, index, blocks, offsets) && |index| == |blocks| && !pendingIndexEntry
      requires forall o :: o in file ==> o < offset
      requires WellSeparated(blocks, index, dataBlock + [TableEntry(key, value)])
      modifies `entries, `dataBlock, `lastKey, filter
      ensures Valid() && entries == old(entries) + [TableEntry(key, value)]
    {
      hide Flat, KeyPrecedes, Precedes, SortedEntries, WellSeparated, Placed;
      ghost var entry := TableEntry(key, value);
      ghost var lists := filter.lists + [filter.pending];
      filter.AddKey(key.user);
      ghost var more := filter.lists + [filter.pending];
      assert Flat(blocks) + dataBlock + [entry] == Flat(blocks) + (dataBlock + [entry]);
      FilterGrows(dataBlock, lists, more, offset);
      forall i | 0 <= i < |blocks| ensures InFilter(blocks[i], more, offsets[i]) {
        FilterGrows(blocks[i], lists, more, offsets[i]);
      }
      lastKey := key;
      dataBlock := dataBlock + [TableEntry(key, value)];
      entries := entries + [entry];
    }

    /** Flush: the current block goes to the file; its index entry waits. */
    method Flush()
      requires Valid()
      modifies this, filter
      ensures Valid() && entries == old(entries) && dataBlock == []
      ensures pendingIndexEntry <==> entries != []
    {
      hide Flat, KeyPrecedes, Precedes, InFilter, SortedEntries, WellSeparated;
      NothingFlat(blocks);
      if dataBlock == [] {
        return;
      }
      WriteBlock();
      StartNext();
    }

    method WriteBlock()
      requires Valid() && dataBlock != []
      modifies `file, `offset, `dataBlock, `pendingIndexEntry, `pendingOffset, `blocks, `offsets
      ensures blocks == old(blocks) + [old(dataBlock)] && offsets == old(offsets) + [old(offset)] && offset > old(offset)
      ensures entries == Flat(blocks) && Placed(file, index, blocks, offsets) && (forall o :: o in file ==> o < offset)
      ensures WellSeparated(blocks, index, []) && |blocks| == |index| + 1
      ensures pendingIndexEntry && dataBlock == [] && pendingOffset == offsets[|blocks| - 1]
    {
      hide Flat, KeyPrecedes, Precedes, InFilter, SortedEntries, WellSeparated, Placed, Filtered;
      BlockSeparated(blocks, index, dataBlock);
      FlatAppend(blocks, dataBlock);
      OneMorePlaced(file, index, blocks, offsets, dataBlock, offset);
      file := file[offset := dataBlock];
      pendingOffset := offset;
      pendingIndexEntry := true;
      blocks, offsets := blocks + [dataBlock], offsets + [offset];
      offset := offset + sizeOf(dataBlock) + TRAILER;
      dataBlock := [];
    }

    /** The filter moves on to the new offset; blocks written before stay in their filters. */
    method StartNext()
      requires filter.Valid() && |filter.lists| <= offset / BASE && dataBlock == [] && |offsets| == |blocks|
      requires forall i :: 0 <= i < |blocks| ==> InFilter(blocks[i], filter.lists + [filter.pending], offsets[i])
      modifies filter
      ensures filter.Valid() && Filtered()
    {
      hide InFilter;
      ghost var lists := filter.lists + [filter.pending];
      filter.StartBlock(offset);
      ghost var after := filter.lists + [filter.pending];
      forall i | 0 <= i < |blocks| ensures InFilter(blocks[i], after, offsets[i]) {
        FilterGrows(blocks[i], lists, after, offsets[i]);
      }
      EmptyInFilter(after, offset);
    }

    /** Finish: flush, make the last filter, and give the last block an index key at or after its last key. */
    method Finish() returns (t: Table)
      requires Valid()
      modifies this, filter
      ensures entries == old(entries) && entries == Flat(blocks)
      ensures IsTable(t, blocks, offsets, create, filter.lists)
    {
      hide Flat, KeyPrecedes, Precedes, SortedEntries, InFilter, WellSeparated, Placed, FinishedFilters;
      Flush();
      assert Flat(blocks) + [] == Flat(blocks);
      ghost var lists := filter.lists + [filter.pending];
      if pendingIndexEntry {
        SealLast();
      }
      NonEmptyBlocks();
      ghost var filed := blocks;
      var contents := filter.Finish();
      forall i | 0 <= i < |blocks| ensures InFilter(blocks[i], filter.lists, offsets[i]) {
        NoEmptyFilterNeeded(blocks[i], lists, filter.lists, offsets[i]);
      }
      t := Table(file, index, contents);
    }

    lemma NonEmptyBlocks()
      requires Placed(file, index, blocks, offsets)
      ensures |offsets| == |blocks| && forall i :: 0 <= i < |blocks| ==> blocks[i] != []
    {
    }

    /** The last block's index entry: any key at or after its last will do, so a short one is taken. */
    method SealLast()
      requires Valid() && pendingIndexEntry
      modifies `index, `lastKey, `pendingIndexEntry
      ensures !pendingIndexEntry && |index| == |blocks| && Placed(file, index, blocks, offsets) && WellSeparated(blocks, index, [])
    {
      hide Flat, KeyPrecedes, Precedes, SortedEntries, InFilter;
      PendingHasEntries();
      LastOfBlocks(blocks);
      lastKey := FindShortKeySuccessor(lastKey);
      ghost var before := index;
      index := index + [IndexEntry(lastKey, pendingOffset)];
      pendingIndexEntry := false;
      forall i | 0 <= i < |index| ensures SeparatedAt(blocks, index, [], i) {
        if i < |before| {
          assert SeparatedAt(blocks, before, [], i);
        }
      }
    }
  }

  /** The last key list is dropped only if it is empty, and then it is no block's. */
  lemma NoEmptyFilterNeeded(block: seq<TableEntry>, lists: seq<seq<Bytes>>, kept: seq<seq<Bytes>>, offset: nat)
    requires InFilter(block, lists, offset) && block != [] && lists != []
    requires kept == if lists[|lists| - 1] == [] then lists[..|lists| - 1] else lists
    ensures InFilter(block, kept, offset)
  {
    assert block[0].key.user in lists[offset / BASE];
  }

  lemma OneMorePlaced(file: map<nat, seq<TableEntry>>, index: seq<IndexEntry>, blocks: seq<seq<TableEntry>>, offsets: seq<nat>,
                      block: seq<TableEntry>, offset: nat)
    requires Placed(file, index, blocks, offsets) && (forall o :: o in file ==> o < offset) && block != []
    ensures Placed(file[offset := block], index, blocks + [block], offsets + [offset]) && |offsets| == |blocks|
  {
  }

  lemma SortedAppend(es: seq<TableEntry>, e: TableEntry)
    requires SortedEntries(es) && (es != [] ==> KeyPrecedes(LastKey(es), e.key))
    ensures SortedEntries(es + [e])
  {
    hide KeyPrecedes;
    forall i | 0 <= i < |es| ensures KeyPrecedes(es[i].key, e.key) {
      KeysAreOrdered(es[i].key, LastKey(es), e.key);
    }
  }

  /** The last entry of all blocks is the last block's. */
  lemma LastOfBlocks(blocks: seq<seq<TableEntry>>)
    requires blocks != [] && blocks[|blocks| - 1] != []
    ensures Flat(blocks) != [] && LastKey(Flat(blocks)) == LastKey(blocks[|blocks| - 1])
  {
  }

  lemma NothingFlat(blocks: seq<seq<TableEntry>>)
    ensures blocks == [] ==> Flat(blocks) == []
    ensures blocks != [] && blocks[|blocks| - 1] != [] ==> Flat(blocks) != []
  {
  }

  /** Growing the current block moves no separator. */
  lemma DataSeparated(blocks: seq<seq<TableEntry>>, index: seq<IndexEntry>, data: seq<TableEntry>, entry: TableEntry)
    requires WellSeparated(blocks, index, data) && (data == [] ==> blocks == [])
    ensures WellSeparated(blocks, index, data + [entry])
  {
    hide Precedes;
    forall i | 0 <= i < |index| ensures SeparatedAt(blocks, index, data + [entry], i) {
      assert SeparatedAt(blocks, index, data, i);
    }
  }

  /** Nor does making it the last block. */
  lemma BlockSeparated(blocks: seq<seq<TableEntry>>, index: seq<IndexEntry>, data: seq<TableEntry>)
    requires WellSeparated(blocks, index, data) && data != []
    ensures WellSeparated(blocks + [data], index, [])
  {
    hide Precedes;
    forall i | 0 <= i < |index| ensures SeparatedAt(blocks + [data], index, [], i) {
      assert SeparatedAt(blocks, index, data, i);
    }
  }

  lemma EmptyInFilter(lists: seq<seq<Bytes>>, offset: nat)
    requires offset / BASE < |lists|
    ensures InFilter([], lists, offset)
  {
  }

  /** The Bloom filter policy is one the lookup may rely on. */
  lemma BloomIsSound(hash: Bloom.HashFunction, bitsPerKey: nat, probes: nat)
    requires probes < 256
    ensures Sound(keys => Bloom.Create(hash, bitsPerKey, probes, keys), (key, filter) => Bloom.MayMatch(hash, key, filter))
  {
    forall keys: seq<Bytes>, key: Bytes | key in keys
      ensures Bloom.MayMatch(hash, key, Bloom.Create(hash, bitsPerKey, probes, keys))
    {
      Bloom.NoFalseNegatives(hash, bitsPerKey, probes, keys, key);
    }
  }
}
