/** The two-level iterator (table/two_level_iterator.cc): an index over blocks as one iterator over their entries. It serves
    tables and, with files for blocks, whole levels. */
module TwoLevel {
  import opened DbFormat
  import opened Cursors

  function Flatten(blocks: seq<seq<Entry>>): seq<Entry> {
    if blocks == [] then [] else Flatten(blocks[..|blocks| - 1]) + blocks[|blocks| - 1]
  }

  /** Where block `i` starts in the flattened entries. */
  function StartOf(blocks: seq<seq<Entry>>, i: nat): nat
    requires i <= |blocks|
  {
    |Flatten(blocks[..i])|
  }

  lemma {:induction false} FlatAt(blocks: seq<seq<Entry>>, i: nat)
    requires i < |blocks|
    ensures StartOf(blocks, i + 1) == StartOf(blocks, i) + |blocks[i]| <= |Flatten(blocks)|
    ensures Flatten(blocks)[StartOf(blocks, i)..StartOf(blocks, i + 1)] == blocks[i]
    decreases |blocks|
  {
    var n := |blocks| - 1;
    assert blocks[..i + 1][..i] == blocks[..i];
    if i < n {
      FlatAt(blocks[..n], i);
      assert blocks[..n][..i] == blocks[..i] && blocks[..n][..i + 1] == blocks[..i + 1];
      assert Flatten(blocks)[StartOf(blocks, i)..StartOf(blocks, i + 1)] == Flatten(blocks[..n])[StartOf(blocks, i)..StartOf(blocks, i + 1)];
    } else {
      assert blocks[..i + 1] == blocks;
    }
  }

  lemma {:induction false} StartsAscend(blocks: seq<seq<Entry>>, i: nat, j: nat)
    requires i <= j <= |blocks|
    ensures StartOf(blocks, i) <= StartOf(blocks, j) <= |Flatten(blocks)|
    decreases j - i
  {
    if i < j {
      StartsAscend(blocks, i, j - 1);
      FlatAt(blocks, j - 1);
    } else if i < |blocks| {
      FlatAt(blocks, i);
    } else {
      assert blocks[..i] == blocks;
    }
  }

  lemma Ends(blocks: seq<seq<Entry>>)
    ensures StartOf(blocks, 0) == 0 && StartOf(blocks, |blocks|) == |Flatten(blocks)|
  {
    assert blocks[..|blocks|] == blocks;
  }

  lemma EntryAt(blocks: seq<seq<Entry>>, i: nat, j: nat)
    requires i < |blocks| && j < |blocks[i]|
    ensures StartOf(blocks, i) + j < |Flatten(blocks)| && Flatten(blocks)[StartOf(blocks, i) + j] == blocks[i][j]
  {
    FlatAt(blocks, i);
    assert Flatten(blocks)[StartOf(blocks, i)..StartOf(blocks, i + 1)][j] == blocks[i][j];
  }

  /** Every position of the flattened entries is in some block. */
  lemma {:induction false} BlockOf(blocks: seq<seq<Entry>>, p: nat) returns (i: nat, j: nat)
    requires p < |Flatten(blocks)|
    ensures i < |blocks| && j < |blocks[i]| && p == StartOf(blocks, i) + j
    decreases |blocks|
  {
    var n := |blocks| - 1;
    assert StartOf(blocks, n) == |Flatten(blocks[..n])|;
    if p < |Flatten(blocks[..n])| {
      i, j := BlockOf(blocks[..n], p);
      assert blocks[..n][..i] == blocks[..i];
    } else {
      i, j := n, p - |Flatten(blocks[..n])|;
    }
  }

  /** Entry `i` of the index is at or after block `i`, and before all later blocks. */
  ghost predicate Indexes(index: seq<Entry>, blocks: seq<seq<Entry>>) {
    && |index| == |blocks| && Sorted(index)
    && (forall i, x :: 0 <= i < |blocks| && 0 <= x < |blocks[i]| ==> !Less(index[i].key, blocks[i][x].key))
    && forall i, j, x :: 0 <= i < j < |blocks| && 0 <= x < |blocks[j]| ==> Less(index[i].key, blocks[j][x].key)
  }

  class TwoLevelIterator {
    const blocks: seq<seq<Entry>>
    var indexIter: Cursor
    var dataIter: Option<Cursor>

    ghost predicate Shaped()
      reads this
    {
      && Indexes(indexIter.data, blocks) && Sorted(Flatten(blocks)) && indexIter.Ok()
      && (forall i :: 0 <= i < |blocks| ==> Sorted(blocks[i]))
    }

    ghost predicate Loaded()
      reads this
    {
      dataIter.Some? && indexIter.Valid() && indexIter.pos.value < |blocks| && dataIter.value.data == blocks[indexIter.pos.value]
      && dataIter.value.Ok()
    }

    ghost predicate Inv()
      reads this
    {
      Shaped() && (IsValid() ==> Loaded())
    }

    constructor (index: seq<Entry>, blocks: seq<seq<Entry>>)
      requires Indexes(index, blocks) && Sorted(Flatten(blocks)) && forall i :: 0 <= i < |blocks| ==> Sorted(blocks[i])
      ensures Inv() && this.blocks == blocks && View() == Cursor(Flatten(blocks), None)
    {
      this.blocks := blocks;
      indexIter, dataIter := Cursor(index, None), None;
    }

    predicate IsValid()
      reads this
    {
      dataIter.Some? && dataIter.value.Valid()
    }

    /** The cursor over all entries that this stands for. */
    ghost function View(): Cursor
      requires Inv()
      reads this
    {
      Cursor(Flatten(blocks), if IsValid() then Some(StartOf(blocks, indexIter.pos.value) + dataIter.value.pos.value) else None)
    }

    /** Open the block the index points to. An iterator already open on it would be kept; it is repositioned in any case. */
    method InitDataBlock()
      requires Shaped()
      modifies `dataIter
      ensures if indexIter.Valid() then Loaded() else dataIter.None?
    {
      if indexIter.Valid() {
        dataIter := Some(Cursor(blocks[indexIter.pos.value], None));
      } else {
        dataIter := None;
      }
    }

    /** The position wanted, seen from where the two iterators are: at it, or at the end of the block before it. */
    ghost predicate Heading(goal: nat)
      requires Shaped()
      reads this
    {
      if indexIter.Valid() then
        Loaded() && goal == if IsValid() then StartOf(blocks, indexIter.pos.value) + dataIter.value.pos.value
                            else StartOf(blocks, indexIter.pos.value + 1)
      else goal == |Flatten(blocks)| && !IsValid()
    }

    method SkipEmptyDataBlocksForward(ghost goal: nat)
      requires Shaped() && Heading(goal)
      modifies `indexIter, `dataIter
      ensures Inv() && View() == Cursor(Flatten(blocks), None).At(goal) && indexIter.data == old(indexIter.data)
    {
      hide Indexes, Sorted, StartOf, Flatten;
      Ends(blocks);
      while !IsValid()
        invariant Shaped() && Heading(goal) && indexIter.data == old(indexIter.data)
        decreases |blocks| - (if indexIter.Valid() then indexIter.pos.value else |blocks|), !IsValid() && dataIter.Some?
      {
        if !indexIter.Valid() {
          dataIter := None;
          return;
        }
        BlockCount();
        indexIter := indexIter.Next();
        InitDataBlock();
        if dataIter.Some? {
          NextStart(indexIter.pos.value);
          dataIter := Some(dataIter.value.SeekToFirst());
        }
      }
      EntryAt(blocks, indexIter.pos.value, dataIter.value.pos.value);
    }

    lemma BlockCount()
      requires Shaped()
      ensures |indexIter.data| == |blocks|
    {
    }

    lemma NextStart(i: nat)
      requires i < |blocks|
      ensures StartOf(blocks, i + 1) == StartOf(blocks, i) + |blocks[i]|
    {
      FlatAt(blocks, i);
    }

    /** As Heading, for going back: at the position, or before the start of the block after it. */
    ghost predicate BackingTo(goal: int)
      requires Shaped()
      reads this
    {
      if indexIter.Valid() then
        Loaded() && goal == if IsValid() then StartOf(blocks, indexIter.pos.value) + dataIter.value.pos.value
                            else StartOf(blocks, indexIter.pos.value) - 1
      else goal == -1 && !IsValid()
    }

    method SkipEmptyDataBlocksBackward(ghost goal: int)
      requires Shaped() && BackingTo(goal)
      modifies `indexIter, `dataIter
      ensures Inv() && View() == Cursor(Flatten(blocks), None).At(goal) && indexIter.data == old(indexIter.data)
    {
      hide Indexes, Sorted, StartOf, Flatten;
      Ends(blocks);
      while !IsValid()
        invariant Shaped() && BackingTo(goal) && indexIter.data == old(indexIter.data)
        decreases if indexIter.Valid() then indexIter.pos.value + 1 else 0
      {
        if !indexIter.Valid() {
          dataIter := None;
          return;
        }
        BlockCount();
        indexIter := indexIter.Prev();
        InitDataBlock();
        if dataIter.Some? {
          NextStart(indexIter.pos.value);
          dataIter := Some(dataIter.value.SeekToLast());
        }
      }
      EntryAt(blocks, indexIter.pos.value, dataIter.value.pos.value);
    }

    method SeekToFirst()
      requires Inv()
      modifies `indexIter, `dataIter
      ensures Inv() && View() == old(View()).SeekToFirst()
    {
      hide Indexes, Sorted, StartOf, Flatten;
      BlockCount();
      Ends(blocks);
      indexIter := indexIter.SeekToFirst();
      InitDataBlock();
      if dataIter.Some? {
        NextStart(0);
        dataIter := Some(dataIter.value.SeekToFirst());
      }
      SkipEmptyDataBlocksForward(0);
    }

    method SeekToLast()
      requires Inv()
      modifies `indexIter, `dataIter
      ensures Inv() && View() == old(View()).SeekToLast()
    {
      hide Indexes, Sorted, StartOf, Flatten;
      BlockCount();
      Ends(blocks);
      indexIter := indexIter.SeekToLast();
      InitDataBlock();
      if dataIter.Some? {
        NextStart(indexIter.pos.value);
        dataIter := Some(dataIter.value.SeekToLast());
      }
      SkipEmptyDataBlocksBackward(|Flatten(blocks)| - 1);
    }

    method Seek(target: InternalKey)
      requires Inv()
      modifies `indexIter, `dataIter
      ensures Inv() && View() == old(View()).Seek(target)
    {
      hide Indexes, Sorted, StartOf, Flatten;
      BlockCount();
      Ends(blocks);
      indexIter := indexIter.Seek(target);
      SeekGoes(target);
      InitDataBlock();
      if dataIter.Some? {
        NextStart(indexIter.pos.value);
        dataIter := Some(dataIter.value.Seek(target));
      }
      SkipEmptyDataBlocksForward(LowerBound(Flatten(blocks), target));
    }

    /** Seeking in the index, then in its block, then to the next block if that has nothing, finds the lower bound of all. */
    lemma SeekGoes(target: InternalKey)
      requires Shaped() && indexIter == indexIter.Seek(target)
      ensures var goal := LowerBound(Flatten(blocks), target);
        if indexIter.Valid() then
          var i := indexIter.pos.value;
          && i < |blocks|
          && var m := LowerBound(blocks[i], target);
             goal == StartOf(blocks, i) + m
        else goal == |Flatten(blocks)|
    {
      var i := LowerBound(indexIter.data, target);
      var flat := Flatten(blocks);
      forall j, x | 0 <= j < i && 0 <= x < |blocks[j]| ensures Less(blocks[j][x].key, target) {
        BeforeSeparator(blocks[j][x].key, indexIter.data[j].key, target);
      }
      if i < |blocks| {
        var m := LowerBound(blocks[i], target);
        NextStart(i);
        StartsAscend(blocks, i + 1, |blocks|);
        if m == |blocks[i]| {
          forall j, x | i < j < |blocks| && 0 <= x < |blocks[j]| ensures !Less(blocks[j][x].key, target) {
            NotBeforeSeparator(indexIter.data[i].key, blocks[j][x].key, target);
          }
        }
        LowerBoundSplits(blocks[i], target);
        BoundAt(target, StartOf(blocks, i) + m, i, m);
      } else {
        Ends(blocks);
        forall p | 0 <= p < |flat| ensures Less(flat[p].key, target) {
          var j, x := BlockOf(blocks, p);
          EntryAt(blocks, j, x);
        }
        LowerBoundSplits(flat, target);
      }
    }

    lemma BeforeSeparator(e: InternalKey, separator: InternalKey, target: InternalKey)
      requires !Less(separator, e) && Less(separator, target)
      ensures Less(e, target)
    {
    }

    lemma NotBeforeSeparator(separator: InternalKey, e: InternalKey, target: InternalKey)
      requires Less(separator, e) && !Less(separator, target)
      ensures !Less(e, target)
    {
    }

    /** A position with everything before it below the target, and what is at it not, is the lower bound. */
    lemma BoundAt(target: InternalKey, p: nat, i: nat, m: nat)
      requires Sorted(Flatten(blocks)) && i < |blocks| && m <= |blocks[i]| && p == StartOf(blocks, i) + m && p <= |Flatten(blocks)|
      requires forall j, x :: 0 <= j < i && 0 <= x < |blocks[j]| ==> Less(blocks[j][x].key, target)
      requires forall x :: 0 <= x < m ==> Less(blocks[i][x].key, target)
      requires m < |blocks[i]| ==> !Less(blocks[i][m].key, target)
      requires m == |blocks[i]| ==> forall j, x :: i < j < |blocks| && 0 <= x < |blocks[j]| ==> !Less(blocks[j][x].key, target)
      ensures p == LowerBound(Flatten(blocks), target)
    {
      var flat := Flatten(blocks);
      NextStart(i);
      forall q | 0 <= q < |flat| ensures q < p ==> Less(flat[q].key, target) ensures q == p ==> !Less(flat[q].key, target) {
        var j, x := BlockOf(blocks, q);
        EntryAt(blocks, j, x);
        NextStart(j);
        if j < i {
          StartsAscend(blocks, j + 1, i);
        } else if j > i {
          StartsAscend(blocks, i + 1, j);
        }
      }
      BoundIsUnique(flat, target, p);
    }

    lemma BoundIsUnique(es: seq<Entry>, target: InternalKey, p: nat)
      requires p <= |es| && (forall q :: 0 <= q < p ==> Less(es[q].key, target)) && (p < |es| ==> !Less(es[p].key, target))
      ensures p == LowerBound(es, target)
    {
    }

    method Next()
      requires Inv() && View().Valid()
      modifies `indexIter, `dataIter
      ensures Inv() && View() == old(View()).Next()
    {
      hide Indexes, Sorted, StartOf, Flatten;
      BlockCount();
      NextStart(indexIter.pos.value);
      EntryAt(blocks, indexIter.pos.value, dataIter.value.pos.value);
      ghost var goal := View().pos.value + 1;
      dataIter := Some(dataIter.value.Next());
      SkipEmptyDataBlocksForward(goal);
    }

    method Prev()
      requires Inv() && View().Valid()
      modifies `indexIter, `dataIter
      ensures Inv() && View() == old(View()).Prev()
    {
      hide Indexes, Sorted, StartOf, Flatten;
      BlockCount();
      NextStart(indexIter.pos.value);
      EntryAt(blocks, indexIter.pos.value, dataIter.value.pos.value);
      ghost var goal := View().pos.value - 1;
      dataIter := Some(dataIter.value.Prev());
      SkipEmptyDataBlocksBackward(goal);
    }

    /** Any run of calls ends where the same run on one cursor over all entries ends. */
    method Perform(ops: seq<Op>)
      requires Inv() && LegalRun(View(), ops)
      modifies `indexIter, `dataIter
      ensures Inv() && View() == ApplyAll(old(View()), ops)
    {
      hide Indexes, Sorted, StartOf, Flatten, LowerBound;
      ghost var goal := ApplyAll(View(), ops);
      for i := 0 to |ops|
        invariant Inv() && LegalRun(View(), ops[i..]) && ApplyAll(View(), ops[i..]) == goal
      {
        assert ops[i..][0] == ops[i] && ops[i..][1..] == ops[i + 1..];
        match ops[i]
        case SeekToFirst => SeekToFirst();
        case SeekToLast => SeekToLast();
        case Seek(target) => Seek(target);
        case Next => Next();
        case Prev => Prev();
      }
    }
  }
}
