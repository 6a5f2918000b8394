/** Building a table and looking a key up in it (table/table_builder.cc, Table::InternalGet in table/table.cc). */
module Tables {
  import opened DbFormat
  import opened Coding
  import opened BytewiseComparator
  import opened FilterBlocks

  datatype TableEntry = TableEntry(key: EncodedKey, value: Bytes)

  /** An index entry: a separator and the offset of the block before it. */
  datatype IndexEntry = IndexEntry(key: EncodedKey, offset: nat)

  /** A finished table: data blocks by offset, index block, filter block. */
  datatype Table = Table(file: map<nat, seq<TableEntry>>, index: seq<IndexEntry>, filter: Bytes)

  const TRAILER: nat := 5

  lemma KeysAreOrdered(a: EncodedKey, b: EncodedKey, c: EncodedKey)
    ensures KeyPrecedes(a, b) && KeyPrecedes(b, c) ==> KeyPrecedes(a, c)
    ensures KeyPrecedes(a, b) || KeyPrecedes(b, a) || a == b
    ensures !(KeyPrecedes(a, b) && KeyPrecedes(b, a)) && !KeyPrecedes(a, a)
  {
    RankKeepsOrder(a.user, b.user);
    RankKeepsOrder(b.user, a.user);
    RankKeepsOrder(b.user, c.user);
    RankKeepsOrder(a.user, c.user);
    RankKeepsOrder(a.user, a.user);
  }

  ghost predicate SortedEntries(es: seq<TableEntry>) {
    forall i, j :: 0 <= i < j < |es| ==> KeyPrecedes(es[i].key, es[j].key)
  }

  function Flat(blocks: seq<seq<TableEntry>>): seq<TableEntry> {
    if blocks == [] then [] else Flat(blocks[..|blocks| - 1]) + blocks[|blocks| - 1]
  }

  /** The separator after a block: its last key, or a key whose user key lies strictly between the two neighbours'. */
  predicate Separates(separator: EncodedKey, last: EncodedKey, next: EncodedKey) {
    || separator == last
    || (Precedes(last.user, separator.user) && Precedes(separator.user, next.user))
  }

  /** All blocks, and the entries of the next one. */
  ghost predicate WellSeparated(blocks: seq<seq<TableEntry>>, index: seq<IndexEntry>, next: seq<TableEntry>) {
    |index| <= |blocks| && forall i :: 0 <= i < |index| ==> SeparatedAt(blocks, index, next, i)
  }

  ghost predicate SeparatedAt(blocks: seq<seq<TableEntry>>, index: seq<IndexEntry>, next: seq<TableEntry>, i: nat)
    requires i < |index| <= |blocks|
  {
    var after := if i + 1 < |blocks| then blocks[i + 1] else next;
    blocks[i] != [] && if after == [] then LastOrAfter(index[i].key, LastKey(blocks[i]))
                       else Separates(index[i].key, LastKey(blocks[i]), after[0].key)
  }

  predicate LastOrAfter(separator: EncodedKey, last: EncodedKey) {
    separator == last || Precedes(last.user, separator.user)
  }

  function LastKey(block: seq<TableEntry>): EncodedKey
    requires block != []
  {
    block[|block| - 1].key
  }

  /** Each user key of a block is in the list of the filter that the block's offset falls into. */
  ghost predicate InFilter(block: seq<TableEntry>, lists: seq<seq<Bytes>>, offset: nat) {
    offset / BASE < |lists| && forall x :: 0 <= x < |block| ==> block[x].key.user in lists[offset / BASE]
  }

  /** The blocks at their offsets, in the file and in the index. */
  ghost predicate Placed(file: map<nat, seq<TableEntry>>, index: seq<IndexEntry>, blocks: seq<seq<TableEntry>>, offsets: seq<nat>) {
    && |offsets| == |blocks| && |index| <= |blocks|
    && (forall i :: 0 <= i < |blocks| ==> blocks[i] != [] && offsets[i] in file && file[offsets[i]] == blocks[i])
    && (forall i :: 0 <= i < |index| ==> index[i].offset == offsets[i])
  }

  /** What a finished table is. */
  ghost predicate IsTable(t: Table, blocks: seq<seq<TableEntry>>, offsets: seq<nat>, create: Create, lists: seq<seq<Bytes>>) {
    && SortedEntries(Flat(blocks)) && |t.index| == |blocks|
    && Placed(t.file, t.index, blocks, offsets) && WellSeparated(blocks, t.index, [])
    && (forall i :: 0 <= i < |blocks| ==> InFilter(blocks[i], lists, offsets[i]))
    && t.filter == FinishedFilters(create, lists)
  }

  // ----- Looking a key up -----

  /** Where Seek lands: the number of leading keys before the target. */
  function SeekIndex(index: seq<IndexEntry>, target: EncodedKey): (n: nat)
    ensures n <= |index| && (forall i :: 0 <= i < n ==> KeyPrecedes(index[i].key, target))
    ensures n < |index| ==> !KeyPrecedes(index[n].key, target)
  {
    if index == [] || !KeyPrecedes(index[0].key, target) then 0 else 1 + SeekIndex(index[1..], target)
  }

  function SeekBlock(block: seq<TableEntry>, target: EncodedKey): (n: nat)
    ensures n <= |block| && (forall i :: 0 <= i < n ==> KeyPrecedes(block[i].key, target))
    ensures n < |block| ==> !KeyPrecedes(block[n].key, target)
  {
    if block == [] || !KeyPrecedes(block[0].key, target) then 0 else 1 + SeekBlock(block[1..], target)
  }

  /** `e` is the first entry at or after `target`. */
  ghost predicate IsFirst(es: seq<TableEntry>, target: EncodedKey, e: TableEntry) {
    e in es && !KeyPrecedes(e.key, target)
    && forall f :: f in es && !KeyPrecedes(f.key, target) ==> f == e || KeyPrecedes(e.key, f.key)
  }

  /** InternalGet: what is handed on is the first entry at or after the target, and it is handed on whenever it has the
      target's user key: neither a shortened separator nor the filter hides it. */
  method InternalGet(t: Table, match_: Match, target: EncodedKey, ghost blocks: seq<seq<TableEntry>>, ghost offsets: seq<nat>,
                     ghost create: Create, ghost lists: seq<seq<Bytes>>) returns (r: Option<TableEntry>)
    requires IsTable(t, blocks, offsets, create, lists) && Sound(create, match_) && FiltersFit(create, lists)
    ensures r.Some? ==> IsFirst(Flat(blocks), target, r.value)
    ensures forall e :: IsFirst(Flat(blocks), target, e) && e.key.user == target.user ==> r == Some(e)
  {
    hide FinishedFilters, FiltersFit, Sound, Flat, SortedEntries, WellSeparated, KeyPrecedes;
    var i := SeekIndex(t.index, target);
    EarlierBlocksAreBefore(blocks, t.index, target, i);
    if i < |t.index| {
      var offset := t.index[i].offset;
      var block := t.file[offset];
      BlockDecides(blocks, t.index, target, i);
      if KeyMayMatch(match_, t.filter, offset, target.user) {
        var m := SeekBlock(block, target);
        if m < |block| {
          return Some(block[m]);
        }
      } else {
        NotInBlock(create, match_, lists, block, offset, target.user);
      }
    }
    return None;
  }

  /** What the filter denies is not in the block. */
  lemma NotInBlock(create: Create, match_: Match, lists: seq<seq<Bytes>>, block: seq<TableEntry>, offset: nat, user: Bytes)
    requires Sound(create, match_) && FiltersFit(create, lists) && InFilter(block, lists, offset)
    requires !KeyMayMatch(match_, FinishedFilters(create, lists), offset, user)
    ensures forall x :: 0 <= x < |block| ==> block[x].key.user != user
  {
    hide Sound, FiltersFit, FinishedFilters;
    forall x | 0 <= x < |block| ensures block[x].key.user != user {
      if block[x].key.user == user {
        KeyIsFound(create, match_, lists, offset, user);
      }
    }
  }

  lemma {:induction false} FlatMembers(blocks: seq<seq<TableEntry>>, e: TableEntry)
    ensures e in Flat(blocks) <==> exists i :: 0 <= i < |blocks| && e in blocks[i]
    decreases |blocks|
  {
    if blocks != [] {
      var n := |blocks| - 1;
      FlatMembers(blocks[..n], e);
      if e in Flat(blocks[..n]) {
        var i :| 0 <= i < n && e in blocks[..n][i];
        assert e in blocks[i];
      }
      if i :| 0 <= i < |blocks| && e in blocks[i] {
        if i < n {
          assert e in blocks[..n][i];
        }
      }
    }
  }

  /** In a sorted table a block's entries are sorted, and before those of later blocks. */
  lemma {:induction false} BlocksAreOrdered(blocks: seq<seq<TableEntry>>, i: nat, j: nat, x: nat, y: nat)
    requires SortedEntries(Flat(blocks)) && i <= j < |blocks| && x < |blocks[i]| && y < |blocks[j]|
    requires i == j ==> x < y
    ensures KeyPrecedes(blocks[i][x].key, blocks[j][y].key)
    decreases |blocks|
  {
    var n := |blocks| - 1;
    var front := Flat(blocks[..n]);
    assert Flat(blocks)[|front|..] == blocks[n] && Flat(blocks)[..|front|] == front;
    if j < n {
      assert SortedEntries(front) by {
        assert forall k :: 0 <= k < |front| ==> front[k] == Flat(blocks)[k];
      }
      BlocksAreOrdered(blocks[..n], i, j, x, y);
    } else {
      assert blocks[n][y] == Flat(blocks)[|front| + y];
      if i < n {
        assert blocks[i][x] in blocks[..n][i];
        FlatMembers(blocks[..n], blocks[i][x]);
        var k :| 0 <= k < |front| && front[k] == blocks[i][x];
        assert front[k] == Flat(blocks)[k];
      } else {
        assert blocks[n][x] == Flat(blocks)[|front| + x];
      }
    }
  }

  /** No entry of a block is after its last. */
  lemma UpToLast(blocks: seq<seq<TableEntry>>, i: nat, x: nat)
    requires SortedEntries(Flat(blocks)) && i < |blocks| && x < |blocks[i]|
    ensures blocks[i][x].key == LastKey(blocks[i]) || KeyPrecedes(blocks[i][x].key, LastKey(blocks[i]))
  {
    if x < |blocks[i]| - 1 {
      BlocksAreOrdered(blocks, i, i, x, |blocks[i]| - 1);
    }
  }

  lemma SeparatorIsLastOrAfter(blocks: seq<seq<TableEntry>>, index: seq<IndexEntry>, i: nat)
    requires WellSeparated(blocks, index, []) && i < |index|
    ensures blocks[i] != [] && (index[i].key == LastKey(blocks[i]) || KeyPrecedes(LastKey(blocks[i]), index[i].key))
  {
    assert SeparatedAt(blocks, index, [], i);
  }

  /** Blocks whose separator is before the target hold nothing at or after it. */
  lemma EarlierBlocksAreBefore(blocks: seq<seq<TableEntry>>, index: seq<IndexEntry>, target: EncodedKey, i: nat)
    requires SortedEntries(Flat(blocks)) && WellSeparated(blocks, index, []) && |index| == |blocks| && i <= |index|
    requires forall j :: 0 <= j < i ==> KeyPrecedes(index[j].key, target)
    ensures forall j, x :: 0 <= j < i && 0 <= x < |blocks[j]| ==> KeyPrecedes(blocks[j][x].key, target)
    ensures i == |index| ==> forall e :: e in Flat(blocks) ==> KeyPrecedes(e.key, target)
  {
    hide SortedEntries, WellSeparated, Flat;
    forall j, x | 0 <= j < i && 0 <= x < |blocks[j]| ensures KeyPrecedes(blocks[j][x].key, target) {
      UpToLast(blocks, j, x);
      SeparatorIsLastOrAfter(blocks, index, j);
      KeysAreOrdered(blocks[j][x].key, LastKey(blocks[j]), index[j].key);
      KeysAreOrdered(blocks[j][x].key, index[j].key, target);
    }
    if i == |index| {
      forall e | e in Flat(blocks) ensures KeyPrecedes(e.key, target) {
        FlatMembers(blocks, e);
        var j :| 0 <= j < |blocks| && e in blocks[j];
        var x :| 0 <= x < |blocks[j]| && blocks[j][x] == e;
      }
    }
  }

  /** The block whose separator is the first at or after the target holds the first entry at or after it, or else that
      entry has another user key. */
  lemma BlockDecides(blocks: seq<seq<TableEntry>>, index: seq<IndexEntry>, target: EncodedKey, i: nat)
    requires SortedEntries(Flat(blocks)) && WellSeparated(blocks, index, []) && |index| == |blocks| && i < |index|
    requires forall j, x :: 0 <= j < i && 0 <= x < |blocks[j]| ==> KeyPrecedes(blocks[j][x].key, target)
    requires !KeyPrecedes(index[i].key, target)
    ensures var m := SeekBlock(blocks[i], target);
      if m < |blocks[i]| then
        && IsFirst(Flat(blocks), target, blocks[i][m])
        && forall e :: IsFirst(Flat(blocks), target, e) ==> e == blocks[i][m]
      else
        forall e :: IsFirst(Flat(blocks), target, e) ==> e.key.user != target.user
  {
    hide SortedEntries, WellSeparated, Flat, KeyPrecedes;
    var m := SeekBlock(blocks[i], target);
    if m < |blocks[i]| {
      var e := blocks[i][m];
      assert e in blocks[i];
      FlatMembers(blocks, e);
      forall f | f in Flat(blocks) && !KeyPrecedes(f.key, target) ensures f == e || KeyPrecedes(e.key, f.key) {
        AtOrAfterBlock(blocks, target, i, f);
        var j, y :| i <= j < |blocks| && 0 <= y < |blocks[j]| && blocks[j][y] == f;
        if j > i || y > m {
          BlocksAreOrdered(blocks, i, j, m, y);
        }
      }
      forall f | IsFirst(Flat(blocks), target, f) ensures f == e {
        KeysAreOrdered(e.key, f.key, e.key);
      }
    } else {
      forall e | IsFirst(Flat(blocks), target, e) ensures e.key.user != target.user {
        AtOrAfterBlock(blocks, target, i, e);
        var j, y :| i <= j < |blocks| && 0 <= y < |blocks[j]| && blocks[j][y] == e;
        SeparatorHidesNoUser(blocks, index, target, i, j, y);
      }
    }
  }

  lemma AtOrAfterBlock(blocks: seq<seq<TableEntry>>, target: EncodedKey, i: nat, f: TableEntry)
    requires i < |blocks| && forall j, x :: 0 <= j < i && 0 <= x < |blocks[j]| ==> KeyPrecedes(blocks[j][x].key, target)
    requires f in Flat(blocks) && !KeyPrecedes(f.key, target)
    ensures exists j, y :: i <= j < |blocks| && 0 <= y < |blocks[j]| && blocks[j][y] == f
  {
    FlatMembers(blocks, f);
    var j :| 0 <= j < |blocks| && f in blocks[j];
    var y :| 0 <= y < |blocks[j]| && blocks[j][y] == f;
    assert i <= j;
  }

  /** A target past block `i` but not past its separator has no entry of its user key in a later block. */
  lemma SeparatorHidesNoUser(blocks: seq<seq<TableEntry>>, index: seq<IndexEntry>, target: EncodedKey, i: nat, j: nat, y: nat)
    requires SortedEntries(Flat(blocks)) && WellSeparated(blocks, index, []) && |index| == |blocks| && i < |index|
    requires SeekBlock(blocks[i], target) == |blocks[i]| && !KeyPrecedes(index[i].key, target)
    requires i <= j < |blocks| && y < |blocks[j]| && !KeyPrecedes(blocks[j][y].key, target)
    ensures blocks[j][y].key.user != target.user
  {
    hide SortedEntries, Flat;
    assert SeparatedAt(blocks, index, [], i);
    var last := LastKey(blocks[i]);
    assert KeyPrecedes(last, target);
    assert j > i;
    var next := blocks[i + 1];
    assert SeparatedAt(blocks, index, [], i + 1);
    var separator := index[i].key;
    if j == i + 1 && y == 0 {
    } else {
      BlocksAreOrdered(blocks, i + 1, j, 0, y);
    }
    RankKeepsOrder(separator.user, next[0].key.user);
    RankKeepsOrder(next[0].key.user, blocks[j][y].key.user);
    RankKeepsOrder(separator.user, target.user);
  }
}
