/** The children of merging iterators over tables, and the input of a compaction: all entries of its input files in
    internal-key order (MakeInputIterator, db/version_set.cc). */
module MergeInput {
  import opened DbFormat
  import opened Reads
  import opened Files
  import opened Versions
  import opened InputSelection
  import opened Compactions
  import opened Layering
  import opened CompactionWork
  import opened Cursors
  import opened Mergers
  import TwoLevel

  /** No user key has the same sequence number in both. */
  ghost predicate DistinctKeys(a: set<Entry>, b: set<Entry>) {
    forall x, y :: x in a && y in b && x.key.user == y.key.user ==> x.key.sequence != y.key.sequence
  }

  lemma TotalOnDistinct(x: Entry, y: Entry)
    requires x.key.user == y.key.user ==> x.key.sequence != y.key.sequence
    ensures Less(x.key, y.key) || Less(y.key, x.key)
  {
  }

  lemma JoinSorted(a: seq<Entry>, b: seq<Entry>)
    requires Sorted(a) && Sorted(b)
    requires forall x, y :: x in a && y in b ==> Less(x.key, y.key)
    ensures Sorted(a + b) && ToSet(a + b) == ToSet(a) + ToSet(b)
  {
  }

  lemma WithoutLast(a: seq<Entry>, b: seq<Entry>)
    requires b != [] && Sorted(b) && DistinctKeys(ToSet(a), ToSet(b))
    ensures Sorted(b[..|b| - 1]) && DistinctKeys(ToSet(a), ToSet(b[..|b| - 1])) && DistinctKeys(ToSet(b), ToSet(a))
    ensures a != [] ==> Less(a[|a| - 1].key, b[|b| - 1].key) || Less(b[|b| - 1].key, a[|a| - 1].key)
  {
    if a != [] {
      assert a[|a| - 1] in ToSet(a) && b[|b| - 1] in ToSet(b);
      TotalOnDistinct(a[|a| - 1], b[|b| - 1]);
    }
  }

  lemma LastJoins(a: seq<Entry>, b: seq<Entry>, r: seq<Entry>)
    requires Sorted(a) && Sorted(b) && a != [] && b != [] && Less(a[|a| - 1].key, b[|b| - 1].key)
    requires Sorted(r) && ToSet(r) == ToSet(a) + ToSet(b[..|b| - 1])
    ensures Sorted(r + [b[|b| - 1]]) && ToSet(r + [b[|b| - 1]]) == ToSet(a) + ToSet(b)
  {
    var n, last := |b| - 1, b[|b| - 1];
    assert b == b[..n] + [last];
    forall x | x in r ensures Less(x.key, last.key) {
      assert x in ToSet(r);
      if x in ToSet(a) {
        var i :| 0 <= i < |a| && a[i] == x;
        assert i < |a| - 1 ==> Less(a[i].key, a[|a| - 1].key);
      } else {
        var i :| 0 <= i < n && b[..n][i] == x;
      }
    }
    JoinSorted(r, [last]);
  }

  /** Sorted data with distinct keys has a sorted union. */
  lemma {:induction false} SortedUnion(a: seq<Entry>, b: seq<Entry>) returns (r: seq<Entry>)
    requires Sorted(a) && Sorted(b) && DistinctKeys(ToSet(a), ToSet(b))
    ensures Sorted(r) && ToSet(r) == ToSet(a) + ToSet(b)
    decreases |a| + |b|
  {
    hide DistinctKeys, Sorted;
    if b == [] {
      return a;
    }
    WithoutLast(a, b);
    if a == [] {
      return b;
    }
    WithoutLast(b, a);
    if Less(a[|a| - 1].key, b[|b| - 1].key) {
      r := SortedUnion(a, b[..|b| - 1]);
      LastJoins(a, b, r);
      r := r + [b[|b| - 1]];
    } else {
      r := SortedUnion(b, a[..|a| - 1]);
      LastJoins(b, a, r);
      r := r + [a[|a| - 1]];
    }
  }

  lemma OneChild(data: seq<Entry>)
    requires Sorted(data)
    ensures Holds([Cursor(data, None)], ToSet(data))
  {
    assert Cursor(data, None).Ok();
    forall e | e in data ensures HeldByOne([Cursor(data, None)], e) {
      assert HeldOnlyBy([Cursor(data, None)], e, 0);
    }
    assert Partition([Cursor(data, None)], data);
  }

  /** The children hold these entries, each in one child. */
  ghost predicate Holds(children: seq<Cursor>, es: set<Entry>) {
    exists merged :: Partition(children, merged) && ToSet(merged) == es
  }

  lemma TheyHold(children: seq<Cursor>, merged: seq<Entry>)
    requires Partition(children, merged)
    ensures Holds(children, ToSet(merged)) && Sorted(merged)
  {
  }

  /** A merging iterator over such children. */
  method MergeOf(children: seq<Cursor>, ghost es: set<Entry>) returns (iter: MergingIterator)
    requires Holds(children, es)
    ensures fresh(iter) && iter.Inv() && !iter.IsValid() && iter.children == children
    ensures Sorted(iter.merged) && ToSet(iter.merged) == es
  {
    ghost var merged :| Partition(children, merged) && ToSet(merged) == es;
    TheyHold(children, merged);
    iter := new MergingIterator(children, merged);
  }

  /** An iterator over one more source joins the children. */
  lemma ChildJoins(children: seq<Cursor>, merged: seq<Entry>, data: seq<Entry>, bigger: seq<Entry>)
    requires Partition(children, merged) && Sorted(data) && DistinctKeys(ToSet(merged), ToSet(data))
    requires Sorted(bigger) && ToSet(bigger) == ToSet(merged) + ToSet(data)
    ensures Partition(children + [Cursor(data, None)], bigger)
  {
    hide Sorted;
    var more := children + [Cursor(data, None)];
    var n := |children|;
    forall i, x | 0 <= i < |more| && 0 <= x < |more[i].data| ensures more[i].data[x] in bigger {
      assert more[i].data[x] in ToSet(bigger);
    }
    forall e | e in bigger ensures HeldByOne(more, e) {
      assert e in ToSet(bigger);
      if e in ToSet(merged) {
        var i :| HeldOnlyBy(children, e, i);
        assert HeldOnlyBy(more, e, i);
      } else {
        assert forall i, x :: 0 <= i < n && 0 <= x < |children[i].data| ==> children[i].data[x] in ToSet(merged);
        assert HeldOnlyBy(more, e, n);
      }
    }
  }

  method AddChild(children: seq<Cursor>, ghost es: set<Entry>, data: seq<Entry>) returns (more: seq<Cursor>)
    requires Holds(children, es) && Sorted(data) && DistinctKeys(es, ToSet(data))
    ensures more == children + [Cursor(data, None)] && Holds(more, es + ToSet(data))
  {
    ghost var merged :| Partition(children, merged) && ToSet(merged) == es;
    TheyHold(children, merged);
    ghost var bigger := SortedUnion(merged, data);
    more := children + [Cursor(data, None)];
    ChildJoins(children, merged, data, bigger);
    TheyHold(more, bigger);
  }

  lemma {:induction false} ConcatIsSorted(files: seq<FileMeta>)
    requires ValidFiles(files) && Disjoint(files)
    ensures Sorted(Concat(files)) && ToSet(Concat(files)) == Entries(files)
  {
    if files == [] {
      assert Entries(files) == {};
    } else {
      var n := |files| - 1;
      var front, last := files[..n], files[n];
      assert files == front + [last];
      PrefixEntries(files, n);
      assert files[..n + 1] == files;
      DisjointPrefix(files, n);
      ConcatIsSorted(front);
      forall x, y | x in Concat(front) && y in last.table ensures Less(x.key, y.key) {
        assert x in ToSet(Concat(front));
        var f :| f in front && x in f.table;
        var i :| 0 <= i < n && files[i] == f;
        assert Precedes(files, i, n);
        FileBounds(f, x);
        FileBounds(last, y);
      }
      TableIsSorted(files, n);
      JoinSorted(Concat(front), last.table);
    }
  }

  function TablesOf(files: seq<FileMeta>): seq<seq<Entry>> {
    seq(|files|, i requires 0 <= i < |files| => files[i].table)
  }

  /** LevelFileNumIterator: each file by its largest key. */
  function LargestKeys(files: seq<FileMeta>): seq<Entry> {
    seq(|files|, i requires 0 <= i < |files| => Entry(files[i].largest, ""))
  }

  /** A two-level iterator over the files of a sorted level is a cursor over their entries, one file after the other. */
  lemma {:induction false} LevelIsTwoLevel(files: seq<FileMeta>)
    requires ValidFiles(files) && Disjoint(files)
    ensures TwoLevel.Indexes(LargestKeys(files), TablesOf(files))
    ensures TwoLevel.Flatten(TablesOf(files)) == Concat(files)
  {
    ConcatFlattens(files);
    var index: seq<Entry>, tables: seq<seq<Entry>> := LargestKeys(files), TablesOf(files);
    forall i, j | 0 <= i < j < |index| ensures Less(index[i].key, index[j].key) {
      LargestAscends(files, i, j);
    }
    forall i: nat, x: nat | i < |tables| && x < |tables[i]| ensures !Less(index[i].key, tables[i][x].key) {
      assert files[i] in files;
      FileBounds(files[i], tables[i][x]);
    }
    forall i: nat, j: nat, x: nat | i < j < |tables| && x < |tables[j]| ensures Less(index[i].key, tables[j][x].key) {
      assert files[j] in files && Precedes(files, i, j);
      FileBounds(files[j], tables[j][x]);
    }
  }

  lemma {:induction false} ConcatFlattens(files: seq<FileMeta>)
    ensures TwoLevel.Flatten(TablesOf(files)) == Concat(files)
  {
    if files != [] {
      ConcatFlattens(files[..|files| - 1]);
      assert TablesOf(files)[..|files| - 1] == TablesOf(files[..|files| - 1]);
    }
  }

  lemma TableIsSorted(files: seq<FileMeta>, i: nat)
    requires ValidFiles(files) && i < |files|
    ensures Sorted(files[i].table)
  {
    assert files[i] in files;
  }

  ghost predicate PairwiseDistinct(files: seq<FileMeta>) {
    forall i, j {:trigger DistinctAt(files, i, j)} :: 0 <= i < j < |files| ==> DistinctAt(files, i, j)
  }

  ghost predicate DistinctAt(files: seq<FileMeta>, i: int, j: int) {
    0 <= i < |files| && 0 <= j < |files| && DistinctKeys(ToSet(files[i].table), ToSet(files[j].table))
  }

  lemma PrefixEntries(files: seq<FileMeta>, i: nat)
    requires i < |files|
    ensures Entries(files[..i + 1]) == Entries(files[..i]) + ToSet(files[i].table)
  {
    assert files[..i + 1] == files[..i] + [files[i]];
  }

  lemma PrefixDistinct(files: seq<FileMeta>, i: nat)
    requires PairwiseDistinct(files) && i < |files|
    ensures DistinctKeys(Entries(files[..i]), ToSet(files[i].table))
  {
    forall x, y | x in Entries(files[..i]) && y in ToSet(files[i].table) && x.key.user == y.key.user
      ensures x.key.sequence != y.key.sequence
    {
      var f :| f in files[..i] && x in f.table;
      var j :| 0 <= j < i && files[j] == f;
      assert DistinctAt(files, j, i);
      assert x in ToSet(files[j].table);
    }
  }

  /** Two files of a layered version never hold the same sequence number of a user key. */
  lemma FilesAreDistinct(v: Version, l: nat, f: FileMeta, m: nat, g: FileMeta)
    requires WellFormed(v) && Layered(v) && SeqUnique(AllEntries(v))
    requires l <= m < NUM_LEVELS && f in v.files[l] && g in v.files[m]
    requires l == m ==> f != g
    ensures DistinctKeys(ToSet(f.table), ToSet(g.table))
  {
    hide SortedBySmallest, ValidFile;
    if l < m {
      TableInEntries(v.files[l], f);
      TableInEntries(v.files[m], g);
      LevelsAbove(v, l, m);
      AboveSubsets(Entries(v.files[l]), Entries(v.files[m]), ToSet(f.table), ToSet(g.table));
    } else if l == 0 {
      assert f.number != g.number;
    } else {
      LevelInAll(v, l);
      NeighboursAreDistinct(v.files[l], f, g, AllEntries(v));
    }
  }

  lemma NeighboursAreDistinct(files: seq<FileMeta>, f: FileMeta, g: FileMeta, all: set<Entry>)
    requires ValidFiles(files) && Disjoint(files) && SeqUnique(all) && Entries(files) <= all
    requires f in files && g in files && f != g
    ensures DistinctKeys(ToSet(f.table), ToSet(g.table))
  {
    var i :| 0 <= i < |files| && files[i] == f;
    var j :| 0 <= j < |files| && files[j] == g;
    if i < j {
      EarlierFileIsNewer(files, i, j, all);
    } else {
      EarlierFileIsNewer(files, j, i, all);
    }
  }

  /** Filtering by range keeps a level sorted, so no file is picked twice. */
  lemma {:induction false} OverlappingSorted(files: seq<FileMeta>, lo: Option<UserKey>, hi: Option<UserKey>)
    requires SortedBySmallest(files)
    ensures SortedBySmallest(Overlapping(files, lo, hi))
    decreases files
  {
    if files != [] {
      var n := |files| - 1;
      PrefixSorted(files, n);
      OverlappingSorted(files[..n], lo, hi);
      OverlappingMembers(files[..n], lo, hi);
      var front := Overlapping(files[..n], lo, hi);
      assert front + [] == front;
      forall i, j | 0 <= i < j < |front + [files[n]]| ensures Ascend(front + [files[n]], i, j) {
        if j < |front| {
          assert Ascend(front, i, j);
        } else {
          assert front[i] in files[..n];
          var k :| 0 <= k < n && files[..n][k] == front[i];
          assert Ascend(files, k, n);
        }
      }
    }
  }

  lemma PrefixSorted(files: seq<FileMeta>, n: nat)
    requires SortedBySmallest(files) && n <= |files|
    ensures SortedBySmallest(files[..n])
  {
    forall i, j | 0 <= i < j < n ensures Ascend(files[..n], i, j) {
      assert Ascend(files, i, j);
    }
  }

  lemma PickedSorted(files: seq<FileMeta>, level: nat, inputs: seq<FileMeta>)
    requires SortedBySmallest(files) && CleanlyPicked(files, level, inputs)
    ensures SortedBySmallest(inputs)
  {
    if level == 0 {
      var lo, hi :| SelfContained(files, inputs, lo, hi);
      OverlappingSorted(files, lo, hi);
    } else {
      var a: nat, b: nat :| IsRun(files, inputs, a, b) && !Straddles(files, b);
      forall i, j | 0 <= i < j < |inputs| ensures Ascend(inputs, i, j) {
        assert Ascend(files, a + i, a + j);
      }
    }
  }

  lemma InputsSorted(v: Version, level: nat, inputs0: seq<FileMeta>, inputs1: seq<FileMeta>)
    requires Selected(v, level, inputs0, inputs1)
    ensures SortedBySmallest(inputs0) && SortedBySmallest(inputs1)
    ensures ValidFiles(inputs0 + inputs1)
  {
    SelectedMembers(v, level, inputs0, inputs1);
    PickedSorted(v.files[level], level, inputs0);
    OverlappingSorted(v.files[level + 1], Some(LowUser(inputs0)), Some(HighUser(inputs0)));
  }

  lemma SortedMembersDiffer(files: seq<FileMeta>, i: nat, j: nat)
    requires SortedBySmallest(files) && i < j < |files|
    ensures files[i] != files[j]
  {
    assert Ascend(files, i, j);
  }

  lemma InputsAreDistinct(v: Version, level: nat, inputs0: seq<FileMeta>, inputs1: seq<FileMeta>)
    requires Selected(v, level, inputs0, inputs1) && Layered(v) && SeqUnique(AllEntries(v))
    ensures ValidFiles(inputs0 + inputs1) && PairwiseDistinct(inputs0 + inputs1)
  {
    hide CleanlyPicked, ParentsOf, WellFormed, Layered, DistinctKeys, SeqUnique, AllEntries, ValidFiles, SortedBySmallest;
    SelectedMembers(v, level, inputs0, inputs1);
    InputsSorted(v, level, inputs0, inputs1);
    var all := inputs0 + inputs1;
    forall i, j | 0 <= i < j < |all| ensures DistinctAt(all, i, j) {
      var n := |inputs0|;
      if j < n {
        SortedMembersDiffer(inputs0, i, j);
        assert inputs0[i] in inputs0 && inputs0[j] in inputs0;
        FilesAreDistinct(v, level, inputs0[i], level, inputs0[j]);
      } else if i < n {
        assert inputs0[i] in inputs0 && inputs1[j - n] in inputs1;
        FilesAreDistinct(v, level, inputs0[i], level + 1, inputs1[j - n]);
      } else {
        SortedMembersDiffer(inputs1, i - n, j - n);
        assert inputs1[i - n] in inputs1 && inputs1[j - n] in inputs1;
        FilesAreDistinct(v, level + 1, inputs1[i - n], level + 1, inputs1[j - n]);
      }
    }
  }

  /** Each level's inputs hold other keys than the other level's. */
  lemma LevelsAreDistinct(inputs0: seq<FileMeta>, inputs1: seq<FileMeta>)
    requires PairwiseDistinct(inputs0 + inputs1)
    ensures DistinctKeys(Entries(inputs0), Entries(inputs1)) && PairwiseDistinct(inputs0)
  {
    var all, n := inputs0 + inputs1, |inputs0|;
    forall i, j | 0 <= i < j < n ensures DistinctAt(inputs0, i, j) {
      assert DistinctAt(all, i, j);
    }
    forall x, y | x in Entries(inputs0) && y in Entries(inputs1) && x.key.user == y.key.user
      ensures x.key.sequence != y.key.sequence
    {
      var f :| f in inputs0 && x in f.table;
      var g :| g in inputs1 && y in g.table;
      var i :| 0 <= i < n && inputs0[i] == f;
      var j :| 0 <= j < |inputs1| && inputs1[j] == g;
      assert DistinctAt(all, i, n + j) && x in ToSet(f.table) && y in ToSet(g.table);
    }
  }

  /** Below level 0 the inputs of either level are neighbours, and do not overlap. */
  lemma InputsAreDisjoint(v: Version, level: nat, inputs0: seq<FileMeta>, inputs1: seq<FileMeta>)
    requires Selected(v, level, inputs0, inputs1)
    ensures level > 0 ==> Disjoint(inputs0)
    ensures Disjoint(inputs1)
  {
    var i, j := OverlappingIsSlice(v.files[level + 1], Some(LowUser(inputs0)), Some(HighUser(inputs0)));
    SliceIsDisjoint(v.files[level + 1], i, j);
    if level > 0 {
      var a: nat, b: nat :| IsRun(v.files[level], inputs0, a, b) && !Straddles(v.files[level], b);
      SliceIsDisjoint(v.files[level], a, b);
    }
  }

  lemma SliceIsDisjoint(files: seq<FileMeta>, i: nat, j: nat)
    requires Disjoint(files) && i <= j <= |files|
    ensures Disjoint(files[i..j])
  {
    forall a, b | 0 <= a < b < j - i ensures Precedes(files[i..j], a, b) {
      assert Precedes(files, i + a, i + b);
    }
  }

  /** One child for each file (level 0). */
  method FileIterators(files: seq<FileMeta>) returns (children: seq<Cursor>)
    requires ValidFiles(files) && PairwiseDistinct(files)
    ensures Holds(children, Entries(files))
  {
    hide Holds, DistinctKeys, PairwiseDistinct, Sorted, ToSet, Entries, ValidFiles;
    children := [];
    NoChildren();
    EmptyLevel(files[..0]);
    for i := 0 to |files|
      invariant Holds(children, Entries(files[..i]))
    {
      PrefixDistinct(files, i);
      PrefixEntries(files, i);
      TableIsSorted(files, i);
      children := AddChild(children, Entries(files[..i]), files[i].table);
    }
    assert files[..|files|] == files;
  }

  lemma NoChildren()
    ensures Holds([], {})
  {
    assert Partition([], []) && ToSet([]) == {};
  }

  /** MakeInputIterator: a child for each level-0 input, and one concatenating iterator for the inputs of any other level. */
  method MakeInputIterator(v: Version, level: nat, inputs0: seq<FileMeta>, inputs1: seq<FileMeta>)
    returns (iter: MergingIterator)
    requires Selected(v, level, inputs0, inputs1) && Layered(v) && SeqUnique(AllEntries(v))
    ensures fresh(iter) && iter.Inv() && !iter.IsValid()
    ensures Sorted(iter.merged) && ToSet(iter.merged) == Entries(inputs0) + Entries(inputs1)
    ensures SeqUnique(ToSet(iter.merged))
  {
    hide CleanlyPicked, ParentsOf, WellFormed, Layered, AllEntries, ValidFiles, Sorted, Entries, PairwiseDistinct, Holds,
         Disjoint, ToSet, DistinctKeys;
    InputsAreDistinct(v, level, inputs0, inputs1);
    InputsAreDisjoint(v, level, inputs0, inputs1);
    LevelsAreDistinct(inputs0, inputs1);
    InputsAreValid(inputs0, inputs1);
    var children;
    if level == 0 {
      children := FileIterators(inputs0);
    } else {
      ConcatIsSorted(inputs0);
      OneChild(Concat(inputs0));
      children := [Cursor(Concat(inputs0), None)];
    }
    if inputs1 != [] {
      ConcatIsSorted(inputs1);
      children := AddChild(children, Entries(inputs0), Concat(inputs1));
    } else {
      EmptyLevel(inputs1);
      assert Entries(inputs0) + Entries(inputs1) == Entries(inputs0);
    }
    iter := MergeOf(children, Entries(inputs0) + Entries(inputs1));
    InputEntriesInAll(v, level, inputs0, inputs1);
  }

  lemma InputsAreValid(inputs0: seq<FileMeta>, inputs1: seq<FileMeta>)
    requires ValidFiles(inputs0 + inputs1)
    ensures ValidFiles(inputs0) && ValidFiles(inputs1)
  {
    assert forall f :: f in inputs0 || f in inputs1 ==> f in inputs0 + inputs1;
  }

  lemma EmptyLevel(files: seq<FileMeta>)
    requires files == []
    ensures Entries(files) == {}
  {
  }

  lemma InputEntriesInAll(v: Version, level: nat, inputs0: seq<FileMeta>, inputs1: seq<FileMeta>)
    requires Selected(v, level, inputs0, inputs1)
    ensures Entries(inputs0) + Entries(inputs1) <= AllEntries(v)
  {
    LayersAll({}, v, level, inputs0, inputs1);
  }
}
