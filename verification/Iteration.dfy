/** Iterators over the whole database (NewInternalIterator and NewIterator in db/db_impl.cc,
    Version::AddIterators in db/version_set.cc). */
module Iteration {
  import opened DbFormat
  import opened Reads
  import opened Files
  import opened Versions
  import opened CompactionWork
  import opened Layering
  import opened MergeInput
  import opened Stores
  import opened StoreSafety
  import opened Cursors
  import opened Mergers
  import DbIterators

  lemma FileIsDistinct(d: Store, i: nat)
    requires Inv(d) && i < |d.version.files[0]|
    ensures DistinctKeys(d.MemTables() + Entries(d.version.files[0][..i]), ToSet(d.version.files[0][i].table))
  {
    hide ValidFiles, Disjoint;
    var v, files := d.version, d.version.files[0];
    SplitMemTables(ToSet(d.mem), d.Imm(), AllEntries(v), d.lastSequence);
    LevelInAll(v, 0);
    assert files[i] in files;
    TableInEntries(files, files[i]);
    forall x, y | x in d.MemTables() + Entries(files[..i]) && y in ToSet(files[i].table) && x.key.user == y.key.user
      ensures x.key.sequence != y.key.sequence
    {
      if x in Entries(files[..i]) {
        var f :| f in files[..i] && x in f.table;
        var j :| 0 <= j < i && files[j] == f;
        SortedMembersDiffer(files, j, i);
        FilesAreDistinct(v, 0, files[j], 0, files[i]);
        assert x in ToSet(files[j].table);
      }
    }
  }

  lemma LevelIsDistinct(d: Store, l: nat)
    requires Inv(d) && 1 <= l < NUM_LEVELS
    ensures DistinctKeys(d.MemTables() + EntriesBefore(d.version, l), Entries(d.version.files[l]))
  {
    hide ValidFiles, Disjoint;
    var v := d.version;
    SplitMemTables(ToSet(d.mem), d.Imm(), AllEntries(v), d.lastSequence);
    LevelInAll(v, l);
    forall x, y | x in d.MemTables() + EntriesBefore(v, l) && y in Entries(v.files[l]) && x.key.user == y.key.user
      ensures x.key.sequence != y.key.sequence
    {
      if x in EntriesBefore(v, l) {
        var m :| 0 <= m < l && x in Entries(v.files[m]);
        LevelsAbove(v, m, l);
      }
    }
  }

  lemma NextLevel(v: Version, l: nat)
    requires |v.files| == NUM_LEVELS && l < NUM_LEVELS
    ensures EntriesBefore(v, l + 1) == EntriesBefore(v, l) + Entries(v.files[l])
  {
  }

  lemma AllLevels(v: Version)
    requires |v.files| == NUM_LEVELS
    ensures EntriesBefore(v, NUM_LEVELS) == AllEntries(v)
  {
  }

  lemma MemTablesAreDistinct(d: Store)
    requires Inv(d)
    ensures DistinctKeys(ToSet(d.mem), d.Imm())
  {
  }

  lemma LevelFacts(d: Store, l: nat)
    requires Inv(d) && l < NUM_LEVELS
    ensures |d.version.files| == NUM_LEVELS && ValidFiles(d.version.files[l]) && (l > 0 ==> Disjoint(d.version.files[l]))
  {
  }

  /** NewInternalIterator: memtables, then each level-0 file, then each deeper level, merged. */
  method NewInternalIterator(d: Store) returns (iter: MergingIterator)
    requires Inv(d)
    ensures fresh(iter) && iter.Inv() && !iter.IsValid()
    ensures Sorted(iter.merged) && ToSet(iter.merged) == d.All()
  {
    hide Holds, DistinctKeys, Sorted, ToSet, Entries, EntriesBefore, AllEntries;
    StoreIsSorted(d);
    var children: seq<Cursor> := [Cursor(d.mem, None)];
    OneChild(d.mem);
    if d.imm.Some? {
      MemTablesAreDistinct(d);
      children := AddChild(children, ToSet(d.mem), d.imm.value);
    }
    children := AddIterators(d, children);
    iter := MergeOf(children, d.All());
  }

  lemma StoreIsSorted(d: Store)
    requires Inv(d)
    ensures Sorted(d.mem) && (d.imm.Some? ==> Sorted(d.imm.value))
    ensures d.imm.None? ==> ToSet(d.mem) == d.MemTables()
  {
  }

  /** Version::AddIterators. */
  method AddIterators(d: Store, children0: seq<Cursor>) returns (children: seq<Cursor>)
    requires Inv(d) && Holds(children0, d.MemTables())
    ensures Holds(children, d.All())
  {
    hide Holds, DistinctKeys, Sorted, Inv, Disjoint, ValidFile, ToSet, Entries, EntriesBefore, AllEntries;
    children := children0;
    LevelFacts(d, 0);
    NoEntries(d.version);
    var files := d.version.files[0];
    assert d.MemTables() + Entries(files[..0]) == d.MemTables();
    for i := 0 to |files|
      invariant Holds(children, d.MemTables() + Entries(files[..i]))
    {
      FileIsDistinct(d, i);
      PrefixEntries(files, i);
      TableIsSorted(files, i);
      children := AddChild(children, d.MemTables() + Entries(files[..i]), files[i].table);
      assert d.MemTables() + Entries(files[..i]) + ToSet(files[i].table) == d.MemTables() + Entries(files[..i + 1]);
    }
    assert files[..|files|] == files;
    NextLevel(d.version, 0);
    assert EntriesBefore(d.version, 1) == Entries(files);
    for l := 1 to NUM_LEVELS
      invariant Holds(children, d.MemTables() + EntriesBefore(d.version, l))
    {
      LevelFacts(d, l);
      LevelIsDistinct(d, l);
      NextLevel(d.version, l);
      ConcatIsSorted(d.version.files[l]);
      assert d.MemTables() + EntriesBefore(d.version, l) + Entries(d.version.files[l]) == d.MemTables() + EntriesBefore(d.version, l + 1);
      if d.version.files[l] != [] {
        children := AddChild(children, d.MemTables() + EntriesBefore(d.version, l), Concat(d.version.files[l]));
      } else {
        EmptyLevel(d.version.files[l]);
        assert EntriesBefore(d.version, l) + {} == EntriesBefore(d.version, l);
      }
    }
    AllLevels(d.version);
    assert d.MemTables() + AllEntries(d.version) == d.All();
  }

  lemma NoEntries(v: Version)
    requires |v.files| == NUM_LEVELS
    ensures Entries(v.files[0][..0]) == {} && EntriesBefore(v, 0) == {}
  {
  }

  /** NewIterator: the user's iterator over the internal one's entries, at the snapshot's sequence number or the last. */
  method NewIterator(d: Store, snapshot: Option<SequenceNumber>) returns (iter: DbIterators.DbIter)
    requires Inv(d)
    ensures fresh(iter) && fresh(iter.inner) && iter.Inv() && !iter.valid && ToSet(iter.data) == d.All() && Sorted(iter.data)
    ensures iter.sequence == if snapshot.Some? then snapshot.value else d.lastSequence
  {
    hide Sorted, ToSet, AllEntries, SourcesOrdered, TreeInv;
    var inner := NewInternalIterator(d);
    AllIsUnique(d);
    iter := new DbIterators.DbIter(inner, if snapshot.Some? then snapshot.value else d.lastSequence);
  }

  lemma AllIsUnique(d: Store)
    requires Inv(d)
    ensures SeqUnique(d.All())
  {
  }

  ghost predicate Shows(live: seq<Entry>, k: UserKey, v: Value) {
    exists i :: 0 <= i < |live| && live[i].key.user == k && live[i].value == v
  }

  /** What iterating at a snapshot shows: each key the history of all writes has a value for, once, in order, with
      that value; whatever was flushed, moved or compacted in between. */
  lemma IterationShowsHistory(d: Store, history: set<Entry>, s: SequenceNumber, data: seq<Entry>)
    requires Inv(d) && Coherent(d, history) && d.OldestSnapshot() <= s
    requires Sorted(data) && ToSet(data) == d.All()
    ensures var live := DbIterators.LiveEntries(data, ToSet(data), s);
      && DbIterators.OnePerKey(live)
      && forall k, v :: Shows(live, k, v) <==> Read(history, k, s) == Some(v)
  {
    hide Inv, Sorted, SeqUnique;
    var live := DbIterators.LiveEntries(data, ToSet(data), s);
    AllIsUnique(d);
    DbIterators.LiveInOrder(data, s);
    DbIterators.LiveMembers(data, ToSet(data), s);
    forall i | 0 <= i < |live| ensures Read(history, live[i].key.user, s) == Some(live[i].value) {
      assert live[i] in live;
      ReadIsNewest(ToSet(data), live[i].key.user, s, live[i]);
    }
    forall k, v | Read(history, k, s) == Some(v) ensures Shows(live, k, v) {
      assert DbIterators.Live(data, s, k);
      assert DbIterators.HasUser(live, k);
    }
  }
}
