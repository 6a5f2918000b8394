/** Table files and the per-level searches over them (db/version_set.cc). */
module Files {
  import opened DbFormat
  import opened Reads

  /** FileMetaData, together with the entries the table file holds. */
  datatype FileMeta = FileMeta(number: nat, fileSize: nat, smallest: InternalKey, largest: InternalKey,
                               table: seq<Entry>)

  /** A finished table: sorted, not empty, and described by its first and last key. */
  ghost predicate ValidFile(f: FileMeta) {
    && f.table != []
    && Sorted(f.table)
    && f.smallest == f.table[0].key
    && f.largest == f.table[|f.table| - 1].key
  }

  ghost predicate ValidFiles(fs: seq<FileMeta>) {
    forall f :: f in fs ==> ValidFile(f)
  }

  ghost predicate Precedes(fs: seq<FileMeta>, i: int, j: int) {
    0 <= i < |fs| && 0 <= j < |fs| && Less(fs[i].largest, fs[j].smallest)
  }

  /** Levels 1 and deeper: the files ascend and do not overlap. */
  ghost predicate Disjoint(fs: seq<FileMeta>) {
    forall i, j {:trigger Precedes(fs, i, j)} :: 0 <= i < j < |fs| ==> Precedes(fs, i, j)
  }

  /** BySmallestKey: the order of the files of a level. */
  predicate BySmallest(f: FileMeta, g: FileMeta) {
    || Less(f.smallest, g.smallest)
    || (!Less(g.smallest, f.smallest) && f.number < g.number)
  }

  ghost predicate Ascend(fs: seq<FileMeta>, i: int, j: int) {
    0 <= i < |fs| && 0 <= j < |fs| && BySmallest(fs[i], fs[j])
  }

  ghost predicate SortedBySmallest(fs: seq<FileMeta>) {
    forall i, j {:trigger Ascend(fs, i, j)} :: 0 <= i < j < |fs| ==> Ascend(fs, i, j)
  }

  ghost function Entries(fs: seq<FileMeta>): set<Entry> {
    set f, e | f in fs && e in f.table :: e
  }

  predicate Covers(f: FileMeta, k: UserKey) {
    f.smallest.user <= k <= f.largest.user
  }

  /** The user-key range [lo, hi], a missing bound being infinite, meets the file's range. */
  predicate Overlaps(f: FileMeta, lo: Option<UserKey>, hi: Option<UserKey>) {
    && !(lo.Some? && lo.value > f.largest.user)
    && !(hi.Some? && hi.value < f.smallest.user)
  }

  lemma FileBounds(f: FileMeta, e: Entry)
    requires ValidFile(f) && e in f.table
    ensures !Less(e.key, f.smallest) && !Less(f.largest, e.key) && Covers(f, e.key.user)
  {
    var i :| 0 <= i < |f.table| && f.table[i] == e;
    assert i == 0 || Less(f.table[0].key, f.table[i].key);
    assert i == |f.table| - 1 || Less(f.table[i].key, f.table[|f.table| - 1].key);
  }

  /** Table::InternalGet with the SaveValue callback: seek, then compare user keys. */
  method TableGet(f: FileMeta, k: UserKey, s: SequenceNumber) returns (r: Outcome)
    requires ValidFile(f)
    ensures Answers(ToSet(f.table), k, s, r)
  {
    var n := LowerBound(f.table, LookupKey(k, s));
    SeekFindsNewest(f.table, k, s);
    if n < |f.table| && f.table[n].key.user == k {
      r := OutcomeOf(f.table[n]);
    } else {
      r := Missing;
    }
  }

  /** Where a binary search by largest key ends, in files of any order: just behind a file that ends before the key. */
  ghost predicate IsFound(files: seq<FileMeta>, key: InternalKey, n: nat) {
    && n <= |files|
    && (n > 0 ==> Less(files[n - 1].largest, key))
    && (n < |files| ==> !Less(files[n].largest, key))
  }

  /** Binary search for the first file whose largest key is at or after `key`, in a level whose files do not overlap. */
  method FindFile(files: seq<FileMeta>, key: InternalKey) returns (right: nat)
    ensures IsFound(files, key, right)
    ensures ValidFiles(files) && Disjoint(files) ==>
              && (forall i :: 0 <= i < right ==> Less(files[i].largest, key))
              && forall i :: right <= i < |files| ==> !Less(files[i].largest, key)
  {
    var left := 0;
    right := |files|;
    while left < right
      invariant left <= right <= |files|
      invariant left > 0 ==> Less(files[left - 1].largest, key)
      invariant right < |files| ==> !Less(files[right].largest, key)
    {
      var mid := (left + right) / 2;
      if Less(files[mid].largest, key) {
        left := mid + 1;
      } else {
        right := mid;
      }
    }
    if ValidFiles(files) && Disjoint(files) {
      FoundSplits(files, key, right);
    }
  }

  lemma FoundSplits(files: seq<FileMeta>, key: InternalKey, n: nat)
    requires ValidFiles(files) && Disjoint(files) && IsFound(files, key, n)
    ensures forall i :: 0 <= i < n ==> Less(files[i].largest, key)
    ensures forall i :: n <= i < |files| ==> !Less(files[i].largest, key)
  {
    forall i | 0 <= i < n - 1 ensures Less(files[i].largest, key) {
      LargestAscends(files, i, n - 1);
    }
    forall i | n < i < |files| ensures !Less(files[i].largest, key) {
      LargestAscends(files, n, i);
    }
  }

  lemma DisjointPrefix(fs: seq<FileMeta>, n: nat)
    requires Disjoint(fs) && n <= |fs|
    ensures Disjoint(fs[..n])
  {
    forall i, j | 0 <= i < j < n ensures Precedes(fs[..n], i, j) {
      assert Precedes(fs, i, j);
    }
  }

  lemma LargestAscends(files: seq<FileMeta>, i: nat, j: nat)
    requires ValidFiles(files) && Disjoint(files) && i < j < |files|
    ensures Less(files[i].largest, files[j].largest)
    ensures Less(files[i].smallest, files[j].smallest)
  {
    assert Precedes(files, i, j);
    FileEndsInOrder(files[i]);
    FileEndsInOrder(files[j]);
  }

  lemma FileEndsInOrder(f: FileMeta)
    requires ValidFile(f)
    ensures !Less(f.largest, f.smallest)
  {
    FileBounds(f, f.table[0]);
  }

  /** True exactly when some file of the level meets the range, by scan or by binary search. */
  method SomeFileOverlapsRange(disjointSortedFiles: bool, files: seq<FileMeta>, smallest: Option<UserKey>,
                               largest: Option<UserKey>) returns (overlap: bool)
    requires ValidFiles(files)
    requires disjointSortedFiles ==> Disjoint(files)
    ensures overlap <==> exists f :: f in files && Overlaps(f, smallest, largest)
  {
    if !disjointSortedFiles {
      for i := 0 to |files|
        invariant forall f :: f in files[..i] ==> !Overlaps(f, smallest, largest)
      {
        if Overlaps(files[i], smallest, largest) {
          return true;
        }
      }
      assert files[..|files|] == files;
      return false;
    }
    var index := 0;
    if smallest.Some? {
      index := FindFile(files, InternalKey(smallest.value, MAX_SEQUENCE, Put));
    }
    if index >= |files| {
      return false;
    }
    overlap := !(largest.Some? && largest.value < files[index].smallest.user);
    if overlap {
      assert files[index] in files && Overlaps(files[index], smallest, largest);
    } else {
      forall f | f in files ensures !Overlaps(f, smallest, largest) {
        var i :| 0 <= i < |files| && files[i] == f;
        assert i > index ==> Precedes(files, index, i);
        FileEndsInOrder(files[index]);
      }
    }
  }
}
