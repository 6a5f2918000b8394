/** A version of the file tree and the reads and range queries over it (db/version_set.cc). */
module Versions {
  import opened DbFormat
  import opened Reads
  import opened Files

  datatype Version = Version(files: seq<seq<FileMeta>>)

  /** All entries held in levels `from` and deeper. */
  ghost function EntriesFrom(v: Version, from: nat): set<Entry> {
    set l, e | from <= l < |v.files| && e in Entries(v.files[l]) :: e
  }

  ghost function AllEntries(v: Version): set<Entry> {
    EntriesFrom(v, 0)
  }

  ghost function EntriesBefore(v: Version, to: nat): set<Entry>
  {
    set l, e | 0 <= l < to && l < |v.files| && e in Entries(v.files[l]) :: e
  }

  /** Level-0 files may overlap; then the larger file number has the newer entries. */
  ghost predicate NewerByNumber(files: seq<FileMeta>) {
    forall f, g :: f in files && g in files && f.number > g.number ==> Above(ToSet(f.table), ToSet(g.table))
  }

  ghost predicate DistinctNumbers(files: seq<FileMeta>) {
    forall f, g :: f in files && g in files && f.number == g.number ==> f == g
  }

  ghost predicate WellFormed(v: Version) {
    && |v.files| == NUM_LEVELS
    && (forall l :: 0 <= l < NUM_LEVELS ==> ValidFiles(v.files[l]))
    && (forall l :: 1 <= l < NUM_LEVELS ==> Disjoint(v.files[l]))
    && (forall l :: 0 <= l < NUM_LEVELS ==> SortedBySmallest(v.files[l]))
  }

  /** The layering on which stopping at the first hit rests. */
  ghost predicate Layered(v: Version)
    requires |v.files| == NUM_LEVELS
  {
    && DistinctNumbers(v.files[0])
    && NewerByNumber(v.files[0])
    && forall l, m :: 0 <= l < m < NUM_LEVELS ==> Above(Entries(v.files[l]), Entries(v.files[m]))
  }

  /** std::sort with NewestFirst, by insertion. */
  function InsertNewestFirst(f: FileMeta, fs: seq<FileMeta>): (r: seq<FileMeta>)
    ensures forall g :: g in r <==> g == f || g in fs
    ensures |r| == |fs| + 1
  {
    if fs == [] || f.number > fs[0].number then [f] + fs
    else
      var r := [fs[0]] + InsertNewestFirst(f, fs[1..]);
      assert forall g :: g in fs <==> g == fs[0] || g in fs[1..];
      r
  }

  ghost predicate NewestFirst(fs: seq<FileMeta>) {
    forall i, j :: 0 <= i < j < |fs| ==> fs[i].number >= fs[j].number
  }

  lemma {:induction false} InsertKeepsOrder(f: FileMeta, fs: seq<FileMeta>)
    requires NewestFirst(fs)
    ensures NewestFirst(InsertNewestFirst(f, fs))
  {
    if fs == [] || f.number > fs[0].number {
    } else {
      var tail := InsertNewestFirst(f, fs[1..]);
      InsertKeepsOrder(f, fs[1..]);
      forall j | 0 <= j < |tail| ensures fs[0].number >= tail[j].number {
        assert tail[j] in tail;
      }
    }
  }

  /** The level-0 files that cover the key, newest first. */
  method OverlappingNewestFirst(files: seq<FileMeta>, k: UserKey) returns (tmp: seq<FileMeta>)
    ensures NewestFirst(tmp)
    ensures forall f :: f in tmp <==> f in files && Covers(f, k)
    ensures |tmp| <= |files|
  {
    tmp := [];
    for i := 0 to |files|
      invariant NewestFirst(tmp)
      invariant forall f :: f in tmp <==> f in files[..i] && Covers(f, k)
      invariant |tmp| <= i
    {
      if files[i].smallest.user <= k && k <= files[i].largest.user {
        InsertKeepsOrder(files[i], tmp);
        tmp := InsertNewestFirst(files[i], tmp);
      }
      assert files[..i + 1] == files[..i] + [files[i]];
    }
    assert files[..|files|] == files;
  }

  /** Level 0: every covering file, newest first, until one answers. */
  method GetLevelZero(files: seq<FileMeta>, k: UserKey, s: SequenceNumber) returns (r: Outcome)
    requires ValidFiles(files) && NewerByNumber(files) && DistinctNumbers(files)
    ensures Answers(Entries(files), k, s, r)
  {
    var tmp := OverlappingNewestFirst(files, k);
    for i := 0 to |tmp|
      invariant forall j :: 0 <= j < i ==> NoneVisible(ToSet(tmp[j].table), k, s)
    {
      r := TableGet(tmp[i], k, s);
      if !r.Missing? {
        LevelZeroHit(files, tmp, i, k, s, r);
        return;
      }
    }
    r := Missing;
    forall e | e in Entries(files) ensures !Visible(e, k, s) {
      var f :| f in files && e in f.table;
      if Covers(f, k) {
        assert f in tmp && e in ToSet(f.table);
      } else {
        FileBounds(f, e);
      }
    }
  }

  lemma LevelZeroHit(files: seq<FileMeta>, tmp: seq<FileMeta>, i: nat, k: UserKey, s: SequenceNumber, r: Outcome)
    requires ValidFiles(files) && NewerByNumber(files) && DistinctNumbers(files)
    requires NewestFirst(tmp) && i < |tmp|
    requires forall f :: f in tmp <==> f in files && Covers(f, k)
    requires forall j :: 0 <= j < i ==> NoneVisible(ToSet(tmp[j].table), k, s)
    requires !r.Missing? && Answers(ToSet(tmp[i].table), k, s, r)
    ensures Answers(Entries(files), k, s, r)
  {
    var g := tmp[i];
    assert g in tmp;
    var e :| Newest(ToSet(g.table), k, s, e) && OutcomeOf(e) == r;
    forall f, x | f in files && x in f.table && Visible(x, k, s) ensures x.key.sequence <= e.key.sequence {
      assert x in ToSet(f.table) && Covers(f, k) by { FileBounds(f, x); }
      var j :| 0 <= j < |tmp| && tmp[j] == f;
      assert j >= i;
      if j > i {
        OlderFileIsBelow(files, g, f);
      }
    }
    assert Newest(Entries(files), k, s, e);
  }

  lemma OlderFileIsBelow(files: seq<FileMeta>, newer: FileMeta, older: FileMeta)
    requires NewerByNumber(files) && DistinctNumbers(files)
    requires newer in files && older in files && newer.number >= older.number
    ensures newer == older || Above(ToSet(newer.table), ToSet(older.table))
  {
  }

  /** The outcome of looking into the one file a binary search ends at. */
  ghost predicate SearchesOne(files: seq<FileMeta>, k: UserKey, s: SequenceNumber, r: Outcome) {
    exists n: nat :: IsFound(files, LookupKey(k, s), n) && FileAnswers(files, n, k, s, r)
  }

  ghost predicate FileAnswers(files: seq<FileMeta>, n: nat, k: UserKey, s: SequenceNumber, r: Outcome) {
    if n >= |files| || k < files[n].smallest.user then r == Missing else Answers(ToSet(files[n].table), k, s, r)
  }

  /** Levels 1 and deeper: one binary search, one file, even if the user key spans several files.  It answers for the level if
      the files do not overlap. */
  method GetSortedLevel(files: seq<FileMeta>, k: UserKey, s: SequenceNumber) returns (r: Outcome)
    requires ValidFiles(files)
    ensures SearchesOne(files, k, s, r)
    ensures Disjoint(files) ==> Answers(Entries(files), k, s, r)
  {
    var index := FindFile(files, LookupKey(k, s));
    if index >= |files| || k < files[index].smallest.user {
      r := Missing;
    } else {
      r := TableGet(files[index], k, s);
    }
    assert FileAnswers(files, index, k, s, r);
    if Disjoint(files) {
      OneFileDecides(files, index, k, s);
      if index < |files| && !r.Missing? {
        assert files[index] in files;
        ghost var e :| Newest(ToSet(files[index].table), k, s, e) && OutcomeOf(e) == r;
        assert Newest(Entries(files), k, s, e);
      }
    }
  }

  /** No visible entry lies before the file FindFile returns, and none behind it is newer than it holds. */
  lemma OneFileDecides(files: seq<FileMeta>, index: nat, k: UserKey, s: SequenceNumber)
    requires ValidFiles(files) && Disjoint(files)
    requires index <= |files|
    requires forall i :: 0 <= i < index ==> Less(files[i].largest, LookupKey(k, s))
    requires forall i :: index <= i < |files| ==> !Less(files[i].largest, LookupKey(k, s))
    ensures index == |files| ==> NoneVisible(Entries(files), k, s)
    ensures index < |files| && k < files[index].smallest.user ==> NoneVisible(Entries(files), k, s)
    ensures index < |files| && NoneVisible(ToSet(files[index].table), k, s) ==> NoneVisible(Entries(files), k, s)
    ensures index < |files| ==>
              forall e :: Newest(ToSet(files[index].table), k, s, e) ==> Newest(Entries(files), k, s, e)
  {
    forall x | x in Entries(files) && Visible(x, k, s)
      ensures index < |files| && files[index].smallest.user <= k
      ensures exists y :: y in files[index].table && Visible(y, k, s) && x.key.sequence <= y.key.sequence
    {
      var f :| f in files && x in f.table;
      var j :| 0 <= j < |files| && files[j] == f;
      FileBounds(f, x);
      assert j >= index;
      var g := files[index];
      assert g in files;
      if j == index {
        assert x in files[index].table;
      } else {
        var y := g.table[|g.table| - 1];
        assert Precedes(files, index, j);
        assert !Less(x.key, f.smallest);
        FileBounds(g, y);
        assert y.key == g.largest && y in g.table;
        assert Visible(y, k, s);
      }
    }
    if index < |files| {
      var g := files[index];
      assert g in files;
      forall e | Newest(ToSet(g.table), k, s, e) ensures Newest(Entries(files), k, s, e) {
        forall x | x in Entries(files) && Visible(x, k, s) ensures x.key.sequence <= e.key.sequence {
          var y :| y in g.table && Visible(y, k, s) && x.key.sequence <= y.key.sequence;
          assert y in ToSet(g.table);
        }
      }
    }
  }

  /** Version::Get: search level by level and stop at the first level that answers. */
  method Get(v: Version, k: UserKey, s: SequenceNumber) returns (r: Outcome)
    requires WellFormed(v) && Layered(v)
    ensures Answers(AllEntries(v), k, s, r)
  {
    for level := 0 to NUM_LEVELS
      invariant NoneVisible(EntriesBefore(v, level), k, s)
    {
      if level == 0 {
        r := GetLevelZero(v.files[0], k, s);
      } else {
        r := GetSortedLevel(v.files[level], k, s);
      }
      if !r.Missing? {
        FirstHit(EntriesBefore(v, level), Entries(v.files[level]), EntriesFrom(v, level + 1), k, s, r);
        SplitAt(v, level);
        return;
      }
    }
    assert AllEntries(v) == EntriesBefore(v, NUM_LEVELS);
    r := Missing;
  }

  lemma SplitAt(v: Version, level: nat)
    requires |v.files| == NUM_LEVELS && level < NUM_LEVELS
    ensures AllEntries(v) == EntriesBefore(v, level) + Entries(v.files[level]) + EntriesFrom(v, level + 1)
  {
  }

  function UserOf(k: Option<InternalKey>): Option<UserKey> {
    if k.Some? then Some(k.value.user) else None
  }

  /** The files that meet the range, in their order. */
  function Overlapping(files: seq<FileMeta>, lo: Option<UserKey>, hi: Option<UserKey>): seq<FileMeta> {
    if files == [] then [] else
      var n := |files| - 1;
      Overlapping(files[..n], lo, hi) + (if Overlaps(files[n], lo, hi) then [files[n]] else [])
  }

  lemma {:induction false} OverlappingMembers(files: seq<FileMeta>, lo: Option<UserKey>, hi: Option<UserKey>)
    ensures forall f :: f in Overlapping(files, lo, hi) <==> f in files && Overlaps(f, lo, hi)
  {
    if files != [] {
      var n := |files| - 1;
      assert files == files[..n] + [files[n]];
      OverlappingMembers(files[..n], lo, hi);
    }
  }

  lemma OverlappingStep(files: seq<FileMeta>, lo: Option<UserKey>, hi: Option<UserKey>, n: nat)
    requires n < |files|
    ensures Overlapping(files[..n + 1], lo, hi) ==
            Overlapping(files[..n], lo, hi) + (if Overlaps(files[n], lo, hi) then [files[n]] else [])
  {
    assert files[..n + 1][..n] == files[..n];
  }

  /** [lo, hi] contains [a, b]. */
  predicate Contains(lo: Option<UserKey>, hi: Option<UserKey>, a: Option<UserKey>, b: Option<UserKey>) {
    && (lo.None? || (a.Some? && lo.value <= a.value))
    && (hi.None? || (b.Some? && b.value <= hi.value))
  }

  predicate Within(f: FileMeta, lo: Option<UserKey>, hi: Option<UserKey>) {
    Contains(lo, hi, Some(f.smallest.user), Some(f.largest.user))
  }

  /** Every file that meets the range lies inside it. */
  ghost predicate ClosedRange(files: seq<FileMeta>, lo: Option<UserKey>, hi: Option<UserKey>) {
    forall f :: f in files && Overlaps(f, lo, hi) ==> Within(f, lo, hi)
  }

  /** At level 0 the range grows to the least closed range around [begin, end]; elsewhere it stays. */
  ghost predicate SearchRange(level: nat, files: seq<FileMeta>, begin: Option<UserKey>, end: Option<UserKey>,
                              lo: Option<UserKey>, hi: Option<UserKey>) {
    if level > 0 then lo == begin && hi == end
    else
      && Contains(lo, hi, begin, end)
      && ClosedRange(files, lo, hi)
      && InsideEveryClosed(files, begin, end, lo, hi)
  }

  ghost predicate FoundInRange(level: nat, files: seq<FileMeta>, begin: Option<UserKey>, end: Option<UserKey>,
                               inputs: seq<FileMeta>) {
    exists lo, hi :: SearchRange(level, files, begin, end, lo, hi) && inputs == Overlapping(files, lo, hi)
  }

  /** Every closed range around [begin, end] contains [lo, hi]. */
  ghost predicate InsideEveryClosed(files: seq<FileMeta>, begin: Option<UserKey>, end: Option<UserKey>,
                                    lo: Option<UserKey>, hi: Option<UserKey>) {
    forall a, b :: Contains(a, b, begin, end) && ClosedRange(files, a, b) ==> Contains(a, b, lo, hi)
  }

  ghost function StartsBefore(files: seq<FileMeta>, lo: Option<UserKey>): set<nat> {
    set i | 0 <= i < |files| && lo.Some? && files[i].smallest.user < lo.value
  }

  ghost function EndsAfter(files: seq<FileMeta>, hi: Option<UserKey>): set<nat> {
    set i | 0 <= i < |files| && hi.Some? && files[i].largest.user > hi.value
  }

  method GetOverlappingInputs(v: Version, level: nat, begin: Option<InternalKey>, end: Option<InternalKey>)
    returns (inputs: seq<FileMeta>)
    requires |v.files| == NUM_LEVELS && level < NUM_LEVELS
    ensures FoundInRange(level, v.files[level], UserOf(begin), UserOf(end), inputs)
  {
    var files := v.files[level];
    var userBegin, userEnd := UserOf(begin), UserOf(end);
    inputs := [];
    var i := 0;
    while i < |files|
      invariant 0 <= i <= |files|
      invariant inputs == Overlapping(files[..i], userBegin, userEnd)
      invariant level > 0 ==> userBegin == UserOf(begin) && userEnd == UserOf(end)
      invariant level == 0 ==> forall f :: f in inputs ==> Within(f, userBegin, userEnd)
      invariant Contains(userBegin, userEnd, UserOf(begin), UserOf(end))
      invariant InsideEveryClosed(files, UserOf(begin), UserOf(end), userBegin, userEnd)
      decreases StartsBefore(files, userBegin), EndsAfter(files, userEnd), |files| - i
    {
      OverlappingStep(files, userBegin, userEnd, i);
      var f := files[i];
      i := i + 1;
      var fileStart, fileLimit := f.smallest.user, f.largest.user;
      if userBegin.Some? && fileLimit < userBegin.value {
      } else if userEnd.Some? && fileStart > userEnd.value {
      } else {
        assert Overlaps(f, userBegin, userEnd);
        GrowthStaysLeast(files, f, UserOf(begin), UserOf(end), userBegin, userEnd);
        inputs := inputs + [f];
        if level == 0 {
          if userBegin.Some? && fileStart < userBegin.value {
            assert i - 1 in StartsBefore(files, userBegin) && i - 1 !in StartsBefore(files, Some(fileStart));
            userBegin := Some(fileStart);
            inputs := [];
            i := 0;
          } else if userEnd.Some? && fileLimit > userEnd.value {
            assert i - 1 in EndsAfter(files, userEnd) && i - 1 !in EndsAfter(files, Some(fileLimit));
            userEnd := Some(fileLimit);
            inputs := [];
            i := 0;
          }
        }
      }
    }
    assert files[..|files|] == files;
    OverlappingMembers(files, userBegin, userEnd);
    assert SearchRange(level, files, UserOf(begin), UserOf(end), userBegin, userEnd);
  }

  /** Growing a bound to that of a file that meets the range keeps the range inside every closed one. */
  lemma GrowthStaysLeast(files: seq<FileMeta>, f: FileMeta, begin: Option<UserKey>, end: Option<UserKey>,
                         lo: Option<UserKey>, hi: Option<UserKey>)
    requires f in files && Overlaps(f, lo, hi)
    requires InsideEveryClosed(files, begin, end, lo, hi)
    ensures InsideEveryClosed(files, begin, end, Some(f.smallest.user), hi)
    ensures InsideEveryClosed(files, begin, end, lo, Some(f.largest.user))
  {
    forall a, b | Contains(a, b, begin, end) && ClosedRange(files, a, b)
      ensures Contains(a, b, Some(f.smallest.user), hi) && Contains(a, b, lo, Some(f.largest.user))
    {
      assert Contains(a, b, lo, hi);
      assert Overlaps(f, a, b);
    }
  }

  function TotalFileSize(files: seq<FileMeta>): nat {
    if files == [] then 0 else files[0].fileSize + TotalFileSize(files[1..])
  }

  method OverlapInLevel(v: Version, level: nat, lo: UserKey, hi: UserKey) returns (overlap: bool)
    requires WellFormed(v) && level < NUM_LEVELS
    ensures overlap <==> MeetsLevel(v, level, lo, hi)
  {
    overlap := SomeFileOverlapsRange(level > 0, v.files[level], Some(lo), Some(hi));
  }

  ghost predicate MeetsLevel(v: Version, level: nat, lo: UserKey, hi: UserKey)
    requires level < |v.files|
  {
    exists f :: f in v.files[level] && Overlaps(f, Some(lo), Some(hi))
  }

  /** Too many bytes two levels below `level` to place a file there. */
  ghost predicate GrandparentsTooBig(v: Version, level: nat, lo: UserKey, hi: UserKey, maxFileSize: nat)
    requires |v.files| == NUM_LEVELS && level < NUM_LEVELS - 1
  {
    level + 2 < NUM_LEVELS && TotalFileSize(Overlapping(v.files[level + 2], Some(lo), Some(hi))) > 10 * maxFileSize
  }

  /** The deepest level up to 2 that a flushed memtable may skip to: it passes over no file that meets its keys,
      and over no level with too many bytes two levels below. */
  ghost predicate IsMemTableLevel(v: Version, lo: UserKey, hi: UserKey, maxFileSize: nat, level: nat)
    requires |v.files| == NUM_LEVELS
  {
    && level <= MAX_MEM_COMPACT_LEVEL
    && (level > 0 ==> forall l :: 0 <= l <= level ==> !MeetsLevel(v, l, lo, hi))
    && (forall l :: 0 <= l < level ==> !GrandparentsTooBig(v, l, lo, hi, maxFileSize))
    && (level < MAX_MEM_COMPACT_LEVEL ==>
          || MeetsLevel(v, 0, lo, hi)
          || MeetsLevel(v, level + 1, lo, hi)
          || GrandparentsTooBig(v, level, lo, hi, maxFileSize))
  }

  lemma MemTableLevelIsUnique(v: Version, lo: UserKey, hi: UserKey, maxFileSize: nat, level: nat, other: nat)
    requires |v.files| == NUM_LEVELS
    requires IsMemTableLevel(v, lo, hi, maxFileSize, level) && IsMemTableLevel(v, lo, hi, maxFileSize, other)
    ensures level == other
  {
    hide MeetsLevel, GrandparentsTooBig;
  }

  method PickLevelForMemTableOutput(v: Version, lo: UserKey, hi: UserKey, maxFileSize: nat) returns (level: nat)
    requires WellFormed(v)
    ensures IsMemTableLevel(v, lo, hi, maxFileSize, level)
  {
    level := 0;
    var overlap := OverlapInLevel(v, 0, lo, hi);
    if !overlap {
      while level < MAX_MEM_COMPACT_LEVEL
        invariant level <= MAX_MEM_COMPACT_LEVEL
        invariant forall l :: 0 <= l <= level ==> !MeetsLevel(v, l, lo, hi)
        invariant forall l :: 0 <= l < level ==> !GrandparentsTooBig(v, l, lo, hi, maxFileSize)
      {
        overlap := OverlapInLevel(v, level + 1, lo, hi);
        if overlap {
          break;
        }
        if level + 2 < NUM_LEVELS {
          var start := InternalKey(lo, MAX_SEQUENCE, Put);
          var limit := InternalKey(hi, 0, Deletion);
          var overlaps := GetOverlappingInputs(v, level + 2, Some(start), Some(limit));
          var sum := TotalFileSize(overlaps);
          if sum > 10 * maxFileSize {
            break;
          }
        }
        level := level + 1;
      }
    }
  }
}
