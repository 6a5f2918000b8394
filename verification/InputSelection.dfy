/** Choosing the input files of a compaction (db/version_set.cc). */
module InputSelection {
  import opened DbFormat
  import opened Reads
  import opened Files
  import opened Versions

  /** `key` is the largest key of `files`. */
  ghost predicate IsLargest(files: seq<FileMeta>, key: InternalKey) {
    && (exists f :: f in files && f.largest == key)
    && forall f :: f in files ==> !Less(key, f.largest)
  }

  ghost predicate IsSmallest(files: seq<FileMeta>, key: InternalKey) {
    && (exists f :: f in files && f.smallest == key)
    && forall f :: f in files ==> !Less(f.smallest, key)
  }

  method GetRange(inputs: seq<FileMeta>) returns (smallest: InternalKey, largest: InternalKey)
    requires inputs != []
    ensures IsSmallest(inputs, smallest) && IsLargest(inputs, largest)
  {
    smallest, largest := inputs[0].smallest, inputs[0].largest;
    for i := 1 to |inputs|
      invariant IsSmallest(inputs[..i], smallest) && IsLargest(inputs[..i], largest)
    {
      var f := inputs[i];
      ghost var seen := inputs[..i];
      if Less(f.smallest, smallest) {
        smallest := f.smallest;
      }
      if Less(largest, f.largest) {
        largest := f.largest;
      }
      assert inputs[..i + 1] == seen + [f];
    }
    assert inputs[..|inputs|] == inputs;
  }

  method FindLargestKey(files: seq<FileMeta>) returns (found: bool, largestKey: InternalKey)
    ensures found <==> files != []
    ensures found ==> IsLargest(files, largestKey)
  {
    if files == [] {
      return false, InternalKey(0.0, 0, Deletion);
    }
    var _, largest := GetRange(files);
    return true, largest;
  }

  /** `f` starts after `largestKey` with older entries of its user key. */
  predicate IsBoundaryFile(f: FileMeta, largestKey: InternalKey) {
    Less(largestKey, f.smallest) && f.smallest.user == largestKey.user
  }

  ghost predicate SmallestBoundary(levelFiles: seq<FileMeta>, largestKey: InternalKey, f: FileMeta) {
    && f in levelFiles
    && IsBoundaryFile(f, largestKey)
    && forall g :: g in levelFiles && IsBoundaryFile(g, largestKey) ==> !Less(g.smallest, f.smallest)
  }

  method FindSmallestBoundaryFile(levelFiles: seq<FileMeta>, largestKey: InternalKey)
    returns (found: Option<FileMeta>)
    ensures found.None? ==> forall g :: g in levelFiles ==> !IsBoundaryFile(g, largestKey)
    ensures found.Some? ==> SmallestBoundary(levelFiles, largestKey, found.value)
  {
    found := None;
    for i := 0 to |levelFiles|
      invariant found.None? ==> forall g :: g in levelFiles[..i] ==> !IsBoundaryFile(g, largestKey)
      invariant found.Some? ==> SmallestBoundary(levelFiles[..i], largestKey, found.value)
    {
      var f := levelFiles[i];
      assert levelFiles[..i + 1] == levelFiles[..i] + [f];
      if Less(largestKey, f.smallest) && f.smallest.user == largestKey.user {
        if found.None? || Less(f.smallest, found.value.smallest) {
          found := Some(f);
        }
      }
    }
    assert levelFiles[..|levelFiles|] == levelFiles;
  }

  /** `added` was appended to `files` one smallest boundary file at a time. */
  ghost predicate BoundaryChain(levelFiles: seq<FileMeta>, files: seq<FileMeta>, added: seq<FileMeta>)
    decreases added
  {
    added != [] ==>
      var n := |added| - 1;
      BoundaryChain(levelFiles, files, added[..n]) && ChainStep(levelFiles, files + added[..n], added[n])
  }

  ghost predicate ChainStep(levelFiles: seq<FileMeta>, files: seq<FileMeta>, f: FileMeta) {
    exists key :: IsLargest(files, key) && SmallestBoundary(levelFiles, key, f)
  }

  lemma ChainGrows(levelFiles: seq<FileMeta>, files: seq<FileMeta>, added: seq<FileMeta>, key: InternalKey, f: FileMeta)
    requires BoundaryChain(levelFiles, files, added)
    requires IsLargest(files + added, key) && SmallestBoundary(levelFiles, key, f)
    ensures BoundaryChain(levelFiles, files, added + [f])
  {
    assert (added + [f])[..|added|] == added;
  }

  lemma LargestGrows(files: seq<FileMeta>, key: InternalKey, f: FileMeta)
    requires IsLargest(files, key) && ValidFile(f) && IsBoundaryFile(f, key)
    ensures IsLargest(files + [f], f.largest)
  {
    FileEndsInOrder(f);
    assert f in files + [f];
  }

  ghost predicate NoBoundaryLeft(levelFiles: seq<FileMeta>, files: seq<FileMeta>) {
    forall key, g :: IsLargest(files, key) && g in levelFiles ==> !IsBoundaryFile(g, key)
  }

  ghost function StartsAfter(levelFiles: seq<FileMeta>, key: InternalKey): set<FileMeta> {
    set f | f in levelFiles && Less(key, f.smallest)
  }

  lemma StartsAfterShrinks(levelFiles: seq<FileMeta>, key: InternalKey, f: FileMeta)
    requires f in levelFiles && ValidFile(f) && Less(key, f.smallest)
    ensures StartsAfter(levelFiles, f.largest) < StartsAfter(levelFiles, key)
  {
    FileEndsInOrder(f);
    assert f in StartsAfter(levelFiles, key) && f !in StartsAfter(levelFiles, f.largest);
  }

  method AddBoundaryInputs(levelFiles: seq<FileMeta>, compactionFiles: seq<FileMeta>)
    returns (files: seq<FileMeta>)
    requires ValidFiles(levelFiles)
    ensures compactionFiles <= files
    ensures compactionFiles == [] ==> files == []
    ensures compactionFiles != [] ==> BoundaryChain(levelFiles, compactionFiles, files[|compactionFiles|..])
    ensures compactionFiles != [] ==> NoBoundaryLeft(levelFiles, files)
  {
    hide IsLargest, StartsAfter, ChainStep;
    files := compactionFiles;
    ghost var added := [];
    var found, largestKey := FindLargestKey(compactionFiles);
    if !found {
      return;
    }
    assert compactionFiles + [] == compactionFiles;
    var continueSearching := true;
    while continueSearching
      invariant files == compactionFiles + added
      invariant BoundaryChain(levelFiles, compactionFiles, added)
      invariant IsLargest(files, largestKey)
      invariant !continueSearching ==> forall g :: g in levelFiles ==> !IsBoundaryFile(g, largestKey)
      decreases continueSearching, StartsAfter(levelFiles, largestKey)
    {
      var boundary := FindSmallestBoundaryFile(levelFiles, largestKey);
      if boundary.Some? {
        var f := boundary.value;
        ghost var before := StartsAfter(levelFiles, largestKey);
        StartsAfterShrinks(levelFiles, largestKey, f);
        LargestGrows(files, largestKey, f);
        ChainGrows(levelFiles, compactionFiles, added, largestKey, f);
        assert compactionFiles + (added + [f]) == files + [f];
        files := files + [f];
        added := added + [f];
        largestKey := f.largest;
      } else {
        continueSearching := false;
      }
    }
    forall key, g | IsLargest(files, key) && g in levelFiles ensures !IsBoundaryFile(g, key) {
      LargestIsUnique(files, key, largestKey);
    }
  }

  /** Files j - 1 and j of a sorted level split the entries of one user key. */
  predicate Straddles(files: seq<FileMeta>, j: int) {
    0 < j < |files| && files[j - 1].largest.user == files[j].smallest.user
  }

  ghost predicate IsRun(files: seq<FileMeta>, inputs: seq<FileMeta>, i: nat, j: nat) {
    i < j <= |files| && inputs == files[i..j]
  }

  lemma RunBounds(files: seq<FileMeta>, i: nat, j: nat)
    requires ValidFiles(files) && Disjoint(files) && i < j <= |files|
    ensures IsLargest(files[i..j], files[j - 1].largest)
    ensures IsSmallest(files[i..j], files[i].smallest)
  {
    var run := files[i..j];
    assert run[|run| - 1] == files[j - 1] && run[0] == files[i];
    forall f | f in run ensures !Less(files[j - 1].largest, f.largest) && !Less(f.smallest, files[i].smallest) {
      var m :| 0 <= m < |run| && run[m] == f;
      assert run[m] == files[i + m];
      if i < i + m {
        LargestAscends(files, i, i + m);
      }
      if i + m < j - 1 {
        LargestAscends(files, i + m, j - 1);
      }
    }
  }

  lemma LargestIsUnique(files: seq<FileMeta>, a: InternalKey, b: InternalKey)
    requires IsLargest(files, a) && IsLargest(files, b)
    ensures a.user == b.user && a.Tag() == b.Tag()
  {
  }

  /** In a sorted level the smallest boundary file of a run is the file right behind it. */
  lemma NextIsBoundary(files: seq<FileMeta>, i: nat, j: nat, key: InternalKey, m: nat)
    requires ValidFiles(files) && Disjoint(files) && i < j <= |files|
    requires IsLargest(files[i..j], key)
    requires m < |files| && SmallestBoundary(files, key, files[m])
    ensures m == j && Straddles(files, j)
  {
    RunBounds(files, i, j);
    LargestIsUnique(files[i..j], key, files[j - 1].largest);
    FileEndsInOrder(files[m]);
    if m < j - 1 {
      LargestAscends(files, m, j - 1);
    }
    assert m >= j;
    assert Precedes(files, j - 1, j);
    FileEndsInOrder(files[j]);
    if m > j {
      LargestAscends(files, j, m);
    }
    assert files[j] in files && IsBoundaryFile(files[j], key);
  }

  lemma RunStep(files: seq<FileMeta>, run: seq<FileMeta>, i: nat, j: nat, f: FileMeta)
    requires ValidFiles(files) && Disjoint(files)
    requires IsRun(files, run, i, j) && ChainStep(files, run, f)
    ensures IsRun(files, run + [f], i, j + 1)
  {
    var key :| IsLargest(run, key) && SmallestBoundary(files, key, f);
    var m :| 0 <= m < |files| && files[m] == f;
    NextIsBoundary(files, i, j, key, m);
    assert files[i..j + 1] == files[i..j] + [files[j]];
  }

  /** Extending a run of a sorted level by its boundary chain gives a longer run. */
  lemma {:induction false} ChainExtendsRun(files: seq<FileMeta>, inputs: seq<FileMeta>, i: nat, j: nat,
                                           added: seq<FileMeta>)
    requires ValidFiles(files) && Disjoint(files)
    requires IsRun(files, inputs, i, j)
    requires BoundaryChain(files, inputs, added)
    ensures IsRun(files, inputs + added, i, j + |added|)
    decreases added
  {
    if added == [] {
      assert inputs + added == inputs;
    } else {
      var n := |added| - 1;
      ChainExtendsRun(files, inputs, i, j, added[..n]);
      RunStep(files, inputs + added[..n], i, j + n, added[n]);
      assert (inputs + added[..n]) + [added[n]] == inputs + added;
    }
  }

  /** No boundary file left means the run ends between user keys. */
  lemma CleanCut(files: seq<FileMeta>, run: seq<FileMeta>, i: nat, j: nat)
    requires ValidFiles(files) && Disjoint(files) && IsRun(files, run, i, j)
    requires NoBoundaryLeft(files, run)
    ensures !Straddles(files, j)
  {
    RunBounds(files, i, j);
    if Straddles(files, j) {
      assert Precedes(files, j - 1, j);
      assert files[j] in files && IsBoundaryFile(files[j], files[j - 1].largest);
    }
  }

  /** Level 0: the inputs are all the files that meet some range, and lie inside it. */
  ghost predicate SelfContained(files: seq<FileMeta>, inputs: seq<FileMeta>, lo: Option<UserKey>, hi: Option<UserKey>) {
    && inputs != []
    && inputs == Overlapping(files, lo, hi)
    && forall f :: f in inputs ==> Within(f, lo, hi)
  }

  /** Inputs that may be extended: a whole overlapping cluster at level 0, a run of files elsewhere. */
  ghost predicate Picked(files: seq<FileMeta>, level: nat, inputs: seq<FileMeta>) {
    if level == 0 then exists lo, hi :: SelfContained(files, inputs, lo, hi)
    else exists i: nat, j: nat :: IsRun(files, inputs, i, j)
  }

  /** Inputs that leave no older entry of their user keys behind at their level. */
  ghost predicate CleanlyPicked(files: seq<FileMeta>, level: nat, inputs: seq<FileMeta>) {
    if level == 0 then exists lo, hi :: SelfContained(files, inputs, lo, hi)
    else exists i: nat, j: nat :: IsRun(files, inputs, i, j) && !Straddles(files, j)
  }

  /** The least and the greatest user key in the ranges of `files`. */
  function LowUser(files: seq<FileMeta>): UserKey
    requires files != []
  {
    var first := files[0].smallest.user;
    if |files| == 1 then first else
      var rest := LowUser(files[1..]);
      if first <= rest then first else rest
  }

  function HighUser(files: seq<FileMeta>): UserKey
    requires files != []
  {
    var first := files[0].largest.user;
    if |files| == 1 then first else
      var rest := HighUser(files[1..]);
      if first >= rest then first else rest
  }

  lemma {:induction false} UserHull(files: seq<FileMeta>)
    requires files != []
    ensures forall f :: f in files ==> LowUser(files) <= f.smallest.user && f.largest.user <= HighUser(files)
    ensures exists f :: f in files && f.smallest.user == LowUser(files)
    ensures exists f :: f in files && f.largest.user == HighUser(files)
  {
    if |files| > 1 {
      assert files == [files[0]] + files[1..];
      UserHull(files[1..]);
    }
    assert files[0] in files;
  }

  lemma HullOfRange(files: seq<FileMeta>, smallest: InternalKey, largest: InternalKey)
    requires files != [] && IsSmallest(files, smallest) && IsLargest(files, largest)
    ensures smallest.user == LowUser(files) && largest.user == HighUser(files)
  {
    UserHull(files);
  }

  /** `parents` are exactly the files of the next level that meet the user-key range of `inputs`. */
  ghost predicate ParentsOf(parentFiles: seq<FileMeta>, inputs: seq<FileMeta>, parents: seq<FileMeta>) {
    inputs != [] && parents == Overlapping(parentFiles, Some(LowUser(inputs)), Some(HighUser(inputs)))
  }

  lemma SelfContainedHasNoBoundary(files: seq<FileMeta>, inputs: seq<FileMeta>, lo: Option<UserKey>,
                                   hi: Option<UserKey>, f: FileMeta)
    requires ValidFiles(files)
    requires SelfContained(files, inputs, lo, hi)
    ensures !ChainStep(files, inputs, f)
  {
    if ChainStep(files, inputs, f) {
      var key :| IsLargest(inputs, key) && SmallestBoundary(files, key, f);
      FileEndsInOrder(f);
      OverlappingMembers(files, lo, hi);
      assert Overlaps(f, lo, hi);
    }
  }

  lemma ChainStartsSomewhere(files: seq<FileMeta>, inputs: seq<FileMeta>, added: seq<FileMeta>)
    requires BoundaryChain(files, inputs, added) && added != []
    ensures ChainStep(files, inputs, added[0])
    decreases added
  {
    var n := |added| - 1;
    if n > 0 {
      ChainStartsSomewhere(files, inputs, added[..n]);
      assert added[..n][0] == added[0];
    } else {
      assert inputs + added[..0] == inputs;
    }
  }

  lemma SelfContainedStays(files: seq<FileMeta>, inputs: seq<FileMeta>, lo: Option<UserKey>, hi: Option<UserKey>,
                           added: seq<FileMeta>)
    requires ValidFiles(files)
    requires SelfContained(files, inputs, lo, hi)
    requires BoundaryChain(files, inputs, added)
    ensures added == []
  {
    if added != [] {
      ChainStartsSomewhere(files, inputs, added);
      SelfContainedHasNoBoundary(files, inputs, lo, hi, added[0]);
    }
  }

  lemma RunBecomesClean(files: seq<FileMeta>, inputs: seq<FileMeta>, i: nat, j: nat, added: seq<FileMeta>)
    requires ValidFiles(files) && Disjoint(files)
    requires IsRun(files, inputs, i, j)
    requires BoundaryChain(files, inputs, added) && NoBoundaryLeft(files, inputs + added)
    ensures IsRun(files, inputs + added, i, j + |added|) && !Straddles(files, j + |added|)
  {
    ChainExtendsRun(files, inputs, i, j, added);
    CleanCut(files, inputs + added, i, j + |added|);
  }

  /** Extending picked inputs by their boundary files makes them cleanly picked. */
  lemma BoundaryMakesClean(files: seq<FileMeta>, level: nat, inputs: seq<FileMeta>, extended: seq<FileMeta>)
    requires ValidFiles(files) && (level > 0 ==> Disjoint(files))
    requires Picked(files, level, inputs)
    requires inputs <= extended && BoundaryChain(files, inputs, extended[|inputs|..])
    requires NoBoundaryLeft(files, extended)
    ensures CleanlyPicked(files, level, extended)
  {
    var added := extended[|inputs|..];
    assert inputs + added == extended;
    if level == 0 {
      var lo, hi :| SelfContained(files, inputs, lo, hi);
      SelfContainedStays(files, inputs, lo, hi, added);
      assert extended == inputs;
    } else {
      var i: nat, j: nat :| IsRun(files, inputs, i, j);
      RunBecomesClean(files, inputs, i, j, added);
    }
  }

  lemma OverlapIsConvex(files: seq<FileMeta>, a: nat, m: nat, b: nat, lo: Option<UserKey>, hi: Option<UserKey>)
    requires ValidFiles(files) && Disjoint(files) && a < m < b < |files|
    requires Overlaps(files[a], lo, hi) && Overlaps(files[b], lo, hi)
    ensures Overlaps(files[m], lo, hi)
  {
    assert Precedes(files, a, m) && Precedes(files, m, b);
    FileEndsInOrder(files[m]);
  }

  predicate OverlapsAt(files: seq<FileMeta>, m: int, lo: Option<UserKey>, hi: Option<UserKey>) {
    0 <= m < |files| && Overlaps(files[m], lo, hi)
  }

  /** The files that meet the range are those with index i to j - 1. */
  ghost predicate OverlapInterval(files: seq<FileMeta>, lo: Option<UserKey>, hi: Option<UserKey>, i: nat, j: nat) {
    && i <= j <= |files|
    && forall m {:trigger OverlapsAt(files, m, lo, hi)} :: 0 <= m < |files| ==> (i <= m < j <==> OverlapsAt(files, m, lo, hi))
  }

  lemma OverlappingStepAt(files: seq<FileMeta>, lo: Option<UserKey>, hi: Option<UserKey>, i: nat, j: nat, n: nat)
    requires OverlapInterval(files, lo, hi, i, j) && n < |files|
    ensures Overlapping(files[..n + 1], lo, hi) ==
            Overlapping(files[..n], lo, hi) + (if i <= n < j then [files[n]] else [])
  {
    OverlappingStep(files, lo, hi, n);
    assert OverlapsAt(files, n, lo, hi) <==> Overlaps(files[n], lo, hi);
  }

  lemma IntervalIsSlice(files: seq<FileMeta>, lo: Option<UserKey>, hi: Option<UserKey>, i: nat, j: nat)
    requires OverlapInterval(files, lo, hi, i, j)
    ensures i <= j <= |files| && Overlapping(files, lo, hi) == files[i..j]
  {
    assert Overlapping(files[..0], lo, hi) == [];
    for n := 0 to |files|
      invariant n <= i ==> Overlapping(files[..n], lo, hi) == []
      invariant i <= n <= j ==> Overlapping(files[..n], lo, hi) == files[i..n]
      invariant j <= n ==> Overlapping(files[..n], lo, hi) == files[i..j]
    {
      OverlappingStepAt(files, lo, hi, i, j, n);
      if i <= n < j {
        SliceStep(files, i, n);
      }
    }
    assert files[..|files|] == files;
  }

  lemma SliceStep(files: seq<FileMeta>, i: nat, n: nat)
    requires i <= n < |files|
    ensures files[i..n + 1] == files[i..n] + [files[n]]
  {
  }

  /** In a sorted level the files that meet a range are neighbours. */
  lemma OverlappingIsSlice(files: seq<FileMeta>, lo: Option<UserKey>, hi: Option<UserKey>) returns (i: nat, j: nat)
    requires ValidFiles(files) && Disjoint(files)
    ensures OverlapInterval(files, lo, hi, i, j)
    ensures Overlapping(files, lo, hi) == files[i..j]
  {
    i := 0;
    while i < |files| && !Overlaps(files[i], lo, hi)
      invariant i <= |files| && forall m :: 0 <= m < i ==> !Overlaps(files[m], lo, hi)
    {
      i := i + 1;
    }
    j := i;
    while j < |files| && Overlaps(files[j], lo, hi)
      invariant i <= j <= |files| && forall m :: i <= m < j ==> Overlaps(files[m], lo, hi)
    {
      j := j + 1;
    }
    forall m | j < m < |files| ensures !Overlaps(files[m], lo, hi) {
      if Overlaps(files[m], lo, hi) {
        assert i < j;
        OverlapIsConvex(files, i, j, m, lo, hi);
      }
    }
    IntervalIsSlice(files, lo, hi, i, j);
  }

  lemma {:induction false} OverlappingMonotone(files: seq<FileMeta>, lo: UserKey, hi: UserKey,
                                               wideLo: UserKey, wideHi: UserKey)
    requires wideLo <= lo && hi <= wideHi
    ensures var narrow := Overlapping(files, Some(lo), Some(hi));
            var wide := Overlapping(files, Some(wideLo), Some(wideHi));
            |narrow| <= |wide| && (|narrow| == |wide| ==> narrow == wide)
    decreases files
  {
    if files != [] {
      OverlappingMonotone(files[..|files| - 1], lo, hi, wideLo, wideHi);
    }
  }

  /** A cleanly picked set of inputs consists of files of the level. */
  lemma PickedMembers(files: seq<FileMeta>, level: nat, inputs: seq<FileMeta>)
    requires CleanlyPicked(files, level, inputs)
    ensures inputs != [] && forall f :: f in inputs ==> f in files
  {
    if level == 0 {
      var lo, hi :| SelfContained(files, inputs, lo, hi);
      OverlappingMembers(files, lo, hi);
    }
  }
}
