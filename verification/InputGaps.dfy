/** Inputs whose user-key ranges leave no gap: one picked file and all that the selection adds to it do not
    (db/version_set.cc). */
module InputGaps {
  import opened DbFormat
  import opened Files
  import opened Versions
  import opened InputSelection
  import opened Compactions

  /** Every key between the least and the greatest is in the range of some file. */
  ghost predicate GapFree(files: seq<FileMeta>) {
    files != [] && forall k :: LowUser(files) <= k <= HighUser(files) ==> CoveredBy(files, k)
  }

  /** A range that meets the hull of the files meets one of them. */
  lemma MeetsOne(files: seq<FileMeta>, lo: UserKey, hi: UserKey)
    requires GapFree(files) && ValidFiles(files) && lo <= hi && lo <= HighUser(files) && LowUser(files) <= hi
    ensures exists f :: f in files && Overlaps(f, Some(lo), Some(hi))
  {
    UserHull(files);
    FileEndsInOrder(files[0]);
    var k := if lo >= LowUser(files) then lo else LowUser(files);
    assert CoveredBy(files, k);
  }

  lemma LoneFile(f: FileMeta)
    ensures GapFree([f])
  {
    assert f in [f];
  }

  lemma SameFiles(files: seq<FileMeta>, others: seq<FileMeta>)
    requires GapFree(files) && forall f :: f in files <==> f in others
    ensures GapFree(others)
  {
    assert files[0] in others;
    UserHull(files);
    UserHull(others);
    forall k | LowUser(others) <= k <= HighUser(others) ensures CoveredBy(others, k) {
      assert CoveredBy(files, k);
    }
  }

  /** Files that meet the hull leave no gap either. */
  lemma MeetingFilesJoin(files: seq<FileMeta>, more: seq<FileMeta>)
    requires GapFree(files)
    requires forall f :: f in more ==> Overlaps(f, Some(LowUser(files)), Some(HighUser(files)))
    ensures GapFree(files + more)
  {
    var all := files + more;
    UserHull(files);
    UserHull(all);
    forall k | LowUser(all) <= k <= HighUser(all) ensures CoveredBy(all, k) {
      if k < LowUser(files) {
        var f :| f in all && f.smallest.user == LowUser(all);
        assert f in more && Covers(f, k);
      } else if k > HighUser(files) {
        var f :| f in all && f.largest.user == HighUser(all);
        assert f in more && Covers(f, k);
      } else {
        assert CoveredBy(files, k);
      }
    }
  }

  /** Boundary files added to some of the files. */
  lemma {:induction false} BoundaryFilesJoin(levelFiles: seq<FileMeta>, others: seq<FileMeta>, files: seq<FileMeta>,
                                             added: seq<FileMeta>)
    requires ValidFiles(levelFiles) && ValidFiles(files)
    requires GapFree(others + files) && BoundaryChain(levelFiles, files, added)
    ensures GapFree(others + (files + added)) && ValidFiles(files + added)
    decreases added
  {
    hide GapFree, ChainStep, ValidFile;
    if added == [] {
      assert files + added == files;
    } else {
      var n := |added| - 1;
      var before, f := files + added[..n], added[n];
      BoundaryFilesJoin(levelFiles, others, files, added[..n]);
      HasFiles(others + before);
      BoundaryMeets(others + before, before, levelFiles, f);
      MeetingFilesJoin(others + before, [f]);
      assert (others + before) + [f] == others + (files + added) && before + [f] == files + added;
    }
  }

  lemma HasFiles(files: seq<FileMeta>)
    requires GapFree(files)
    ensures files != []
  {
  }

  lemma BoundaryMeets(all: seq<FileMeta>, files: seq<FileMeta>, levelFiles: seq<FileMeta>, f: FileMeta)
    requires all != [] && ValidFiles(levelFiles) && ValidFiles(files) && forall g :: g in files ==> g in all
    requires ChainStep(levelFiles, files, f)
    ensures ValidFile(f) && Overlaps(f, Some(LowUser(all)), Some(HighUser(all)))
  {
    var key :| IsLargest(files, key) && SmallestBoundary(levelFiles, key, f);
    FileEndsInOrder(f);
    UserHull(all);
    var g :| g in files && g.largest == key;
    FileEndsInOrder(g);
  }

  lemma ParentsJoin(parentFiles: seq<FileMeta>, inputs: seq<FileMeta>, parents: seq<FileMeta>)
    requires GapFree(inputs) && ParentsOf(parentFiles, inputs, parents)
    ensures GapFree(inputs + parents)
  {
    OverlappingMembers(parentFiles, Some(LowUser(inputs)), Some(HighUser(inputs)));
    MeetingFilesJoin(inputs, parents);
  }

  /** The greatest end below `k`. */
  lemma {:induction false} EndsBelow(files: seq<FileMeta>, base: UserKey, k: UserKey) returns (b: UserKey)
    requires base < k
    ensures base <= b < k && forall f :: f in files && f.largest.user < k ==> f.largest.user <= b
  {
    b := base;
    if files != [] {
      b := EndsBelow(files[1..], base, k);
      var f := files[0];
      assert files == [f] + files[1..];
      if b < f.largest.user < k {
        b := f.largest.user;
      }
    }
  }

  lemma {:induction false} StartsAbove(files: seq<FileMeta>, base: UserKey, k: UserKey) returns (b: UserKey)
    requires k < base
    ensures k < b <= base && forall f :: f in files && k < f.smallest.user ==> b <= f.smallest.user
  {
    b := base;
    if files != [] {
      b := StartsAbove(files[1..], base, k);
      var f := files[0];
      assert files == [f] + files[1..];
      if k < f.smallest.user < b {
        b := f.smallest.user;
      }
    }
  }

  /** What GetOverlappingInputs finds around files without a gap leaves none. */
  lemma FoundFilesJoin(level: nat, files: seq<FileMeta>, seed: seq<FileMeta>, lo: Option<UserKey>, hi: Option<UserKey>)
    requires ValidFiles(files) && ValidFiles(seed) && GapFree(seed)
    requires SearchRange(level, files, Some(LowUser(seed)), Some(HighUser(seed)), lo, hi)
    ensures GapFree(seed + Overlapping(files, lo, hi))
  {
    var found := Overlapping(files, lo, hi);
    OverlappingMembers(files, lo, hi);
    if level > 0 {
      MeetingFilesJoin(seed, found);
    } else {
      var all := seed + found;
      UserHull(seed);
      UserHull(all);
      forall k | LowUser(all) <= k <= HighUser(all) ensures CoveredBy(all, k) {
        if k > HighUser(seed) {
          NoGapAbove(files, seed, lo, hi, k);
        } else if k < LowUser(seed) {
          NoGapBelow(files, seed, lo, hi, k);
        } else {
          assert CoveredBy(seed, k);
        }
      }
    }
  }

  /** A gap above the seed would end a smaller closed range. */
  lemma NoGapAbove(files: seq<FileMeta>, seed: seq<FileMeta>, lo: Option<UserKey>, hi: Option<UserKey>, k: UserKey)
    requires ValidFiles(files) && seed != [] && HighUser(seed) < k
    requires SearchRange(0, files, Some(LowUser(seed)), Some(HighUser(seed)), lo, hi)
    requires k <= HighUser(seed + Overlapping(files, lo, hi))
    ensures CoveredBy(seed + Overlapping(files, lo, hi), k)
  {
    var found, all := Overlapping(files, lo, hi), seed + Overlapping(files, lo, hi);
    OverlappingMembers(files, lo, hi);
    UserHull(seed);
    UserHull(all);
    if !CoveredBy(all, k) {
      var g :| g in all && g.largest.user == HighUser(all);
      assert g in found && Within(g, lo, hi);
      var b := EndsBelow(found, HighUser(seed), k);
      forall f | f in files && Overlaps(f, lo, Some(b)) ensures Within(f, lo, Some(b)) {
        FileEndsInOrder(f);
        assert f in found && f in all && !Covers(f, k);
      }
      assert ClosedRange(files, lo, Some(b)) && Contains(lo, Some(b), Some(LowUser(seed)), Some(HighUser(seed)));
    }
  }

  lemma NoGapBelow(files: seq<FileMeta>, seed: seq<FileMeta>, lo: Option<UserKey>, hi: Option<UserKey>, k: UserKey)
    requires ValidFiles(files) && seed != [] && k < LowUser(seed)
    requires SearchRange(0, files, Some(LowUser(seed)), Some(HighUser(seed)), lo, hi)
    requires LowUser(seed + Overlapping(files, lo, hi)) <= k
    ensures CoveredBy(seed + Overlapping(files, lo, hi), k)
  {
    var found, all := Overlapping(files, lo, hi), seed + Overlapping(files, lo, hi);
    OverlappingMembers(files, lo, hi);
    UserHull(seed);
    UserHull(all);
    if !CoveredBy(all, k) {
      var g :| g in all && g.smallest.user == LowUser(all);
      assert g in found && Within(g, lo, hi);
      var b := StartsAbove(found, LowUser(seed), k);
      forall f | f in files && Overlaps(f, Some(b), hi) ensures Within(f, Some(b), hi) {
        FileEndsInOrder(f);
        assert f in found && f in all && !Covers(f, k);
      }
      assert ClosedRange(files, Some(b), hi) && Contains(Some(b), hi, Some(LowUser(seed)), Some(HighUser(seed)));
    }
  }
}
