/** The version set: choosing compactions over the current version (db/version_set.cc). */
module VersionSets {
  import opened DbFormat
  import opened Reads
  import opened Files
  import opened Versions
  import opened InputSelection
  import opened Compactions
  import opened Builders
  import opened InputGaps

  /** What size scores and seek counts ask for; how they arise is not modelled. */
  datatype Choice = SizeCompaction(level: nat) | SeekCompaction(level: nat, file: FileMeta) | NoCompaction

  predicate AfterPointer(f: FileMeta, pointer: Option<InternalKey>) {
    pointer.None? || Less(pointer.value, f.largest)
  }

  /** The first file of a level behind the pointer, or the level's first file if there is none. */
  ghost predicate IsNextFile(files: seq<FileMeta>, pointer: Option<InternalKey>, file: FileMeta) {
    exists i :: 0 <= i < |files| && files[i] == file && TurnOf(files, pointer, i)
  }

  ghost predicate TurnOf(files: seq<FileMeta>, pointer: Option<InternalKey>, i: nat)
    requires i < |files|
  {
    if AfterPointer(files[i], pointer) then forall j :: 0 <= j < i ==> !AfterPointer(files[j], pointer)
    else i == 0 && forall j :: 0 <= j < |files| ==> !AfterPointer(files[j], pointer)
  }

  /** The part of the files found in a range that one manual compaction takes: all of them at level 0, and
      elsewhere the shortest prefix that reaches `limit` bytes. */
  ghost predicate TakenFrom(level: nat, found: seq<FileMeta>, limit: nat, picked: seq<FileMeta>) {
    && picked != [] && picked <= found
    && (level == 0 ==> picked == found)
    && (level > 0 ==> ReachesLimit(found, limit, |picked|))
  }

  ghost predicate ReachesLimit(files: seq<FileMeta>, limit: nat, n: nat)
    requires n <= |files|
  {
    && (n < |files| ==> TotalFileSize(files[..n]) >= limit)
    && forall i :: 0 < i < n ==> TotalFileSize(files[..i]) < limit
  }

  ghost predicate AllIn(files: seq<FileMeta>, all: seq<FileMeta>) {
    forall f :: f in files ==> f in all
  }

  /** A manual compaction of [begin, end] starts from `picked`. */
  ghost predicate TakesRange(level: nat, files: seq<FileMeta>, begin: Option<UserKey>, end: Option<UserKey>, limit: nat,
                             picked: seq<FileMeta>) {
    exists found :: FoundInRange(level, files, begin, end, found) && TakenFrom(level, found, limit, picked)
  }

  /** A compaction of one file starts from `picked`: at level 0 the file drags along what its range reaches. */
  ghost predicate TakesFile(level: nat, files: seq<FileMeta>, file: FileMeta, picked: seq<FileMeta>) {
    if level == 0 then FoundInRange(0, files, Some(file.smallest.user), Some(file.largest.user), picked) else picked == [file]
  }

  /** `extended` is `picked` and its boundary files. */
  ghost predicate Extends(files: seq<FileMeta>, picked: seq<FileMeta>, extended: seq<FileMeta>) {
    picked <= extended && BoundaryChain(files, picked, extended[|picked|..]) && NoBoundaryLeft(files, extended)
  }

  /** `wide` are the files of the level that the whole range of `inputs` takes in. */
  ghost predicate Reaches(level: nat, files: seq<FileMeta>, inputs: seq<FileMeta>, wide: seq<FileMeta>) {
    inputs != [] && exists found :: FoundInRange(level, files, Some(LowUser(inputs)), Some(HighUser(inputs)), found) && Extends(files, found, wide)
  }

  /** Widening brings in more files, keeps their parents as they are and the compaction below its limit. */
  ghost predicate Pays(parentFiles: seq<FileMeta>, inputs0: seq<FileMeta>, inputs1: seq<FileMeta>, wide: seq<FileMeta>,
                       maxFileSize: nat) {
    && |wide| > |inputs0| && TotalFileSize(inputs1) + TotalFileSize(wide) < 25 * maxFileSize
    && ParentsOf(parentFiles, wide, inputs1)
  }

  /** Inputs `clean` with parents `inputs1` become `inputs0`: they are widened exactly if there are parents and it pays. */
  ghost predicate IsWidened(v: Version, level: nat, maxFileSize: nat, clean: seq<FileMeta>, inputs1: seq<FileMeta>,
                            inputs0: seq<FileMeta>)
    requires |v.files| == NUM_LEVELS && level + 1 < NUM_LEVELS
  {
    if inputs1 == [] then inputs0 == clean
    else
      exists wide :: Reaches(level, v.files[level], clean + inputs1, wide) &&
                     inputs0 == if Pays(v.files[level + 1], clean, inputs1, wide, maxFileSize) then wide else clean
  }

  /** The inputs that a compaction starting from `picked` ends up with. */
  ghost predicate IsSetUp(v: Version, level: nat, maxFileSize: nat, picked: seq<FileMeta>, inputs0: seq<FileMeta>,
                          inputs1: seq<FileMeta>)
    requires |v.files| == NUM_LEVELS && level + 1 < NUM_LEVELS
  {
    exists clean :: Extends(v.files[level], picked, clean) && ParentsOf(v.files[level + 1], clean, inputs1) &&
                    IsWidened(v, level, maxFileSize, clean, inputs1, inputs0)
  }

  ghost predicate NoneMeets(files: seq<FileMeta>, begin: Option<UserKey>, end: Option<UserKey>) {
    forall f :: f in files ==> !Overlaps(f, begin, end)
  }

  /** The search for a range comes back empty exactly when no file meets the range. */
  lemma FoundNothing(level: nat, files: seq<FileMeta>, begin: Option<UserKey>, end: Option<UserKey>, found: seq<FileMeta>)
    requires FoundInRange(level, files, begin, end, found)
    ensures found == [] <==> NoneMeets(files, begin, end)
  {
    var lo, hi :| SearchRange(level, files, begin, end, lo, hi) && found == Overlapping(files, lo, hi);
    OverlappingMembers(files, lo, hi);
    if NoneMeets(files, begin, end) && level == 0 {
      assert Contains(begin, end, begin, end) && ClosedRange(files, begin, end);
      assert Contains(begin, end, lo, hi);
    }
    forall f | f in files && Overlaps(f, begin, end) ensures f in found {
    }
    if found != [] {
      assert found[0] in found;
    }
  }

  class VersionSet {
    const maxFileSize: nat
    var current: Version
    var compactPointer: seq<Option<InternalKey>>
    var nextFileNumber: nat
    var lastSequence: SequenceNumber

    ghost predicate Valid()
      reads this
    {
      WellFormed(current) && |compactPointer| == NUM_LEVELS
    }

    constructor (maxFileSize: nat, nextFileNumber: nat)
      ensures Valid() && this.maxFileSize == maxFileSize
      ensures (forall l :: 0 <= l < NUM_LEVELS ==> current.files[l] == [])
      ensures lastSequence == 0 && this.nextFileNumber == nextFileNumber
    {
      this.maxFileSize, this.nextFileNumber, lastSequence := maxFileSize, nextFileNumber, 0;
      current := Version(seq(NUM_LEVELS, _ => []));
      compactPointer := seq(NUM_LEVELS, _ => None);
    }

    /** Build the next version from the current one and an edit, and make it current. */
    method LogAndApply(edit: VersionEdit)
      requires Valid() && EditsApply(current, [edit])
      modifies this`current
      ensures IsFold(current, old(current), [edit])
    {
      var v := ReplayEdits(current, [edit]);
      current := v;
    }

    /** The first file of a level behind the compaction pointer, or its first file. */
    method FileAfterPointer(level: nat) returns (file: FileMeta)
      requires Valid() && level < NUM_LEVELS && current.files[level] != []
      ensures IsNextFile(current.files[level], compactPointer[level], file)
    {
      var files := current.files[level];
      for i := 0 to |files|
        invariant forall j :: 0 <= j < i ==> !AfterPointer(files[j], compactPointer[level])
      {
        if AfterPointer(files[i], compactPointer[level]) {
          assert TurnOf(files, compactPointer[level], i);
          return files[i];
        }
      }
      assert TurnOf(files, compactPointer[level], 0);
      return files[0];
    }

    /** Turn a chosen file into the inputs of a compaction: at level 0, all the files it drags along. */
    method PickCompaction(choice: Choice) returns (c: Compaction?)
      requires Valid()
      requires choice.SizeCompaction? ==> choice.level + 1 < NUM_LEVELS && current.files[choice.level] != []
      requires choice.SeekCompaction? ==> choice.level + 1 < NUM_LEVELS && choice.file in current.files[choice.level]
      modifies this`compactPointer
      ensures Valid()
      ensures c == null <==> choice.NoCompaction?
      ensures c != null ==> Ready(c) && fresh(c) && fresh(c.levelPtrs) && c.level == choice.level
      ensures c != null ==> GapFree(c.inputs0 + c.inputs1)
      // The inputs are those that the seek's file, or the next file of the level, leads to.
      ensures c != null ==>
                exists file, picked ::
                  && (if choice.SeekCompaction? then file == choice.file
                      else IsNextFile(current.files[choice.level], old(compactPointer)[choice.level], file))
                  && TakesFile(choice.level, current.files[choice.level], file, picked)
                  && IsSetUp(current, choice.level, maxFileSize, picked, c.inputs0, c.inputs1)
                  && file in picked && AllIn(picked, c.inputs0)
    {
      hide GapFree, IsNextFile, IsSetUp, FoundInRange;
      if choice.NoCompaction? {
        return null;
      }
      var file;
      if choice.SizeCompaction? {
        file := FileAfterPointer(choice.level);
      } else {
        file := choice.file;
      }
      var inputs := [file];
      LoneFile(file);
      if choice.level == 0 {
        inputs := Cluster(file);
      } else {
        LoneFileIsRun(current.files[choice.level], file);
      }
      assert TakesFile(choice.level, current.files[choice.level], file, inputs);
      c := new Compaction(choice.level, maxFileSize, current, inputs);
      SetupOtherInputs(c);
    }

    /** The level-0 files that a file reaches through overlaps. */
    method Cluster(file: FileMeta) returns (inputs: seq<FileMeta>)
      requires Valid() && file in current.files[0]
      ensures TakesFile(0, current.files[0], file, inputs)
      ensures file in inputs && Picked(current.files[0], 0, inputs) && GapFree(inputs)
    {
      var smallest, largest := GetRange([file]);
      assert ([file])[0] == file;
      HullOfRange([file], smallest, largest);
      inputs := GetOverlappingInputs(current, 0, Some(smallest), Some(largest));
      ghost var lo, hi :| SearchRange(0, current.files[0], Some(smallest.user), Some(largest.user), lo, hi)
                    && inputs == Overlapping(current.files[0], lo, hi);
      OverlappingMembers(current.files[0], lo, hi);
      FileEndsInOrder(file);
      LoneFile(file);
      FoundFilesJoin(0, current.files[0], [file], lo, hi);
      SameFiles([file] + inputs, inputs);
      OverlappingIsPicked(current.files[0], 0, Some(smallest.user), Some(largest.user), lo, hi);
    }

    /** A manual compaction of [begin, end]: below level 0 no more than about one file's worth at a time. */
    method CompactRange(level: nat, begin: Option<InternalKey>, end: Option<InternalKey>) returns (c: Compaction?)
      requires Valid() && level + 1 < NUM_LEVELS
      modifies this`compactPointer
      ensures Valid()
      ensures c == null <==> NoneMeets(current.files[level], UserOf(begin), UserOf(end))
      ensures c != null ==>
                exists picked ::
                  && TakesRange(level, current.files[level], UserOf(begin), UserOf(end), maxFileSize, picked)
                  && IsSetUp(current, level, maxFileSize, picked, c.inputs0, c.inputs1) && AllIn(picked, c.inputs0)
      ensures c != null ==> Ready(c) && fresh(c) && fresh(c.levelPtrs) && c.level == level
    {
      hide FoundInRange, TakenFrom, Picked, NoneMeets, IsSetUp;
      var inputs, found := RangeInputs(level, begin, end);
      if inputs == [] {
        return null;
      }
      c := new Compaction(level, maxFileSize, current, inputs);
      SetupOtherInputs(c);
      assert TakesRange(level, current.files[level], UserOf(begin), UserOf(end), maxFileSize, inputs);
    }

    /** The files of a level that a manual compaction starts from. */
    method RangeInputs(level: nat, begin: Option<InternalKey>, end: Option<InternalKey>)
      returns (inputs: seq<FileMeta>, ghost found: seq<FileMeta>)
      requires Valid() && level + 1 < NUM_LEVELS
      ensures FoundInRange(level, current.files[level], UserOf(begin), UserOf(end), found)
      ensures inputs == [] <==> NoneMeets(current.files[level], UserOf(begin), UserOf(end))
      ensures inputs != [] ==> TakenFrom(level, found, maxFileSize, inputs) && Picked(current.files[level], level, inputs)
    {
      inputs := GetOverlappingInputs(current, level, begin, end);
      found := inputs;
      FoundNothing(level, current.files[level], UserOf(begin), UserOf(end), found);
      if inputs == [] {
        return;
      }
      ghost var lo, hi :| SearchRange(level, current.files[level], UserOf(begin), UserOf(end), lo, hi)
                    && inputs == Overlapping(current.files[level], lo, hi);
      OverlappingIsPicked(current.files[level], level, UserOf(begin), UserOf(end), lo, hi);
      if level > 0 {
        var n := PrefixOfSize(inputs, maxFileSize);
        PrefixIsRun(current.files[level], inputs, n);
        inputs := inputs[..n];
      }
    }

    /** A compaction of the current version, set up and not yet run. */
    ghost predicate Ready(c: Compaction)
      reads this, c, c.levelPtrs
    {
      && c.grandparents == GrandparentsOf(current, c.level, c.inputs0, c.inputs1)
      && c.inputVersion == current && c.maxFileSize == maxFileSize && c.IsSelected()
      && c.grandparentIndex == 0 && !c.seenKey && c.overlappedBytes == 0
      && c.levelPtrs.Length == NUM_LEVELS
      && forall l :: 0 <= l < NUM_LEVELS ==> c.levelPtrs[l] == 0
    }

    /** Fill in both sets of inputs, the grandparents and the place where the next compaction starts. */
    method SetupOtherInputs(c: Compaction)
      requires Valid() && c.inputVersion == current && c.level + 1 < NUM_LEVELS
      requires c.inputs0 != [] && Picked(current.files[c.level], c.level, c.inputs0)
      modifies this`compactPointer, c`inputs0, c`inputs1, c`grandparents
      ensures Valid() && c.IsSelected()
      ensures forall f :: f in old(c.inputs0) ==> f in c.inputs0
      ensures IsSetUp(current, c.level, maxFileSize, old(c.inputs0), c.inputs0, c.inputs1)
      ensures if c.level + 2 < NUM_LEVELS
              then ParentsOf(current.files[c.level + 2], c.inputs0 + c.inputs1, c.grandparents)
              else c.grandparents == []
      ensures compactPointer == old(compactPointer)[c.level := compactPointer[c.level]]
      ensures compactPointer[c.level].Some? && IsLargest(c.inputs0, compactPointer[c.level].value)
      ensures GapFree(old(c.inputs0)) ==> GapFree(c.inputs0 + c.inputs1)
    {
      hide CleanlyPicked, Picked, ParentsOf, WellFormed, GapFree, IsSetUp;
      var inputs0, inputs1 := ChooseInputs(c.level, c.inputs0);
      var largest := LargestOf(inputs0);
      var grandparents := Grandparents(c.level, inputs0 + inputs1);
      c.inputs0, c.inputs1, c.grandparents := inputs0, inputs1, grandparents;
      compactPointer := compactPointer[c.level := Some(largest)];
    }

    method LargestOf(files: seq<FileMeta>) returns (largest: InternalKey)
      requires files != []
      ensures IsLargest(files, largest)
    {
      var _, key := GetRange(files);
      largest := key;
    }

    /** The files two levels down that meet the whole range of a compaction. */
    method Grandparents(level: nat, inputs: seq<FileMeta>) returns (grandparents: seq<FileMeta>)
      requires Valid() && level + 1 < NUM_LEVELS && inputs != []
      ensures if level + 2 < NUM_LEVELS then ParentsOf(current.files[level + 2], inputs, grandparents)
              else grandparents == []
    {
      grandparents := [];
      if level + 2 < NUM_LEVELS {
        grandparents := ParentInputs(level + 1, inputs);
      }
    }

    /** Extend the picked inputs to a clean cut, add the parents they meet, and widen the inputs if
        that brings in no further parent. */
    method ChooseInputs(level: nat, picked: seq<FileMeta>) returns (inputs0: seq<FileMeta>, inputs1: seq<FileMeta>)
      requires Valid() && level + 1 < NUM_LEVELS
      requires picked != [] && Picked(current.files[level], level, picked)
      ensures inputs0 != [] && CleanlyPicked(current.files[level], level, inputs0)
      ensures ParentsOf(current.files[level + 1], inputs0, inputs1)
      ensures forall f :: f in picked ==> f in inputs0
      ensures IsSetUp(current, level, maxFileSize, picked, inputs0, inputs1)
      ensures GapFree(picked) ==> GapFree(inputs0 + inputs1)
    {
      hide GapFree, CleanlyPicked, Picked, ParentsOf, Extends, Reaches;
      var clean;
      clean, inputs1 := CleanInputs(level, picked);
      inputs0 := clean;
      if inputs1 != [] {
        var expanded0 := Expand(level, clean, inputs1);
        if |expanded0| > |clean| && TotalFileSize(inputs1) + TotalFileSize(expanded0) < 25 * maxFileSize {
          var expanded1 := ParentInputs(level, expanded0);
          SameParents(current.files[level + 1], clean, inputs1, expanded0, expanded1);
          if |expanded1| == |inputs1| {
            inputs0 := expanded0;
          }
        }
      }
    }

    /** The picked files with their boundary files, and the parents of those. */
    method CleanInputs(level: nat, picked: seq<FileMeta>) returns (inputs0: seq<FileMeta>, inputs1: seq<FileMeta>)
      requires Valid() && level + 1 < NUM_LEVELS
      requires picked != [] && Picked(current.files[level], level, picked)
      ensures picked <= inputs0 && Extends(current.files[level], picked, inputs0)
      ensures inputs0 != [] && CleanlyPicked(current.files[level], level, inputs0)
      ensures ParentsOf(current.files[level + 1], inputs0, inputs1)
      ensures forall f :: f in inputs0 ==> f in current.files[level]
      ensures forall f :: f in inputs1 ==> f in current.files[level + 1]
      ensures GapFree(picked) ==> GapFree(inputs0 + inputs1)
    {
      hide GapFree;
      var files := current.files[level];
      inputs0 := AddBoundaryInputs(files, picked);
      BoundaryMakesClean(files, level, picked, inputs0);
      PickedMembers(files, level, inputs0);
      inputs1 := ParentInputs(level, inputs0);
      OverlappingMembers(current.files[level + 1], Some(LowUser(inputs0)), Some(HighUser(inputs0)));
      if GapFree(picked) {
        CleanHasNoGap(level, picked, inputs0, inputs1);
      }
    }

    method ParentInputs(level: nat, inputs0: seq<FileMeta>) returns (inputs1: seq<FileMeta>)
      requires Valid() && level + 1 < NUM_LEVELS && inputs0 != []
      ensures ParentsOf(current.files[level + 1], inputs0, inputs1)
    {
      var smallest, largest := GetRange(inputs0);
      HullOfRange(inputs0, smallest, largest);
      inputs1 := GetOverlappingInputs(current, level + 1, Some(smallest), Some(largest));
    }

    /** The inputs of `level` that the whole range of the compaction would take in. */
    method Expand(level: nat, inputs0: seq<FileMeta>, inputs1: seq<FileMeta>) returns (expanded0: seq<FileMeta>)
      requires Valid() && level + 1 < NUM_LEVELS && inputs0 != []
      requires forall f :: f in inputs0 ==> f in current.files[level]
      requires forall f :: f in inputs1 ==> f in current.files[level + 1]
      ensures Reaches(level, current.files[level], inputs0 + inputs1, expanded0)
      ensures expanded0 != [] && CleanlyPicked(current.files[level], level, expanded0)
      ensures forall f :: f in inputs0 ==> f in expanded0
      ensures GapFree(inputs0 + inputs1) ==> GapFree(expanded0 + inputs1)
    {
      hide BoundaryChain, NoBoundaryLeft, CleanlyPicked, Picked, ClosedRange;
      var files := current.files[level];
      var allStart, allLimit := GetRange(inputs0 + inputs1);
      var overlaps := GetOverlappingInputs(current, level, Some(allStart), Some(allLimit));
      ghost var lo, hi :| SearchRange(level, files, Some(allStart.user), Some(allLimit.user), lo, hi)
                          && overlaps == Overlapping(files, lo, hi);
      OverlappingMembers(files, lo, hi);
      forall f | f in inputs0 ensures f in overlaps {
        assert f in inputs0 + inputs1;
        FileEndsInOrder(f);
      }
      assert inputs0[0] in overlaps;
      OverlappingIsPicked(files, level, Some(allStart.user), Some(allLimit.user), lo, hi);
      expanded0 := AddBoundaryInputs(files, overlaps);
      BoundaryMakesClean(files, level, overlaps, expanded0);
      HullOfRange(inputs0 + inputs1, allStart, allLimit);
      assert FoundInRange(level, files, Some(allStart.user), Some(allLimit.user), overlaps) && Extends(files, overlaps, expanded0);
      if GapFree(inputs0 + inputs1) {
        ExpandedHasNoGap(level, inputs0, inputs1, lo, hi, overlaps, expanded0);
      }
    }

    lemma CleanHasNoGap(level: nat, picked: seq<FileMeta>, inputs0: seq<FileMeta>, inputs1: seq<FileMeta>)
      requires Valid() && level + 1 < NUM_LEVELS && GapFree(picked) && forall f :: f in inputs0 ==> f in current.files[level]
      requires picked <= inputs0 && BoundaryChain(current.files[level], picked, inputs0[|picked|..])
      requires ParentsOf(current.files[level + 1], inputs0, inputs1)
      ensures GapFree(inputs0 + inputs1)
    {
      hide GapFree, BoundaryChain, ParentsOf;
      assert [] + picked == picked && [] + (picked + inputs0[|picked|..]) == inputs0;
      BoundaryFilesJoin(current.files[level], [], picked, inputs0[|picked|..]);
      ParentsJoin(current.files[level + 1], inputs0, inputs1);
    }

    lemma ExpandedHasNoGap(level: nat, inputs0: seq<FileMeta>, inputs1: seq<FileMeta>, lo: Option<UserKey>, hi: Option<UserKey>,
                           overlaps: seq<FileMeta>, expanded0: seq<FileMeta>)
      requires Valid() && level + 1 < NUM_LEVELS && inputs0 != [] && GapFree(inputs0 + inputs1)
      requires forall f :: f in inputs0 ==> f in current.files[level] && f in overlaps
      requires forall f :: f in inputs1 ==> f in current.files[level + 1]
      requires SearchRange(level, current.files[level], Some(LowUser(inputs0 + inputs1)), Some(HighUser(inputs0 + inputs1)), lo, hi)
      requires overlaps == Overlapping(current.files[level], lo, hi)
      requires overlaps <= expanded0 && BoundaryChain(current.files[level], overlaps, expanded0[|overlaps|..])
      ensures GapFree(expanded0 + inputs1)
    {
      hide GapFree, SearchRange, BoundaryChain;
      var all := inputs0 + inputs1;
      OverlappingMembers(current.files[level], lo, hi);
      FoundFilesJoin(level, current.files[level], all, lo, hi);
      BoundaryFilesJoin(current.files[level], all, overlaps, expanded0[|overlaps|..]);
      assert overlaps + expanded0[|overlaps|..] == expanded0;
      SameFiles(all + expanded0, expanded0 + inputs1);
    }
  }

  lemma LoneFileIsRun(files: seq<FileMeta>, file: FileMeta)
    requires file in files
    ensures exists i: nat, j: nat :: IsRun(files, [file], i, j)
  {
    var i :| 0 <= i < |files| && files[i] == file;
    assert files[i..i + 1] == [file];
    assert IsRun(files, [file], i, i + 1);
  }

  /** The shortest prefix whose files reach `limit` bytes, or all of them. */
  method PrefixOfSize(files: seq<FileMeta>, limit: nat) returns (n: nat)
    requires files != []
    ensures 0 < n <= |files|
    ensures ReachesLimit(files, limit, n)
  {
    var total := 0;
    n := 0;
    while n < |files|
      invariant 0 <= n <= |files| && total == TotalFileSize(files[..n])
      invariant forall i :: 0 < i <= n ==> TotalFileSize(files[..i]) < limit
    {
      assert files[..n + 1] == files[..n] + [files[n]];
      TotalFileSizeConcat(files[..n], [files[n]]);
      total := total + files[n].fileSize;
      n := n + 1;
      if total >= limit {
        return;
      }
    }
  }

  lemma PrefixIsRun(files: seq<FileMeta>, inputs: seq<FileMeta>, n: nat)
    requires exists i: nat, j: nat :: IsRun(files, inputs, i, j)
    requires 0 < n <= |inputs|
    ensures exists i: nat, j: nat :: IsRun(files, inputs[..n], i, j)
  {
    var i: nat, j: nat :| IsRun(files, inputs, i, j);
    assert IsRun(files, inputs[..n], i, i + n);
  }

  lemma OverlappingIsPicked(files: seq<FileMeta>, level: nat, begin: Option<UserKey>, end: Option<UserKey>,
                            lo: Option<UserKey>, hi: Option<UserKey>)
    requires ValidFiles(files) && (level > 0 ==> Disjoint(files))
    requires SearchRange(level, files, begin, end, lo, hi)
    requires Overlapping(files, lo, hi) != []
    ensures Picked(files, level, Overlapping(files, lo, hi))
  {
    OverlappingMembers(files, lo, hi);
    if level == 0 {
      assert SelfContained(files, Overlapping(files, lo, hi), lo, hi);
    } else {
      var i, j := OverlappingIsSlice(files, lo, hi);
      assert IsRun(files, Overlapping(files, lo, hi), i, j);
    }
  }

  /** Inputs that take in more files but the same number of parents have the same parents. */
  lemma SameParents(parentFiles: seq<FileMeta>, inputs: seq<FileMeta>, parents: seq<FileMeta>,
                    wider: seq<FileMeta>, widerParents: seq<FileMeta>)
    requires ParentsOf(parentFiles, inputs, parents) && ParentsOf(parentFiles, wider, widerParents)
    requires forall f :: f in inputs ==> f in wider
    ensures |parents| == |widerParents| <==> ParentsOf(parentFiles, wider, parents)
  {
    UserHull(inputs);
    UserHull(wider);
    OverlappingMonotone(parentFiles, LowUser(inputs), HighUser(inputs), LowUser(wider), HighUser(wider));
  }

  lemma {:induction false} ChainStepAt(files: seq<FileMeta>, picked: seq<FileMeta>, added: seq<FileMeta>, n: nat)
    requires BoundaryChain(files, picked, added) && n < |added|
    ensures BoundaryChain(files, picked, added[..n]) && ChainStep(files, picked + added[..n], added[n])
    decreases added
  {
    var last := |added| - 1;
    if n < last {
      ChainStepAt(files, picked, added[..last], n);
      assert added[..last][..n] == added[..n];
    }
  }

  lemma RunExtendsOnce(files: seq<FileMeta>, picked: seq<FileMeta>, i: nat, j: nat, a: seq<FileMeta>, b: seq<FileMeta>)
    requires ValidFiles(files) && Disjoint(files) && IsRun(files, picked, i, j)
    requires Extends(files, picked, a) && Extends(files, picked, b)
    ensures |a| >= |b|
  {
    hide NoBoundaryLeft, ChainStep;
    var more, less := b[|picked|..], a[|picked|..];
    assert picked + less == a && picked + more == b;
    RunBecomesClean(files, picked, i, j, less);
    if |less| < |more| {
      var n := |less|;
      ChainStepAt(files, picked, more, n);
      ChainExtendsRun(files, picked, i, j, more[..n]);
      StepStraddles(files, picked + more[..n], i, j + n, more[n]);
    }
  }

  lemma StepStraddles(files: seq<FileMeta>, run: seq<FileMeta>, i: nat, j: nat, f: FileMeta)
    requires ValidFiles(files) && Disjoint(files) && IsRun(files, run, i, j) && ChainStep(files, run, f)
    ensures Straddles(files, j)
  {
    var key :| IsLargest(run, key) && SmallestBoundary(files, key, f);
    var m :| 0 <= m < |files| && files[m] == f;
    NextIsBoundary(files, i, j, key, m);
  }

  /** Picked files have one extension by boundary files. */
  lemma ExtendsOnce(files: seq<FileMeta>, level: nat, picked: seq<FileMeta>, a: seq<FileMeta>, b: seq<FileMeta>)
    requires ValidFiles(files) && (level > 0 ==> Disjoint(files)) && Picked(files, level, picked)
    requires Extends(files, picked, a) && Extends(files, picked, b)
    ensures a == b
  {
    hide NoBoundaryLeft, BoundaryChain;
    assert picked + a[|picked|..] == a && picked + b[|picked|..] == b;
    if level == 0 {
      var lo, hi :| SelfContained(files, picked, lo, hi);
      SelfContainedStays(files, picked, lo, hi, a[|picked|..]);
      SelfContainedStays(files, picked, lo, hi, b[|picked|..]);
    } else {
      var i: nat, j: nat :| IsRun(files, picked, i, j);
      RunExtendsOnce(files, picked, i, j, a, b);
      RunExtendsOnce(files, picked, i, j, b, a);
      ChainExtendsRun(files, picked, i, j, a[|picked|..]);
      ChainExtendsRun(files, picked, i, j, b[|picked|..]);
    }
  }

  /** A range has one set of files. */
  lemma FoundOnce(level: nat, files: seq<FileMeta>, begin: Option<UserKey>, end: Option<UserKey>, a: seq<FileMeta>, b: seq<FileMeta>)
    requires FoundInRange(level, files, begin, end, a) && FoundInRange(level, files, begin, end, b)
    ensures a == b
  {
    hide ClosedRange;
    var lo, hi :| SearchRange(level, files, begin, end, lo, hi) && a == Overlapping(files, lo, hi);
    var low, high :| SearchRange(level, files, begin, end, low, high) && b == Overlapping(files, low, high);
    if level == 0 {
      assert Contains(lo, hi, low, high) && Contains(low, high, lo, hi);
    }
  }

  lemma ReachesOnce(level: nat, files: seq<FileMeta>, inputs: seq<FileMeta>, a: seq<FileMeta>, b: seq<FileMeta>)
    requires ValidFiles(files) && (level > 0 ==> Disjoint(files))
    requires (exists f :: f in inputs && f in files) && ValidFiles(inputs)
    requires Reaches(level, files, inputs, a) && Reaches(level, files, inputs, b)
    ensures a == b
  {
    hide FoundInRange, Extends;
    var low, high := Some(LowUser(inputs)), Some(HighUser(inputs));
    var found :| FoundInRange(level, files, low, high, found) && Extends(files, found, a);
    var other :| FoundInRange(level, files, low, high, other) && Extends(files, other, b);
    FoundOnce(level, files, low, high, found, other);
    FoundIsPicked(level, files, inputs, found);
    ExtendsOnce(files, level, found, a, b);
  }

  lemma FoundIsPicked(level: nat, files: seq<FileMeta>, inputs: seq<FileMeta>, found: seq<FileMeta>)
    requires ValidFiles(files) && (level > 0 ==> Disjoint(files))
    requires (exists f :: f in inputs && f in files) && ValidFiles(inputs)
    requires inputs != [] && FoundInRange(level, files, Some(LowUser(inputs)), Some(HighUser(inputs)), found)
    ensures Picked(files, level, found)
  {
    var low, high := Some(LowUser(inputs)), Some(HighUser(inputs));
    var lo, hi :| SearchRange(level, files, low, high, lo, hi) && found == Overlapping(files, lo, hi);
    UserHull(inputs);
    var f :| f in inputs && f in files;
    FileEndsInOrder(f);
    OverlappingMembers(files, lo, hi);
    assert f in found;
    OverlappingIsPicked(files, level, low, high, lo, hi);
  }

  /** What a compaction starts from leaves one choice of inputs. */
  lemma SetUpOnce(v: Version, level: nat, maxFileSize: nat, picked: seq<FileMeta>, a0: seq<FileMeta>, a1: seq<FileMeta>,
                  b0: seq<FileMeta>, b1: seq<FileMeta>)
    requires WellFormed(v) && level + 1 < NUM_LEVELS && Picked(v.files[level], level, picked)
    requires IsSetUp(v, level, maxFileSize, picked, a0, a1) && IsSetUp(v, level, maxFileSize, picked, b0, b1)
    ensures a0 == b0 && a1 == b1
  {
    hide Extends, Picked, Reaches, Pays, CleanlyPicked;
    var files := v.files[level];
    var clean :| Extends(files, picked, clean) && ParentsOf(v.files[level + 1], clean, a1) &&
                 IsWidened(v, level, maxFileSize, clean, a1, a0);
    var other :| Extends(files, picked, other) && ParentsOf(v.files[level + 1], other, b1) &&
                 IsWidened(v, level, maxFileSize, other, b1, b0);
    ExtendsOnce(files, level, picked, clean, other);
    if a1 != [] {
      ExtendsCleanly(files, level, picked, clean);
      PickedMembers(files, level, clean);
      OverlappingMembers(v.files[level + 1], Some(LowUser(clean)), Some(HighUser(clean)));
      assert clean[0] in clean + a1 && clean[0] in files;
      var wide :| Reaches(level, files, clean + a1, wide) &&
                  a0 == if Pays(v.files[level + 1], clean, a1, wide, maxFileSize) then wide else clean;
      var wider :| Reaches(level, files, clean + a1, wider) &&
                   b0 == if Pays(v.files[level + 1], clean, a1, wider, maxFileSize) then wider else clean;
      ReachesOnce(level, files, clean + a1, wide, wider);
    }
  }

  lemma ExtendsCleanly(files: seq<FileMeta>, level: nat, picked: seq<FileMeta>, clean: seq<FileMeta>)
    requires ValidFiles(files) && (level > 0 ==> Disjoint(files)) && Picked(files, level, picked)
    requires Extends(files, picked, clean)
    ensures CleanlyPicked(files, level, clean)
  {
    hide Picked, CleanlyPicked, NoBoundaryLeft, BoundaryChain;
    BoundaryMakesClean(files, level, picked, clean);
  }
}
