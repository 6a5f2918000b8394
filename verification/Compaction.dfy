/** A compaction and the questions it answers while it runs (db/version_set.cc). */
module Compactions {
  import opened DbFormat
  import opened Reads
  import opened Files
  import opened Versions
  import opened InputSelection

  ghost predicate CoveredBy(files: seq<FileMeta>, k: UserKey) {
    exists f :: f in files && Covers(f, k)
  }

  /** No file deeper than the output level of a compaction at `level` covers `k`. */
  ghost predicate BaseLevelForKey(v: Version, level: nat, k: UserKey)
    requires |v.files| == NUM_LEVELS
  {
    forall l :: level + 2 <= l < NUM_LEVELS ==> !CoveredBy(v.files[l], k)
  }

  ghost predicate PassedBefore(files: seq<FileMeta>, ptr: nat, k: UserKey) {
    ptr <= |files| && forall f :: f in files[..ptr] ==> f.largest.user < k
  }

  lemma NotCovered(files: seq<FileMeta>, ptr: nat, k: UserKey)
    requires ValidFiles(files) && Disjoint(files)
    requires PassedBefore(files, ptr, k)
    requires ptr < |files| ==> k < files[ptr].smallest.user
    ensures !CoveredBy(files, k)
  {
    forall f | f in files ensures !Covers(f, k) {
      var i :| 0 <= i < |files| && files[i] == f;
      if i < ptr {
        assert files[..ptr][i] == f;
      } else if i > ptr {
        LargestAscends(files, ptr, i);
      }
    }
  }

  lemma {:induction false} TotalFileSizeConcat(files: seq<FileMeta>, more: seq<FileMeta>)
    ensures TotalFileSize(files + more) == TotalFileSize(files) + TotalFileSize(more)
  {
    if files == [] {
      assert [] + more == more;
    } else {
      assert (files + more)[1..] == files[1..] + more;
      TotalFileSizeConcat(files[1..], more);
    }
  }

  lemma NoSize()
    ensures TotalFileSize([]) == 0
  {
  }

  lemma {:induction false} OverlappingIsSmaller(files: seq<FileMeta>, lo: Option<UserKey>, hi: Option<UserKey>)
    ensures TotalFileSize(Overlapping(files, lo, hi)) <= TotalFileSize(files)
  {
    hide TotalFileSize, Overlaps;
    if files != [] {
      var n := |files| - 1;
      var last := if Overlaps(files[n], lo, hi) then [files[n]] else [];
      OverlappingIsSmaller(files[..n], lo, hi);
      TotalFileSizeConcat(Overlapping(files[..n], lo, hi), last);
      TotalFileSizeConcat(files[..n], [files[n]]);
      NoSize();
      assert files == files[..n] + [files[n]];
    }
  }

  /** The inputs of a compaction as SetupOtherInputs leaves them. */
  ghost predicate Selected(v: Version, level: nat, inputs0: seq<FileMeta>, inputs1: seq<FileMeta>) {
    && WellFormed(v) && level + 1 < NUM_LEVELS
    && CleanlyPicked(v.files[level], level, inputs0)
    && ParentsOf(v.files[level + 1], inputs0, inputs1)
  }

  /** The files two levels down that meet the whole range of a compaction. */
  ghost function GrandparentsOf(v: Version, level: nat, inputs0: seq<FileMeta>, inputs1: seq<FileMeta>): seq<FileMeta>
  {
    var inputs := inputs0 + inputs1;
    if inputs == [] || level + 2 >= |v.files| then []
    else Overlapping(v.files[level + 2], Some(LowUser(inputs)), Some(HighUser(inputs)))
  }

  class Compaction {
    const level: nat
    const maxFileSize: nat
    const inputVersion: Version
    const levelPtrs: array<nat>
    var inputs0: seq<FileMeta>
    var inputs1: seq<FileMeta>
    var grandparents: seq<FileMeta>
    var grandparentIndex: nat
    var seenKey: bool
    var overlappedBytes: nat

    constructor (level: nat, maxFileSize: nat, version: Version, inputs: seq<FileMeta>)
      requires WellFormed(version) && level + 1 < NUM_LEVELS
      ensures this.level == level && this.maxFileSize == maxFileSize && inputVersion == version
      ensures inputs0 == inputs && inputs1 == [] && grandparents == []
      ensures grandparentIndex == 0 && !seenKey && overlappedBytes == 0
      ensures fresh(levelPtrs) && levelPtrs.Length == NUM_LEVELS
      ensures forall l :: 0 <= l < NUM_LEVELS ==> levelPtrs[l] == 0
    {
      this.level, this.maxFileSize, inputVersion := level, maxFileSize, version;
      inputs0, inputs1, grandparents := inputs, [], [];
      grandparentIndex, seenKey, overlappedBytes := 0, false, 0;
      levelPtrs := new nat[NUM_LEVELS](_ => 0);
    }

    ghost predicate IsSelected()
      reads this
    {
      Selected(inputVersion, level, inputs0, inputs1)
    }

    /** A lone file with nothing to merge it with may just be moved down. */
    predicate IsTrivialMove()
      reads this
    {
      |inputs0| == 1 && |inputs1| == 0 && FewGrandparents()
    }

    /** Every file the level pointers have passed lies wholly before `k`. */
    ghost predicate PointersBehind(k: UserKey)
      requires WellFormed(inputVersion)
      reads levelPtrs
    {
      && levelPtrs.Length == NUM_LEVELS
      && forall l :: level + 2 <= l < NUM_LEVELS ==> PassedBefore(inputVersion.files[l], levelPtrs[l], k)
    }

    /** Is there no file below level + 1 whose range covers `k`?  Keys must be asked in ascending order,
        because the level pointers only move forward. */
    method IsBaseLevelForKey(k: UserKey) returns (isBase: bool)
      requires WellFormed(inputVersion) && PointersBehind(k)
      modifies levelPtrs
      ensures PointersBehind(k)
      ensures isBase <==> BaseLevelForKey(inputVersion, level, k)
    {
      var lvl := level + 2;
      while lvl < NUM_LEVELS
        invariant level + 2 <= lvl
        invariant PointersBehind(k)
        invariant forall l :: level + 2 <= l < NUM_LEVELS && l < lvl ==> !CoveredBy(inputVersion.files[l], k)
      {
        var files := inputVersion.files[lvl];
        while levelPtrs[lvl] < |files|
          invariant PointersBehind(k)
          decreases |files| - levelPtrs[lvl]
        {
          var f := files[levelPtrs[lvl]];
          if k <= f.largest.user {
            if k >= f.smallest.user {
              assert f in files && Covers(f, k);
              return false;
            }
            break;
          }
          levelPtrs[lvl] := levelPtrs[lvl] + 1;
        }
        NotCovered(files, levelPtrs[lvl], k);
        lvl := lvl + 1;
      }
      return true;
    }

    /** Too few bytes two levels down to ever cut an output for them. */
    predicate FewGrandparents()
      reads this
    {
      TotalFileSize(grandparents) <= 10 * maxFileSize
    }

    /** Cut the output before a key once it would overlap too many grandparent bytes. */
    method ShouldStopBefore(key: InternalKey) returns (stop: bool)
      requires grandparentIndex <= |grandparents|
      modifies `grandparentIndex, `seenKey, `overlappedBytes
      ensures old(grandparentIndex) <= grandparentIndex <= |grandparents| && seenKey
      ensures forall g :: g in grandparents[old(grandparentIndex)..grandparentIndex] ==> Less(g.largest, key)
      ensures grandparentIndex < |grandparents| ==> !Less(grandparents[grandparentIndex].largest, key)
      ensures var passed := if old(seenKey)
                            then TotalFileSize(grandparents[old(grandparentIndex)..grandparentIndex]) else 0;
              && (stop <==> old(overlappedBytes) + passed > 10 * maxFileSize)
              && overlappedBytes == if stop then 0 else old(overlappedBytes) + passed
    {
      ghost var start := grandparentIndex;
      while grandparentIndex < |grandparents| && Less(grandparents[grandparentIndex].largest, key)
        invariant start <= grandparentIndex <= |grandparents|
        invariant forall g :: g in grandparents[start..grandparentIndex] ==> Less(g.largest, key)
        invariant seenKey == old(seenKey)
        invariant overlappedBytes == old(overlappedBytes) +
                  if old(seenKey) then TotalFileSize(grandparents[start..grandparentIndex]) else 0
      {
        ghost var passed := grandparents[start..grandparentIndex];
        assert grandparents[start..grandparentIndex + 1] == passed + [grandparents[grandparentIndex]];
        TotalFileSizeConcat(passed, [grandparents[grandparentIndex]]);
        if seenKey {
          overlappedBytes := overlappedBytes + grandparents[grandparentIndex].fileSize;
        }
        grandparentIndex := grandparentIndex + 1;
      }
      seenKey := true;
      if overlappedBytes > 10 * maxFileSize {
        overlappedBytes := 0;
        return true;
      }
      return false;
    }
  }
}
