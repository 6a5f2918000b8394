/** Version edits and the builder that folds them into a version (db/version_set.cc, db/version_edit.h). */
module Builders {
  import opened DbFormat
  import opened Files
  import opened Versions

  datatype VersionEdit = VersionEdit(deletedFiles: set<(nat, nat)>, newFiles: seq<(nat, FileMeta)>)

  /** What one edit, taken by itself, does to the files of a level. */
  ghost function ApplyEdit(files: set<FileMeta>, edit: VersionEdit, level: nat): set<FileMeta> {
    (set f | f in files && (level, f.number) !in edit.deletedFiles) + AddedAt(edit.newFiles, level)
  }

  ghost function AddedAt(newFiles: seq<(nat, FileMeta)>, level: nat): set<FileMeta> {
    set p | p in newFiles && p.0 == level :: p.1
  }

  ghost function FoldEdits(files: set<FileMeta>, edits: seq<VersionEdit>, level: nat): set<FileMeta> {
    if edits == [] then files
    else ApplyEdit(FoldEdits(files, edits[..|edits| - 1], level), edits[|edits| - 1], level)
  }

  ghost function MembersOf(files: seq<FileMeta>): set<FileMeta> {
    set f | f in files
  }

  /** All files of `files` come before `f`. */
  ghost predicate AllBefore(files: seq<FileMeta>, f: FileMeta) {
    forall x :: x in files ==> BySmallest(x, f)
  }

  /** Insertion into the ordered set of added files; an equivalent file is already there or takes its place. */
  method InsertAdded(files: seq<FileMeta>, f: FileMeta) returns (r: seq<FileMeta>)
    requires SortedBySmallest(files)
    requires forall g :: g in files && g.number == f.number ==> g == f
    ensures SortedBySmallest(r)
    ensures MembersOf(r) == MembersOf(files) + {f}
  {
    var i := 0;
    while i < |files| && BySmallest(files[i], f)
      invariant 0 <= i <= |files|
      invariant AllBefore(files[..i], f)
    {
      assert files[..i + 1] == files[..i] + [files[i]];
      i := i + 1;
    }
    if i < |files| && !BySmallest(f, files[i]) {
      assert files[i] in files;
      return files;
    }
    r := files[..i] + [f] + files[i..];
    SplicedIsSorted(files, i, f);
    assert files == files[..i] + files[i..];
  }

  lemma SplicedIsSorted(files: seq<FileMeta>, i: nat, f: FileMeta)
    requires SortedBySmallest(files) && i <= |files| && AllBefore(files[..i], f)
    requires i < |files| ==> BySmallest(f, files[i])
    ensures SortedBySmallest(files[..i] + [f] + files[i..])
  {
    var r := files[..i] + [f] + files[i..];
    forall a, b | 0 <= a < b < |r| ensures Ascend(r, a, b) {
      var x := if a < i then a else a - 1;
      var y := if b < i then b else b - 1;
      if a < i {
        assert r[a] == files[..i][a];
        assert BySmallest(r[a], f);
      }
      if a != i && b != i {
        assert Ascend(files, x, y);
      } else if a == i && y > i {
        assert Ascend(files, i, y);
      }
    }
  }

  lemma AppendedIsSorted(files: seq<FileMeta>, f: FileMeta)
    requires SortedBySmallest(files) && AllBefore(files, f)
    ensures SortedBySmallest(files + [f])
  {
    forall a, b | 0 <= a < b < |files + [f]| ensures Ascend(files + [f], a, b) {
      if b < |files| {
        assert Ascend(files, a, b);
      } else {
        assert files[a] in files;
      }
    }
  }

  ghost function Live(files: seq<FileMeta>, deleted: set<nat>): set<FileMeta> {
    set f | f in files && f.number !in deleted
  }

  /** MaybeAddFile: append unless deleted. */
  method MaybeAddFile(files: seq<FileMeta>, deleted: set<nat>, f: FileMeta) returns (r: seq<FileMeta>)
    requires SortedBySmallest(files) && AllBefore(files, f)
    ensures SortedBySmallest(r)
    ensures MembersOf(r) == MembersOf(files) + Live([f], deleted)
    ensures forall g :: AllBefore(files, g) && BySmallest(f, g) ==> AllBefore(r, g)
  {
    if f.number in deleted {
      r := files;
    } else {
      AppendedIsSorted(files, f);
      r := files + [f];
    }
  }

  lemma NextAscends(files: seq<FileMeta>, i: nat)
    requires SortedBySmallest(files) && i + 1 < |files|
    ensures BySmallest(files[i], files[i + 1])
  {
    assert Ascend(files, i, i + 1);
  }

  lemma LiveStep(files: seq<FileMeta>, i: nat, deleted: set<nat>)
    requires i < |files|
    ensures Live(files[..i + 1], deleted) == Live(files[..i], deleted) + Live([files[i]], deleted)
  {
    assert files[..i + 1] == files[..i] + [files[i]];
  }

  /** Copy the base files from position `from` on that do not come after `limit`. */
  method CopyBase(base: seq<FileMeta>, deleted: set<nat>, from: nat, limit: Option<FileMeta>, files: seq<FileMeta>)
    returns (b: nat, r: seq<FileMeta>)
    requires SortedBySmallest(base) && SortedBySmallest(files) && from <= |base|
    requires from < |base| ==> AllBefore(files, base[from])
    requires limit.Some? ==> AllBefore(files, limit.value) && forall f :: f in base ==> f.number != limit.value.number
    ensures from <= b <= |base| && SortedBySmallest(r)
    ensures MembersOf(r) == MembersOf(files) + Live(base[from..b], deleted)
    ensures b < |base| ==> AllBefore(r, base[b]) && limit.Some? && BySmallest(limit.value, base[b])
    ensures limit.Some? ==> AllBefore(r, limit.value)
  {
    b, r := from, files;
    while b < |base| && (limit.None? || !BySmallest(limit.value, base[b]))
      invariant from <= b <= |base| && SortedBySmallest(r)
      invariant MembersOf(r) == MembersOf(files) + Live(base[from..b], deleted)
      invariant b < |base| ==> AllBefore(r, base[b])
      invariant limit.Some? ==> AllBefore(r, limit.value)
    {
      assert base[b] in base;
      assert base[from..b + 1] == base[from..b] + [base[b]];
      if b + 1 < |base| {
        NextAscends(base, b);
        BeforeTransitive(r, base[b], base[b + 1]);
      }
      r := MaybeAddFile(r, deleted, base[b]);
      b := b + 1;
    }
  }

  /** SaveTo for one level: merge the base files with the added files and leave out the deleted ones. */
  method SaveLevel(base: seq<FileMeta>, deleted: set<nat>, added: seq<FileMeta>) returns (files: seq<FileMeta>)
    requires LevelValid(base, added)
    ensures SortedBySmallest(files)
    ensures MembersOf(files) == Live(base, deleted) + Live(added, deleted)
  {
    files := [];
    var b := 0;
    for a := 0 to |added|
      invariant 0 <= b <= |base|
      invariant SortedBySmallest(files)
      invariant MembersOf(files) == Live(base[..b], deleted) + Live(added[..a], deleted)
      invariant b < |base| ==> AllBefore(files, base[b])
      invariant a < |added| ==> AllBefore(files, added[a])
    {
      ghost var start := b;
      assert added[a] in added;
      b, files := CopyBase(base, deleted, b, Some(added[a]), files);
      LiveConcat(base, start, b, deleted);
      LiveStep(added, a, deleted);
      if a + 1 < |added| {
        NextAscends(added, a);
        BeforeTransitive(files, added[a], added[a + 1]);
      }
      files := MaybeAddFile(files, deleted, added[a]);
    }
    LiveConcat(base, b, |base|, deleted);
    b, files := CopyBase(base, deleted, b, None, files);
    assert base[..|base|] == base && added[..|added|] == added;
  }

  lemma LiveConcat(files: seq<FileMeta>, i: nat, j: nat, deleted: set<nat>)
    requires i <= j <= |files|
    ensures Live(files[..j], deleted) == Live(files[..i], deleted) + Live(files[i..j], deleted)
  {
    assert files[..j] == files[..i] + files[i..j];
  }

  lemma BeforeTransitive(files: seq<FileMeta>, f: FileMeta, g: FileMeta)
    requires AllBefore(files, f) && BySmallest(f, g)
    ensures AllBefore(files, g)
  {
  }

  class Builder {
    const base: Version
    var deletedFiles: seq<set<nat>>
    var addedFiles: seq<seq<FileMeta>>

    ghost predicate Valid()
      reads this
    {
      && |base.files| == NUM_LEVELS && |deletedFiles| == NUM_LEVELS && |addedFiles| == NUM_LEVELS
      && forall l :: 0 <= l < NUM_LEVELS ==> LevelValid(base.files[l], addedFiles[l])
    }

    /** The files of a level after the edits applied so far. */
    ghost function Current(level: nat): set<FileMeta>
      requires Valid() && level < NUM_LEVELS
      reads this
    {
      Live(base.files[level], deletedFiles[level]) + Live(addedFiles[level], deletedFiles[level])
    }

    constructor (base: Version)
      requires |base.files| == NUM_LEVELS && forall l :: 0 <= l < NUM_LEVELS ==> SortedBySmallest(base.files[l])
      ensures Valid() && this.base == base
      ensures forall l :: 0 <= l < NUM_LEVELS ==> addedFiles[l] == []
      ensures forall l :: 0 <= l < NUM_LEVELS ==> Current(l) == MembersOf(base.files[l])
    {
      this.base := base;
      deletedFiles := seq(NUM_LEVELS, _ => {});
      addedFiles := seq(NUM_LEVELS, _ => []);
    }

    /** The version that the edits applied so far lead to. */
    method SaveTo() returns (v: Version)
      requires Valid()
      ensures |v.files| == NUM_LEVELS
      ensures forall l :: 0 <= l < NUM_LEVELS ==> SortedBySmallest(v.files[l]) && MembersOf(v.files[l]) == Current(l)
    {
      hide SortedBySmallest, LevelValid, Live, MembersOf;
      var files: seq<seq<FileMeta>> := [];
      for l := 0 to NUM_LEVELS
        invariant |files| == l
        invariant forall m :: 0 <= m < l ==> SortedBySmallest(files[m]) && MembersOf(files[m]) == Current(m)
      {
        var level := SaveLevel(base.files[l], deletedFiles[l], addedFiles[l]);
        files := files + [level];
      }
      v := Version(files);
    }

    /** Make the number of `f` count as not deleted and put `f` among the added files. */
    method AddFile(level: nat, f: FileMeta)
      requires Valid() && level < NUM_LEVELS && FreshAt(base.files[level], addedFiles[level], f)
      modifies this
      ensures Valid()
      ensures Current(level) == old(Current(level)) + {f}
      ensures MembersOf(addedFiles[level]) == old(MembersOf(addedFiles[level])) + {f}
      ensures forall l :: 0 <= l < NUM_LEVELS && l != level ==> Current(l) == old(Current(l))
      ensures deletedFiles == old(deletedFiles)[level := deletedFiles[level]]
      ensures addedFiles == old(addedFiles)[level := addedFiles[level]]
    {
      var files := InsertAdded(addedFiles[level], f);
      AddingMakesLive(base.files[level], deletedFiles[level], addedFiles[level], files, f);
      deletedFiles := deletedFiles[level := deletedFiles[level] - {f.number}];
      addedFiles := addedFiles[level := files];
    }

    method DeleteFiles(deleted: set<(nat, nat)>)
      requires Valid()
      modifies this`deletedFiles
      ensures Valid()
      ensures forall l :: 0 <= l < NUM_LEVELS ==>
                Current(l) == set f | f in old(Current(l)) && (l, f.number) !in deleted
    {
      var deletedNow := deletedFiles;
      for l := 0 to NUM_LEVELS
        invariant |deletedNow| == NUM_LEVELS
        invariant forall m :: 0 <= m < NUM_LEVELS ==>
                    deletedNow[m] == if m < l then deletedFiles[m] + NumbersAt(deleted, m) else deletedFiles[m]
      {
        deletedNow := deletedNow[l := deletedNow[l] + NumbersAt(deleted, l)];
      }
      deletedFiles := deletedNow;
    }

    /** Apply one edit: first the deletions, then the additions. */
    method Apply(edit: VersionEdit)
      requires Valid()
      requires forall p :: p in edit.newFiles ==> p.0 < NUM_LEVELS && FreshAt(base.files[p.0], addedFiles[p.0], p.1)
      requires ConsistentAdds(edit.newFiles)
      modifies this
      ensures Valid()
      ensures forall l :: 0 <= l < NUM_LEVELS ==> Current(l) == ApplyEdit(old(Current(l)), edit, l)
      ensures forall l :: 0 <= l < NUM_LEVELS ==>
                MembersOf(addedFiles[l]) == old(MembersOf(addedFiles[l])) + AddedAt(edit.newFiles, l)
    {
      hide LevelValid, Live, AddedAt, ConsistentAdds, MembersOf, FreshAt;
      ghost var addedBefore := addedFiles;
      DeleteFiles(edit.deletedFiles);
      NothingAdded(edit.newFiles);
      label Deleted:
      for i := 0 to |edit.newFiles|
        invariant Valid() && addedBefore == old(addedFiles)
        invariant forall l :: 0 <= l < NUM_LEVELS ==>
                    Current(l) == old@Deleted(Current(l)) + AddedAt(edit.newFiles[..i], l)
        invariant forall l :: 0 <= l < NUM_LEVELS ==>
                    MembersOf(addedFiles[l]) == MembersOf(addedBefore[l]) + AddedAt(edit.newFiles[..i], l)
      {
        var level, f := edit.newFiles[i].0, edit.newFiles[i].1;
        assert edit.newFiles[i] in edit.newFiles;
        StaysFresh(edit.newFiles, i, base.files[level], addedBefore[level], addedFiles[level]);
        AddFile(level, f);
        AddedStep(edit.newFiles, i);
      }
      assert edit.newFiles[..|edit.newFiles|] == edit.newFiles;
    }
  }

  /** `v` holds, level by level and in order, the files that folding `edits` over `base` leaves. */
  ghost predicate IsFold(v: Version, base: Version, edits: seq<VersionEdit>) {
    && |base.files| == NUM_LEVELS && |v.files| == NUM_LEVELS
    && forall l :: 0 <= l < NUM_LEVELS ==>
         SortedBySmallest(v.files[l]) && MembersOf(v.files[l]) == FoldEdits(MembersOf(base.files[l]), edits, l)
  }

  ghost function AddedByEdits(edits: seq<VersionEdit>, level: nat): set<FileMeta> {
    set e, f | e in edits && f in AddedAt(e.newFiles, level) :: f
  }

  /** File numbers are not reused: a number added at a level is new to the base and always names one file. */
  ghost predicate NumbersNotReused(base: seq<FileMeta>, added: set<FileMeta>) {
    && (forall f, g :: f in base && g in added ==> f.number != g.number)
    && (forall f, g :: f in added && g in added && f.number == g.number ==> f == g)
  }

  ghost predicate EditsApply(base: Version, edits: seq<VersionEdit>)
    requires |base.files| == NUM_LEVELS
  {
    && (forall e, p :: e in edits && p in e.newFiles ==> p.0 < NUM_LEVELS)
    && forall l :: 0 <= l < NUM_LEVELS ==> NumbersNotReused(base.files[l], AddedByEdits(edits, l))
  }

  /** The replay loop of VersionSet::Recover: apply every edit to one builder, then save once. */
  method ReplayEdits(base: Version, edits: seq<VersionEdit>) returns (v: Version)
    requires |base.files| == NUM_LEVELS && forall l :: 0 <= l < NUM_LEVELS ==> SortedBySmallest(base.files[l])
    requires EditsApply(base, edits)
    ensures IsFold(v, base, edits)
  {
    var builder := new Builder(base);
    for i := 0 to |edits|
      invariant builder.base == base && builder.Valid() && fresh(builder)
      invariant forall l :: 0 <= l < NUM_LEVELS ==>
                  builder.Current(l) == FoldEdits(MembersOf(base.files[l]), edits[..i], l)
      invariant forall l :: 0 <= l < NUM_LEVELS ==> MembersOf(builder.addedFiles[l]) == AddedByEdits(edits[..i], l)
    {
      assert edits[..i + 1] == edits[..i] + [edits[i]] && edits[..i + 1][..i] == edits[..i];
      ReadyForEdit(base, edits, i, builder.addedFiles);
      builder.Apply(edits[i]);
    }
    assert edits[..|edits|] == edits;
    v := builder.SaveTo();
  }

  lemma ReadyForEdit(base: Version, edits: seq<VersionEdit>, i: nat, added: seq<seq<FileMeta>>)
    requires |base.files| == NUM_LEVELS && |added| == NUM_LEVELS && i < |edits|
    requires EditsApply(base, edits)
    requires forall l :: 0 <= l < NUM_LEVELS ==> MembersOf(added[l]) == AddedByEdits(edits[..i], l)
    ensures ConsistentAdds(edits[i].newFiles)
    ensures forall p :: p in edits[i].newFiles ==> p.0 < NUM_LEVELS && FreshAt(base.files[p.0], added[p.0], p.1)
  {
    var e := edits[i];
    assert e in edits;
    forall p | p in e.newFiles ensures p.0 < NUM_LEVELS && p.1 in AddedByEdits(edits, p.0) {
      assert p.1 in AddedAt(e.newFiles, p.0);
    }
    forall p, g | p in e.newFiles && g in added[p.0] ensures g in AddedByEdits(edits, p.0) {
      assert g in MembersOf(added[p.0]);
      assert forall x :: x in edits[..i] ==> x in edits;
    }
    forall p, q | p in e.newFiles && q in e.newFiles && p.0 == q.0 && p.1.number == q.1.number ensures p.1 == q.1 {
      assert NumbersNotReused(base.files[p.0], AddedByEdits(edits, p.0));
    }
  }

  lemma NothingAdded(newFiles: seq<(nat, FileMeta)>)
    ensures forall l :: AddedAt(newFiles[..0], l) == {}
  {
  }

  lemma AddingMakesLive(base: seq<FileMeta>, deleted: set<nat>, added: seq<FileMeta>, extended: seq<FileMeta>,
                        f: FileMeta)
    requires FreshAt(base, added, f)
    requires MembersOf(extended) == MembersOf(added) + {f}
    ensures Live(base, deleted - {f.number}) + Live(extended, deleted - {f.number}) ==
            Live(base, deleted) + Live(added, deleted) + {f}
    ensures forall g, h :: g in base && h in extended && (forall x :: x in added ==> x.number != g.number) ==>
              g.number != h.number
  {
    forall h | h in extended ensures h in added || h == f {
      assert h in MembersOf(extended);
    }
    assert f in MembersOf(extended);
    forall g | g in added ensures g in extended {
      assert g in MembersOf(extended);
    }
  }

  lemma AddedStep(newFiles: seq<(nat, FileMeta)>, i: nat)
    requires i < |newFiles|
    ensures forall l :: AddedAt(newFiles[..i + 1], l) ==
                        AddedAt(newFiles[..i], l) + (if l == newFiles[i].0 then {newFiles[i].1} else {})
  {
    assert newFiles[..i + 1] == newFiles[..i] + [newFiles[i]];
  }

  lemma StaysFresh(newFiles: seq<(nat, FileMeta)>, i: nat, base: seq<FileMeta>, before: seq<FileMeta>,
                   added: seq<FileMeta>)
    requires i < |newFiles| && ConsistentAdds(newFiles)
    requires FreshAt(base, before, newFiles[i].1)
    requires MembersOf(added) == MembersOf(before) + AddedAt(newFiles[..i], newFiles[i].0)
    ensures FreshAt(base, added, newFiles[i].1)
  {
    forall g | g in added && g.number == newFiles[i].1.number ensures g == newFiles[i].1 {
      assert g in MembersOf(added);
      if g !in before {
        var p :| p in newFiles[..i] && p.0 == newFiles[i].0 && p.1 == g;
        assert p in newFiles && newFiles[i] in newFiles;
      }
    }
  }

  function NumbersAt(deleted: set<(nat, nat)>, level: nat): set<nat> {
    set p | p in deleted && p.0 == level :: p.1
  }

  ghost predicate LevelValid(base: seq<FileMeta>, added: seq<FileMeta>) {
    && SortedBySmallest(base) && SortedBySmallest(added)
    && forall f, g :: f in base && g in added ==> f.number != g.number
  }

  /** The number of `f` is new to the level, or names the same file as before. */
  ghost predicate FreshAt(base: seq<FileMeta>, added: seq<FileMeta>, f: FileMeta) {
    && (forall g :: g in base ==> g.number != f.number)
    && (forall g :: g in added && g.number == f.number ==> g == f)
  }

  ghost predicate ConsistentAdds(newFiles: seq<(nat, FileMeta)>) {
    forall p, q :: p in newFiles && q in newFiles && p.0 == q.0 && p.1.number == q.1.number ==> p.1 == q.1
  }

  /** Sorted levels with the same files are the same. */
  lemma {:induction false} SortedLevelIsUnique(a: seq<FileMeta>, b: seq<FileMeta>)
    requires SortedBySmallest(a) && SortedBySmallest(b) && MembersOf(a) == MembersOf(b)
    ensures a == b
    decreases a
  {
    SomeMember(a);
    SomeMember(b);
    if a != [] {
      var n := |a| - 1;
      assert a[n] in MembersOf(a);
      var m := |b| - 1;
      assert b[m] in MembersOf(b);
      LastIsGreatest(a, b[m]);
      LastIsGreatest(b, a[n]);
      assert a[n] == b[m];
      PrefixWithoutLast(a);
      PrefixWithoutLast(b);
      SortedLevelIsUnique(a[..n], b[..m]);
      assert a == a[..n] + [a[n]] && b == b[..m] + [b[m]];
    }
  }

  lemma SomeMember(files: seq<FileMeta>)
    ensures files != [] <==> MembersOf(files) != {}
  {
    assert files == [] || files[0] in MembersOf(files);
  }

  lemma LastIsGreatest(files: seq<FileMeta>, f: FileMeta)
    requires SortedBySmallest(files) && f in files
    ensures f == files[|files| - 1] || BySmallest(f, files[|files| - 1])
  {
    var i :| 0 <= i < |files| && files[i] == f;
    if i < |files| - 1 {
      assert Ascend(files, i, |files| - 1);
    }
  }

  lemma PrefixWithoutLast(files: seq<FileMeta>)
    requires SortedBySmallest(files) && files != []
    ensures SortedBySmallest(files[..|files| - 1])
    ensures MembersOf(files[..|files| - 1]) == MembersOf(files) - {files[|files| - 1]}
  {
    var n := |files| - 1;
    forall i, j | 0 <= i < j < n ensures Ascend(files[..n], i, j) {
      assert Ascend(files, i, j);
    }
    forall i | 0 <= i < n ensures files[i] != files[n] {
      assert Ascend(files, i, n);
    }
    assert files == files[..n] + [files[n]];
  }

  /** Replaying a manifest gives the very version that installing its edits one at a time had given. */
  lemma ReplayRebuildsVersion(base: Version, edits: seq<VersionEdit>, edit: VersionEdit, before: Version,
                              installed: Version, replayed: Version)
    requires IsFold(before, base, edits)
    requires IsFold(installed, before, [edit])
    requires IsFold(replayed, base, edits + [edit])
    ensures installed == replayed
  {
    assert (edits + [edit])[..|edits|] == edits && [edit][..0] == [];
    forall l | 0 <= l < NUM_LEVELS ensures installed.files[l] == replayed.files[l] {
      var files := MembersOf(before.files[l]);
      assert FoldEdits(files, [edit][..0], l) == files;
      assert FoldEdits(files, [edit], l) == ApplyEdit(files, edit, l);
      SortedLevelIsUnique(installed.files[l], replayed.files[l]);
    }
  }
}
