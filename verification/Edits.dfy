/** The version edits the database installs and what they do to a version (db/db_impl.cc, db/version_set.cc). */
module Edits {
  import opened DbFormat
  import opened Reads
  import opened Files
  import opened Versions
  import opened InputSelection
  import opened Compactions
  import opened CompactionWork
  import opened Layering
  import opened Builders
  import S = Stores

  function DeletionsAt(files: seq<FileMeta>, level: nat): set<(nat, nat)> {
    set f | f in files :: (level, f.number)
  }

  function AdditionsAt(files: seq<FileMeta>, level: nat): (r: seq<(nat, FileMeta)>)
    ensures |r| == |files| && forall i :: 0 <= i < |files| ==> r[i] == (level, files[i])
  {
    seq(|files|, i requires 0 <= i < |files| => (level, files[i]))
  }

  /** AddInputDeletions and the outputs of a compaction. */
  function CompactionEdit(level: nat, inputs0: seq<FileMeta>, inputs1: seq<FileMeta>, outputs: seq<FileMeta>): VersionEdit {
    VersionEdit(DeletionsAt(inputs0, level) + DeletionsAt(inputs1, level + 1), AdditionsAt(outputs, level + 1))
  }

  lemma AdditionsMembers(files: seq<FileMeta>, level: nat, l: nat)
    ensures AddedAt(AdditionsAt(files, level), l) == if l == level then MembersOf(files) else {}
  {
    var added := AdditionsAt(files, level);
    forall f | f in files ensures (level, f) in added {
      var i :| 0 <= i < |files| && files[i] == f;
      assert added[i] == (level, f);
    }
  }

  lemma OneEdit(v: Version, edit: VersionEdit, l: nat)
    ensures AddedByEdits([edit], l) == AddedAt(edit.newFiles, l)
    ensures l < |v.files| ==> FoldEdits(MembersOf(v.files[l]), [edit], l) == ApplyEdit(MembersOf(v.files[l]), edit, l)
  {
    assert ([edit])[0] == edit && [edit][..0] == [];
    if l < |v.files| {
      assert FoldEdits(MembersOf(v.files[l]), [edit][..0], l) == MembersOf(v.files[l]);
    }
  }

  /** New files whose numbers no file of their level has. */
  lemma AdditionsApply(v: Version, edit: VersionEdit, outputs: seq<FileMeta>, level: nat)
    requires |v.files| == NUM_LEVELS && level < NUM_LEVELS
    requires edit.newFiles == AdditionsAt(outputs, level)
    requires forall f, g :: f in v.files[level] && g in outputs ==> f.number != g.number
    requires forall f, g :: f in outputs && g in outputs && f.number == g.number ==> f == g
    ensures EditsApply(v, [edit])
  {
    forall l | 0 <= l < NUM_LEVELS ensures NumbersNotReused(v.files[l], AddedByEdits([edit], l)) {
      OneEdit(v, edit, l);
      AdditionsMembers(outputs, level, l);
    }
    forall e, p | e in [edit] && p in e.newFiles ensures p.0 < NUM_LEVELS {
      var i :| 0 <= i < |edit.newFiles| && edit.newFiles[i] == p;
    }
  }

  lemma DeletedExactly(v: Version, nextFile: nat, level: nat, inputs0: seq<FileMeta>, inputs1: seq<FileMeta>, l: nat,
                       f: FileMeta)
    requires |v.files| == NUM_LEVELS && level + 1 < NUM_LEVELS && l < NUM_LEVELS && S.NumbersAllocated(v, nextFile)
    requires forall g :: g in inputs0 ==> g in v.files[level]
    requires forall g :: g in inputs1 ==> g in v.files[level + 1]
    requires f in v.files[l]
    ensures (l, f.number) in DeletionsAt(inputs0, level) + DeletionsAt(inputs1, level + 1) <==>
            (l == level && f in inputs0) || (l == level + 1 && f in inputs1)
  {
    assert S.HasFile(v, l, f);
    forall g | g in inputs0 ensures S.HasFile(v, level, g) {
    }
    forall g | g in inputs1 ensures S.HasFile(v, level + 1, g) {
    }
    if l == level && f in inputs0 {
      assert (l, f.number) in DeletionsAt(inputs0, level);
    }
    if l == level + 1 && f in inputs1 {
      assert (l, f.number) in DeletionsAt(inputs1, level + 1);
    }
  }

  /** The edit of a compaction does exactly what installing its outputs means. */
  lemma FoldInstalls(v: Version, w: Version, nextFile: nat, level: nat, inputs0: seq<FileMeta>, inputs1: seq<FileMeta>,
                     outputs: seq<FileMeta>)
    requires level + 1 < NUM_LEVELS && |v.files| == NUM_LEVELS && S.NumbersAllocated(v, nextFile)
    requires forall g :: g in inputs0 ==> g in v.files[level]
    requires forall g :: g in inputs1 ==> g in v.files[level + 1]
    requires IsFold(w, v, [CompactionEdit(level, inputs0, inputs1, outputs)])
    ensures Installed(v, w, level, inputs0, inputs1, outputs)
  {
    var edit := CompactionEdit(level, inputs0, inputs1, outputs);
    forall l, f | 0 <= l < NUM_LEVELS
      ensures f in w.files[l] <==> NewMember(v, level, inputs0, inputs1, outputs, l, f)
    {
      OneEdit(v, edit, l);
      AdditionsMembers(outputs, level + 1, l);
      if f in v.files[l] {
        DeletedExactly(v, nextFile, level, inputs0, inputs1, l, f);
      }
      assert f in w.files[l] <==> f in MembersOf(w.files[l]);
    }
  }

  lemma FoldAdds(v: Version, w: Version, level: nat, f: FileMeta)
    requires |v.files| == NUM_LEVELS && level < NUM_LEVELS
    requires IsFold(w, v, [VersionEdit({}, AdditionsAt([f], level))])
    ensures S.AddedAt(v, w, level, f)
  {
    var edit := VersionEdit({}, AdditionsAt([f], level));
    forall l, g | 0 <= l < NUM_LEVELS ensures g in w.files[l] <==> g in v.files[l] || (l == level && g == f) {
      OneEdit(v, edit, l);
      AdditionsMembers([f], level, l);
      assert g in w.files[l] <==> g in MembersOf(w.files[l]);
    }
  }

  /** And installing them is the fold of that edit. */
  lemma InstalledFolds(v: Version, w: Version, nextFile: nat, level: nat, inputs0: seq<FileMeta>, inputs1: seq<FileMeta>,
                       outputs: seq<FileMeta>)
    requires level + 1 < NUM_LEVELS && |v.files| == NUM_LEVELS && S.NumbersAllocated(v, nextFile)
    requires forall g :: g in inputs0 ==> g in v.files[level]
    requires forall g :: g in inputs1 ==> g in v.files[level + 1]
    requires Installed(v, w, level, inputs0, inputs1, outputs)
    ensures IsFold(w, v, [CompactionEdit(level, inputs0, inputs1, outputs)])
  {
    var edit := CompactionEdit(level, inputs0, inputs1, outputs);
    forall l | 0 <= l < NUM_LEVELS
      ensures SortedBySmallest(w.files[l]) && MembersOf(w.files[l]) == FoldEdits(MembersOf(v.files[l]), [edit], l)
    {
      OneEdit(v, edit, l);
      AdditionsMembers(outputs, level + 1, l);
      forall f ensures f in MembersOf(w.files[l]) <==> f in ApplyEdit(MembersOf(v.files[l]), edit, l) {
        if f in v.files[l] {
          DeletedExactly(v, nextFile, level, inputs0, inputs1, l, f);
        }
        assert f in w.files[l] <==> NewMember(v, level, inputs0, inputs1, outputs, l, f);
      }
    }
  }

  lemma AddedFolds(v: Version, w: Version, level: nat, f: FileMeta)
    requires |v.files| == NUM_LEVELS && level < NUM_LEVELS && S.AddedAt(v, w, level, f)
    ensures IsFold(w, v, [VersionEdit({}, AdditionsAt([f], level))])
  {
    var edit := VersionEdit({}, AdditionsAt([f], level));
    forall l | 0 <= l < NUM_LEVELS
      ensures SortedBySmallest(w.files[l]) && MembersOf(w.files[l]) == FoldEdits(MembersOf(v.files[l]), [edit], l)
    {
      OneEdit(v, edit, l);
      AdditionsMembers([f], level, l);
      assert forall g :: g in MembersOf(w.files[l]) <==> g in ApplyEdit(MembersOf(v.files[l]), edit, l);
    }
  }

  /** The tables a compaction wrote hold exactly the entries it must keep. */
  lemma OutputsAreKept(v: Version, level: nat, inputs0: seq<FileMeta>, inputs1: seq<FileMeta>, input: seq<Entry>,
                       snapshot: SequenceNumber, outputs: seq<FileMeta>, a: S.Store)
    requires Selected(v, level, inputs0, inputs1)
    requires a.version == v && snapshot == a.OldestSnapshot()
    requires ToSet(input) == Entries(inputs0) + Entries(inputs1)
    requires Concat(outputs) == Survivors(input, ToSet(input), snapshot, v, level)
    ensures Entries(outputs) == S.KeptEntries(a, level, inputs0, inputs1)
  {
    hide CleanlyPicked, ParentsOf, Obsolete, Survivors, Concat, Entries;
    SelectedMembers(v, level, inputs0, inputs1);
    ConcatMembers(outputs);
    SurvivorsMembers(input, ToSet(input), snapshot, v, level);
  }
}
