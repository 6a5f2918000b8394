/** How the files of a version form the layers of a compaction, and what installing its outputs keeps. */
module Layering {
  import opened DbFormat
  import opened Reads
  import opened Files
  import opened Versions
  import opened InputSelection
  import opened Compactions
  import opened CompactionWork
  import opened CompactionSafety

  function Without(files: seq<FileMeta>, gone: seq<FileMeta>): seq<FileMeta> {
    if files == [] then [] else
      var n := |files| - 1;
      Without(files[..n], gone) + (if files[n] in gone then [] else [files[n]])
  }

  lemma {:induction false} WithoutMembers(files: seq<FileMeta>, gone: seq<FileMeta>)
    ensures forall f :: f in Without(files, gone) <==> f in files && f !in gone
    decreases files
  {
    if files != [] {
      var n := |files| - 1;
      assert files == files[..n] + [files[n]];
      WithoutMembers(files[..n], gone);
    }
  }

  lemma EntriesSplit(files: seq<FileMeta>, gone: seq<FileMeta>)
    requires forall f :: f in gone ==> f in files
    ensures Entries(files) == Entries(Without(files, gone)) + Entries(gone)
  {
    WithoutMembers(files, gone);
  }

  /** The layers of a version whose level-0 entries are below `upper` (the memtables). */
  ghost function LayersOf(upper: set<Entry>, v: Version, level: nat, inputs0: seq<FileMeta>, inputs1: seq<FileMeta>)
    : Layers
    requires |v.files| == NUM_LEVELS && level + 1 < NUM_LEVELS
  {
    Layers(upper + EntriesBefore(v, level),
           Entries(Without(v.files[level], inputs0)), Entries(inputs0),
           Entries(Without(v.files[level + 1], inputs1)), Entries(inputs1),
           EntriesFrom(v, level + 2))
  }

  /** Entries of one user key in two files of a sorted level: those in the earlier file are newer. */
  lemma EarlierFileIsNewer(files: seq<FileMeta>, i: nat, j: nat, all: set<Entry>)
    requires ValidFiles(files) && Disjoint(files) && i < j < |files|
    requires SeqUnique(all) && Entries(files) <= all
    ensures Above(ToSet(files[i].table), ToSet(files[j].table))
    ensures ToSet(files[i].table) !! ToSet(files[j].table)
  {
    var f, g := files[i], files[j];
    assert Precedes(files, i, j);
    assert f in files && g in files;
    forall a, b | a in f.table && b in g.table
      ensures a != b && (a.key.user == b.key.user ==> a.key.sequence > b.key.sequence)
    {
      FileBounds(f, a);
      FileBounds(g, b);
      assert Less(a.key, b.key);
      assert a in Entries(files) && b in Entries(files);
    }
  }

  /** Nothing that stays at the level is older than an input with its user key. */
  lemma RestAboveInputs(files: seq<FileMeta>, level: nat, inputs: seq<FileMeta>, f: FileMeta, g: FileMeta,
                        all: set<Entry>)
    requires ValidFiles(files) && (level > 0 ==> Disjoint(files))
    requires SeqUnique(all) && Entries(files) <= all
    requires CleanlyPicked(files, level, inputs)
    requires f in inputs && g in files && g !in inputs
    ensures Above(ToSet(g.table), ToSet(f.table))
  {
    if level == 0 {
      var lo, hi :| SelfContained(files, inputs, lo, hi);
      OverlappingMembers(files, lo, hi);
      forall a, b | a in g.table && b in f.table ensures a.key.user != b.key.user {
        FileBounds(g, a);
        FileBounds(f, b);
      }
    } else {
      var i: nat, j: nat :| IsRun(files, inputs, i, j) && !Straddles(files, j);
      RestAboveRun(files, inputs, i, j, f, g, all);
    }
  }

  lemma RestAboveRun(files: seq<FileMeta>, inputs: seq<FileMeta>, i: nat, j: nat, f: FileMeta, g: FileMeta,
                     all: set<Entry>)
    requires ValidFiles(files) && Disjoint(files)
    requires SeqUnique(all) && Entries(files) <= all
    requires IsRun(files, inputs, i, j) && !Straddles(files, j)
    requires f in inputs && g in files && g !in inputs
    ensures Above(ToSet(g.table), ToSet(f.table))
  {
    var m :| 0 <= m < |inputs| && inputs[m] == f;
    assert files[i + m] == f;
    var n :| 0 <= n < |files| && files[n] == g;
    assert n < i || j <= n;
    if n < i {
      EarlierFileIsNewer(files, n, i + m, all);
    } else {
      assert Precedes(files, j - 1, j);
      if i + m < j - 1 {
        LargestAscends(files, i + m, j - 1);
      }
      if j < n {
        LargestAscends(files, j, n);
      }
      assert f.largest.user < g.smallest.user;
      forall a, b | a in g.table && b in f.table ensures a.key.user != b.key.user {
        FileBounds(g, a);
        FileBounds(f, b);
      }
    }
  }

  /** A file of the next level that is not a parent has none of the inputs' user keys. */
  lemma NonParentSharesNothing(parentFiles: seq<FileMeta>, inputs: seq<FileMeta>, parents: seq<FileMeta>, f: FileMeta,
                               g: FileMeta)
    requires ValidFiles(parentFiles) && ValidFiles(inputs)
    requires ParentsOf(parentFiles, inputs, parents)
    requires f in inputs && g in parentFiles && g !in parents
    ensures NoSharedKeys(ToSet(f.table), ToSet(g.table))
    ensures g.largest.user < LowUser(inputs) || HighUser(inputs) < g.smallest.user
  {
    OverlappingMembers(parentFiles, Some(LowUser(inputs)), Some(HighUser(inputs)));
    UserHull(inputs);
    forall a, b | a in f.table && b in g.table ensures a.key.user != b.key.user {
      FileBounds(f, a);
      FileBounds(g, b);
    }
  }

  lemma DifferentFilesShareNoEntry(files: seq<FileMeta>, f: FileMeta, g: FileMeta, all: set<Entry>)
    requires ValidFiles(files) && Disjoint(files)
    requires SeqUnique(all) && Entries(files) <= all
    requires f in files && g in files && f != g
    ensures ToSet(f.table) !! ToSet(g.table)
  {
    var i :| 0 <= i < |files| && files[i] == f;
    var j :| 0 <= j < |files| && files[j] == g;
    if i < j {
      EarlierFileIsNewer(files, i, j, all);
    } else {
      EarlierFileIsNewer(files, j, i, all);
    }
  }

  lemma SelectedMembers(v: Version, level: nat, inputs0: seq<FileMeta>, inputs1: seq<FileMeta>)
    requires Selected(v, level, inputs0, inputs1)
    ensures |v.files| == NUM_LEVELS && level + 1 < NUM_LEVELS && inputs0 != []
    ensures forall f :: f in inputs0 ==> f in v.files[level]
    ensures forall f :: f in inputs1 ==> f in v.files[level + 1]
  {
    PickedMembers(v.files[level], level, inputs0);
    OverlappingMembers(v.files[level + 1], Some(LowUser(inputs0)), Some(HighUser(inputs0)));
  }

  lemma LayersAll(upper: set<Entry>, v: Version, level: nat, inputs0: seq<FileMeta>, inputs1: seq<FileMeta>)
    requires Selected(v, level, inputs0, inputs1)
    ensures LayersOf(upper, v, level, inputs0, inputs1).All() == upper + AllEntries(v)
  {
    hide CleanlyPicked, ParentsOf, WellFormed, Entries, EntriesFrom, EntriesBefore, Without, AllEntries;
    SelectedMembers(v, level, inputs0, inputs1);
    EntriesSplit(v.files[level], inputs0);
    EntriesSplit(v.files[level + 1], inputs1);
    SplitAt(v, level);
    SplitFrom(v, level + 1);
  }

  lemma SplitFrom(v: Version, level: nat)
    requires |v.files| == NUM_LEVELS && level < NUM_LEVELS
    ensures EntriesFrom(v, level) == Entries(v.files[level]) + EntriesFrom(v, level + 1)
  {
  }

  lemma RestAbove(v: Version, level: nat, inputs0: seq<FileMeta>, inputs1: seq<FileMeta>, all: set<Entry>)
    requires Selected(v, level, inputs0, inputs1)
    requires SeqUnique(all) && AllEntries(v) <= all
    ensures Above(Entries(Without(v.files[level], inputs0)), Entries(inputs0))
  {
    hide CleanlyPicked, ParentsOf, SeqUnique, AllEntries, EntriesFrom;
    SelectedMembers(v, level, inputs0, inputs1);
    var files := v.files[level];
    WithoutMembers(files, inputs0);
    LevelInAll(v, level);
    forall g, f, a, b | g in files && g !in inputs0 && f in inputs0 && a in g.table && b in f.table
      ensures a.key.user == b.key.user ==> a.key.sequence > b.key.sequence
    {
      RestAboveInputs(files, level, inputs0, f, g, all);
      assert a in ToSet(g.table) && b in ToSet(f.table);
    }
  }

  lemma RestSharesNothing(v: Version, level: nat, inputs0: seq<FileMeta>, inputs1: seq<FileMeta>)
    requires Selected(v, level, inputs0, inputs1)
    ensures NoSharedKeys(Entries(inputs0), Entries(Without(v.files[level + 1], inputs1)))
  {
    hide CleanlyPicked, ParentsOf;
    SelectedMembers(v, level, inputs0, inputs1);
    var files := v.files[level + 1];
    WithoutMembers(files, inputs1);
    forall f, g, a, b | f in inputs0 && g in files && g !in inputs1 && a in f.table && b in g.table
      ensures a.key.user != b.key.user
    {
      NonParentSharesNothing(files, inputs0, inputs1, f, g);
      assert a in ToSet(f.table) && b in ToSet(g.table);
    }
  }

  lemma RestIsDisjoint(v: Version, level: nat, inputs0: seq<FileMeta>, inputs1: seq<FileMeta>, all: set<Entry>)
    requires Selected(v, level, inputs0, inputs1)
    requires SeqUnique(all) && AllEntries(v) <= all
    ensures Entries(Without(v.files[level + 1], inputs1)) !! Entries(inputs1)
  {
    hide CleanlyPicked, ParentsOf, SeqUnique, AllEntries, EntriesFrom;
    SelectedMembers(v, level, inputs0, inputs1);
    var files := v.files[level + 1];
    WithoutMembers(files, inputs1);
    LevelInAll(v, level + 1);
    forall f, g, e | f in inputs1 && g in files && g !in inputs1 && e in f.table ensures e !in g.table {
      DifferentFilesShareNoEntry(files, f, g, all);
      assert e in ToSet(f.table) && (e in ToSet(g.table) <==> e in g.table);
    }
  }

  lemma LevelInAll(v: Version, level: nat)
    requires |v.files| == NUM_LEVELS && level < NUM_LEVELS
    ensures Entries(v.files[level]) <= AllEntries(v)
  {
  }

  lemma AboveLower(v: Version, l: nat)
    requires |v.files| == NUM_LEVELS && Layered(v) && l < NUM_LEVELS
    ensures Above(Entries(v.files[l]), EntriesFrom(v, l + 1))
    ensures Above(EntriesBefore(v, l), EntriesFrom(v, l))
  {
  }

  lemma BaseMeansNothingBelow(upper: set<Entry>, v: Version, level: nat, inputs0: seq<FileMeta>, inputs1: seq<FileMeta>)
    requires Selected(v, level, inputs0, inputs1)
    ensures NothingBelow(LayersOf(upper, v, level, inputs0, inputs1), v, level)
  {
    forall e | e in EntriesFrom(v, level + 2) ensures !BaseLevelForKey(v, level, e.key.user) {
      var l :| level + 2 <= l < NUM_LEVELS && e in Entries(v.files[l]);
      var f :| f in v.files[l] && e in f.table;
      FileBounds(f, e);
      assert CoveredBy(v.files[l], e.key.user);
    }
  }

  lemma LevelsAreOrdered(upper: set<Entry>, v: Version, level: nat)
    requires |v.files| == NUM_LEVELS && Layered(v) && level + 1 < NUM_LEVELS
    requires Above(upper, AllEntries(v))
    ensures var l0, l1, deep := Entries(v.files[level]), Entries(v.files[level + 1]), EntriesFrom(v, level + 2);
            && Above(upper + EntriesBefore(v, level), l0 + l1 + deep)
            && Above(l0, l1)
            && Above(l0 + l1, deep)
  {
    hide Layered, Entries, AllEntries, EntriesFrom, EntriesBefore;
    AboveLower(v, level);
    AboveLower(v, level + 1);
    SplitFrom(v, level);
    SplitFrom(v, level + 1);
    SplitAt(v, level);
  }

  lemma OrderedFromParts(x: Layers, l0: set<Entry>, l1: set<Entry>)
    requires SeqUnique(x.All())
    requires l0 == x.rest0 + x.in0 && l1 == x.rest1 + x.in1
    requires Above(x.above, l0 + l1 + x.below) && Above(l0, l1) && Above(l0 + l1, x.below)
    requires Above(x.rest0, x.in0) && NoSharedKeys(x.in0, x.rest1) && x.rest1 !! x.in1
    ensures Ordered(x)
  {
    assert x.rest0 + x.in0 + x.rest1 + x.in1 + x.below == l0 + l1 + x.below;
    assert x.rest0 + x.in0 + x.rest1 + x.in1 == l0 + l1;
  }

  /** The layers of a selected compaction are ordered. */
  lemma SelectionIsOrdered(upper: set<Entry>, v: Version, level: nat, inputs0: seq<FileMeta>, inputs1: seq<FileMeta>)
    requires Selected(v, level, inputs0, inputs1) && Layered(v)
    requires SeqUnique(upper + AllEntries(v)) && Above(upper, AllEntries(v))
    ensures Ordered(LayersOf(upper, v, level, inputs0, inputs1))
    ensures NothingBelow(LayersOf(upper, v, level, inputs0, inputs1), v, level)
  {
    var x := LayersOf(upper, v, level, inputs0, inputs1);
    SelectedMembers(v, level, inputs0, inputs1);
    EntriesSplit(v.files[level], inputs0);
    EntriesSplit(v.files[level + 1], inputs1);
    hide CleanlyPicked, ParentsOf, WellFormed, Layered, Entries, EntriesFrom, EntriesBefore, Without, Above, SeqUnique;
    LevelsAreOrdered(upper, v, level);
    LayersAll(upper, v, level, inputs0, inputs1);
    RestAbove(v, level, inputs0, inputs1, upper + AllEntries(v));
    RestSharesNothing(v, level, inputs0, inputs1);
    RestIsDisjoint(v, level, inputs0, inputs1, upper + AllEntries(v));
    BaseMeansNothingBelow(upper, v, level, inputs0, inputs1);
    OrderedFromParts(x, Entries(v.files[level]), Entries(v.files[level + 1]));
  }

  ghost predicate NewMember(v: Version, level: nat, inputs0: seq<FileMeta>, inputs1: seq<FileMeta>,
                            outputs: seq<FileMeta>, l: nat, f: FileMeta)
    requires |v.files| == NUM_LEVELS && l < NUM_LEVELS
  {
    if l == level then f in v.files[l] && f !in inputs0
    else if l == level + 1 then (f in v.files[l] && f !in inputs1) || f in outputs
    else f in v.files[l]
  }

  /** `w` is `v` with the inputs of a compaction replaced by its outputs one level down. */
  ghost predicate Installed(v: Version, w: Version, level: nat, inputs0: seq<FileMeta>, inputs1: seq<FileMeta>,
                            outputs: seq<FileMeta>)
    requires |v.files| == NUM_LEVELS
  {
    && |w.files| == NUM_LEVELS
    && (forall l :: 0 <= l < NUM_LEVELS ==> SortedBySmallest(w.files[l]))
    && forall l, f :: 0 <= l < NUM_LEVELS ==>
                        (f in w.files[l] <==> NewMember(v, level, inputs0, inputs1, outputs, l, f))
  }

  ghost predicate Apart(f: FileMeta, g: FileMeta) {
    Less(f.largest, g.smallest) || Less(g.largest, f.smallest)
  }

  lemma ApartIsDisjoint(files: seq<FileMeta>)
    requires ValidFiles(files) && SortedBySmallest(files)
    requires forall f, g :: f in files && g in files && f != g ==> Apart(f, g)
    ensures Disjoint(files)
  {
    forall i, j | 0 <= i < j < |files| ensures Precedes(files, i, j) {
      assert Ascend(files, i, j);
      assert files[i] in files && files[j] in files;
      assert Apart(files[i], files[j]);
      FileEndsInOrder(files[i]);
      FileEndsInOrder(files[j]);
    }
  }

  lemma DisjointIsApart(files: seq<FileMeta>, f: FileMeta, g: FileMeta)
    requires Disjoint(files) && f in files && g in files && f != g
    ensures Apart(f, g)
  {
    var i :| 0 <= i < |files| && files[i] == f;
    var j :| 0 <= j < |files| && files[j] == g;
    assert if i < j then Precedes(files, i, j) else Precedes(files, j, i);
  }

  /** Every key a compaction reads lies on the same side of a file that is no parent. */
  lemma InputsOnOneSide(v: Version, level: nat, inputs0: seq<FileMeta>, inputs1: seq<FileMeta>, g: FileMeta, e: Entry)
    requires Selected(v, level, inputs0, inputs1)
    requires g in v.files[level + 1] && g !in inputs1
    requires e in Entries(inputs0) || e in Entries(inputs1)
    ensures g.largest.user < LowUser(inputs0) || HighUser(inputs0) < g.smallest.user
    ensures g.largest.user < LowUser(inputs0) ==> Less(g.largest, e.key)
    ensures HighUser(inputs0) < g.smallest.user ==> Less(e.key, g.smallest)
  {
    var files := v.files[level + 1];
    SelectedMembers(v, level, inputs0, inputs1);
    OverlappingMembers(files, Some(LowUser(inputs0)), Some(HighUser(inputs0)));
    UserHull(inputs0);
    FileEndsInOrder(g);
    if e in Entries(inputs0) {
      var f :| f in inputs0 && e in f.table;
      FileBounds(f, e);
    } else {
      var h :| h in inputs1 && e in h.table;
      FileBounds(h, e);
      DisjointIsApart(files, g, h);
      FileEndsInOrder(h);
    }
  }

  lemma OutputApart(v: Version, level: nat, inputs0: seq<FileMeta>, inputs1: seq<FileMeta>, f: FileMeta, g: FileMeta)
    requires Selected(v, level, inputs0, inputs1)
    requires g in v.files[level + 1] && g !in inputs1
    requires ValidFile(f) && ToSet(f.table) <= Entries(inputs0) + Entries(inputs1)
    ensures Apart(f, g)
  {
    var first, last := f.table[0], f.table[|f.table| - 1];
    assert first in ToSet(f.table) && last in ToSet(f.table);
    InputsOnOneSide(v, level, inputs0, inputs1, g, first);
    InputsOnOneSide(v, level, inputs0, inputs1, g, last);
  }

  lemma LevelStaysDisjoint(v: Version, w: Version, level: nat, inputs0: seq<FileMeta>, inputs1: seq<FileMeta>,
                           outputs: seq<FileMeta>, l: nat)
    requires Selected(v, level, inputs0, inputs1) && Installed(v, w, level, inputs0, inputs1, outputs)
    requires ValidFiles(outputs) && Disjoint(outputs) && Entries(outputs) <= Entries(inputs0) + Entries(inputs1)
    requires l < NUM_LEVELS
    ensures ValidFiles(w.files[l])
    ensures l > 0 ==> Disjoint(w.files[l])
  {
    hide CleanlyPicked, ParentsOf, Disjoint, ValidFile;
    forall f | f in w.files[l] ensures ValidFile(f) {
      assert NewMember(v, level, inputs0, inputs1, outputs, l, f);
    }
    if l > 0 {
      forall f, g | f in w.files[l] && g in w.files[l] && f != g ensures Apart(f, g) {
        MembersApart(v, w, level, inputs0, inputs1, outputs, l, f, g);
      }
      ApartIsDisjoint(w.files[l]);
    }
  }

  lemma MembersApart(v: Version, w: Version, level: nat, inputs0: seq<FileMeta>, inputs1: seq<FileMeta>,
                     outputs: seq<FileMeta>, l: nat, f: FileMeta, g: FileMeta)
    requires Selected(v, level, inputs0, inputs1) && Installed(v, w, level, inputs0, inputs1, outputs)
    requires ValidFiles(outputs) && Disjoint(outputs) && Entries(outputs) <= Entries(inputs0) + Entries(inputs1)
    requires 0 < l < NUM_LEVELS && f in w.files[l] && g in w.files[l] && f != g
    ensures Apart(f, g)
  {
    hide CleanlyPicked, ParentsOf, Disjoint, ValidFile, Entries;
    assert NewMember(v, level, inputs0, inputs1, outputs, l, f) && NewMember(v, level, inputs0, inputs1, outputs, l, g);
    if f in v.files[l] && g in v.files[l] {
      DisjointIsApart(v.files[l], f, g);
    } else if f in outputs && g in outputs {
      DisjointIsApart(outputs, f, g);
    } else if f in outputs {
      TableInEntries(outputs, f);
      OutputApart(v, level, inputs0, inputs1, f, g);
    } else {
      TableInEntries(outputs, g);
      OutputApart(v, level, inputs0, inputs1, g, f);
    }
  }

  lemma TableInEntries(files: seq<FileMeta>, f: FileMeta)
    requires f in files
    ensures ToSet(f.table) <= Entries(files)
  {
  }

  /** What each level holds after the outputs are installed. */
  lemma InstalledLevel(v: Version, w: Version, level: nat, inputs0: seq<FileMeta>, inputs1: seq<FileMeta>,
                       outputs: seq<FileMeta>, l: nat)
    requires |v.files| == NUM_LEVELS && Installed(v, w, level, inputs0, inputs1, outputs)
    requires l < NUM_LEVELS
    ensures |w.files| == NUM_LEVELS
    ensures Entries(w.files[l]) ==
            if l == level then Entries(Without(v.files[l], inputs0))
            else if l == level + 1 then Entries(Without(v.files[l], inputs1)) + Entries(outputs)
            else Entries(v.files[l])
  {
    WithoutMembers(v.files[l], inputs0);
    WithoutMembers(v.files[l], inputs1);
    assert forall f :: f in w.files[l] <==> NewMember(v, level, inputs0, inputs1, outputs, l, f);
  }

  /** The whole store after the outputs are installed. */
  lemma InstalledEntries(upper: set<Entry>, v: Version, w: Version, level: nat, inputs0: seq<FileMeta>,
                         inputs1: seq<FileMeta>, outputs: seq<FileMeta>)
    requires |v.files| == NUM_LEVELS && level + 1 < NUM_LEVELS && Installed(v, w, level, inputs0, inputs1, outputs)
    ensures upper + AllEntries(w) == LayersOf(upper, v, level, inputs0, inputs1).With(Entries(outputs))
  {
    hide Installed, Entries, Without, AllEntries, EntriesBefore, EntriesFrom;
    InstalledLevel(v, w, level, inputs0, inputs1, outputs, level);
    InstalledLevel(v, w, level, inputs0, inputs1, outputs, level + 1);
    SplitAt(w, level);
    SplitFrom(w, level + 1);
    forall l | 0 <= l < NUM_LEVELS && l != level && l != level + 1 ensures Entries(w.files[l]) == Entries(v.files[l]) {
      InstalledLevel(v, w, level, inputs0, inputs1, outputs, l);
    }
    OtherLevelsSame(v, w, level);
  }

  lemma OtherLevelsSame(v: Version, w: Version, level: nat)
    requires |v.files| == NUM_LEVELS && |w.files| == NUM_LEVELS
    requires forall l :: 0 <= l < NUM_LEVELS && l != level && l != level + 1 ==> Entries(w.files[l]) == Entries(v.files[l])
    ensures EntriesBefore(w, level) == EntriesBefore(v, level)
    ensures EntriesFrom(w, level + 2) == EntriesFrom(v, level + 2)
  {
    hide Entries;
  }

  lemma AboveSubsets(a: set<Entry>, b: set<Entry>, c: set<Entry>, d: set<Entry>)
    requires Above(a, b) && c <= a && d <= b
    ensures Above(c, d)
  {
  }

  lemma AboveUnion(a: set<Entry>, b: set<Entry>, c: set<Entry>)
    ensures Above(a, c) && Above(b, c) ==> Above(a + b, c)
    ensures Above(c, a) && Above(c, b) ==> Above(c, a + b)
  {
  }

  lemma LevelsAbove(v: Version, l: nat, m: nat)
    requires |v.files| == NUM_LEVELS && Layered(v) && l < m < NUM_LEVELS
    ensures Above(Entries(v.files[l]), Entries(v.files[m]))
  {
  }

  /** Installing the outputs keeps every shallower level newer than every deeper one. */
  lemma LevelsStayAbove(v: Version, w: Version, level: nat, inputs0: seq<FileMeta>, inputs1: seq<FileMeta>,
                        outputs: seq<FileMeta>, l: nat, m: nat)
    requires Selected(v, level, inputs0, inputs1) && Installed(v, w, level, inputs0, inputs1, outputs)
    requires Layered(v) && SeqUnique(AllEntries(v))
    requires Entries(outputs) <= Entries(inputs0) + Entries(inputs1)
    requires l < m < NUM_LEVELS
    ensures Above(Entries(w.files[l]), Entries(w.files[m]))
  {
    hide CleanlyPicked, ParentsOf, WellFormed, Layered, Entries, Installed, Without, SeqUnique, AllEntries, Above;
    SelectedMembers(v, level, inputs0, inputs1);
    EntriesSplit(v.files[level], inputs0);
    EntriesSplit(v.files[level + 1], inputs1);
    InstalledLevel(v, w, level, inputs0, inputs1, outputs, l);
    InstalledLevel(v, w, level, inputs0, inputs1, outputs, m);
    var old0, old1 := Entries(v.files[level]), Entries(v.files[level + 1]);
    var rest0, in0 := Entries(Without(v.files[level], inputs0)), Entries(inputs0);
    var el, em := Entries(w.files[l]), Entries(w.files[m]);
    if l == level && m == level + 1 {
      LevelsAbove(v, l, m);
      RestAbove(v, level, inputs0, inputs1, AllEntries(v));
      AboveSubsets(old0, old1, rest0, old1);
      AboveUnion(in0, old1, rest0);
      AboveSubsets(rest0, in0 + old1, el, em);
    } else if m == level + 1 {
      LevelsAbove(v, l, level);
      LevelsAbove(v, l, level + 1);
      AboveUnion(old0, old1, Entries(v.files[l]));
      AboveSubsets(Entries(v.files[l]), old0 + old1, el, em);
    } else if l == level + 1 {
      LevelsAbove(v, level, m);
      LevelsAbove(v, level + 1, m);
      AboveUnion(old0, old1, Entries(v.files[m]));
      AboveSubsets(old0 + old1, Entries(v.files[m]), el, em);
    } else {
      LevelsAbove(v, l, m);
      AboveSubsets(Entries(v.files[l]), Entries(v.files[m]), el, em);
    }
  }

  /** The structure of the tree survives a compaction, whatever subset of the input entries it keeps. */
  lemma InstallKeepsStructure(v: Version, w: Version, level: nat, inputs0: seq<FileMeta>, inputs1: seq<FileMeta>,
                              outputs: seq<FileMeta>)
    requires Selected(v, level, inputs0, inputs1) && Installed(v, w, level, inputs0, inputs1, outputs)
    requires Layered(v) && SeqUnique(AllEntries(v))
    requires ValidFiles(outputs) && Disjoint(outputs) && Entries(outputs) <= Entries(inputs0) + Entries(inputs1)
    ensures WellFormed(w) && Layered(w)
  {
    forall l | 0 <= l < NUM_LEVELS ensures ValidFiles(w.files[l]) && (l > 0 ==> Disjoint(w.files[l])) {
      LevelStaysDisjoint(v, w, level, inputs0, inputs1, outputs, l);
    }
    forall l, m | 0 <= l < m < NUM_LEVELS ensures Above(Entries(w.files[l]), Entries(w.files[m])) {
      LevelsStayAbove(v, w, level, inputs0, inputs1, outputs, l, m);
    }
    LevelZeroShrinks(v, w, level, inputs0, inputs1, outputs);
  }

  lemma LevelZeroShrinks(v: Version, w: Version, level: nat, inputs0: seq<FileMeta>, inputs1: seq<FileMeta>,
                         outputs: seq<FileMeta>)
    requires |v.files| == NUM_LEVELS && Installed(v, w, level, inputs0, inputs1, outputs)
    requires DistinctNumbers(v.files[0]) && NewerByNumber(v.files[0])
    ensures DistinctNumbers(w.files[0]) && NewerByNumber(w.files[0])
  {
    forall f | f in w.files[0] ensures f in v.files[0] {
      assert NewMember(v, level, inputs0, inputs1, outputs, 0, f);
    }
  }
}
