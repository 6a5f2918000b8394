/** Flushes, moves and compactions keep the structure of the store; reads stay true to the history. */
module StoreSafety {
  import opened DbFormat
  import opened Reads
  import opened Files
  import opened Versions
  import opened InputSelection
  import opened Compactions
  import opened CompactionWork
  import opened CompactionSafety
  import opened Layering
  import opened Stores

  // ----- Flush -----

  lemma AddedLevel(v: Version, w: Version, level: nat, f: FileMeta, l: nat)
    requires |v.files| == NUM_LEVELS && AddedAt(v, w, level, f) && l < NUM_LEVELS
    ensures |w.files| == NUM_LEVELS
    ensures Entries(w.files[l]) == Entries(v.files[l]) + (if l == level then ToSet(f.table) else {})
  {
    assert forall g :: g in w.files[l] <==> g in v.files[l] || (l == level && g == f);
  }

  lemma AddedEntries(v: Version, w: Version, level: nat, f: FileMeta)
    requires |v.files| == NUM_LEVELS && level < NUM_LEVELS && AddedAt(v, w, level, f)
    ensures |w.files| == NUM_LEVELS
    ensures AllEntries(w) == AllEntries(v) + ToSet(f.table)
  {
    forall l | 0 <= l < NUM_LEVELS
      ensures Entries(w.files[l]) == Entries(v.files[l]) + (if l == level then ToSet(f.table) else {})
    {
      AddedLevel(v, w, level, f, l);
    }
    hide AddedAt, Entries;
    assert forall e :: e in ToSet(f.table) ==> e in Entries(w.files[level]);
  }

  /** A flushed table meets no file of the level it is put on, unless that is level 0. */
  lemma FlushedFileApart(v: Version, level: nat, f: FileMeta, l: nat, g: FileMeta)
    requires WellFormed(v) && level < NUM_LEVELS && ValidFile(f)
    requires ClearDownTo(v, level, f.smallest.user, f.largest.user)
    requires l <= level && g in v.files[l]
    ensures Apart(f, g) && NoSharedKeys(ToSet(g.table), ToSet(f.table))
  {
    assert !MeetsLevel(v, l, f.smallest.user, f.largest.user);
    assert !Overlaps(g, Some(f.smallest.user), Some(f.largest.user));
    forall a, b | a in g.table && b in f.table ensures a.key.user != b.key.user {
      FileBounds(g, a);
      FileBounds(f, b);
    }
  }

  lemma FlushKeepsLevels(v: Version, w: Version, level: nat, f: FileMeta)
    requires WellFormed(v) && level < NUM_LEVELS && ValidFile(f) && AddedAt(v, w, level, f)
    requires level > 0 ==> ClearDownTo(v, level, f.smallest.user, f.largest.user)
    ensures WellFormed(w)
  {
    forall l | 0 <= l < NUM_LEVELS ensures ValidFiles(w.files[l]) && (l > 0 ==> Disjoint(w.files[l])) {
      assert forall g :: g in w.files[l] <==> g in v.files[l] || (l == level && g == f);
      if l > 0 {
        forall g, h | g in w.files[l] && h in w.files[l] && g != h ensures Apart(g, h) {
          if g in v.files[l] && h in v.files[l] {
            DisjointIsApart(v.files[l], g, h);
          } else {
            FlushedFileApart(v, level, f, l, if g in v.files[l] then g else h);
          }
        }
        ApartIsDisjoint(w.files[l]);
      }
    }
  }

  lemma FlushKeepsLayers(v: Version, w: Version, level: nat, f: FileMeta, nextFile: nat)
    requires TreeInv(v, nextFile) && level < NUM_LEVELS && ValidFile(f) && AddedAt(v, w, level, f)
    requires level > 0 ==> ClearDownTo(v, level, f.smallest.user, f.largest.user)
    requires f.number == nextFile && Above(ToSet(f.table), AllEntries(v))
    ensures |w.files| == NUM_LEVELS && Layered(w)
  {
    hide Above, AllEntries, Entries, AddedAt, ClearDownTo, ToSet, ValidFile, WellFormed, NumbersAllocated;
    TreeSize(v, nextFile);
    AddedLevel(v, w, level, f, 0);
    var flushed := ToSet(f.table);
    forall l, m | 0 <= l < m < NUM_LEVELS ensures Above(Entries(w.files[l]), Entries(w.files[m])) {
      AddedLevel(v, w, level, f, l);
      AddedLevel(v, w, level, f, m);
      assert forall n: set<Entry> :: n + {} == n;
      LevelsAbove(v, l, m);
      if l == level {
        LevelInAll(v, m);
        AboveSubsets(flushed, AllEntries(v), flushed, Entries(v.files[m]));
        AboveUnion(Entries(v.files[l]), flushed, Entries(v.files[m]));
      } else if m == level {
        FlushedSharesNothing(v, level, f, l);
        AboveUnion(Entries(v.files[m]), flushed, Entries(v.files[l]));
      }
    }
    FlushKeepsLevelZero(v, w, level, f, nextFile);
  }

  lemma FlushedSharesNothing(v: Version, level: nat, f: FileMeta, l: nat)
    requires WellFormed(v) && level < NUM_LEVELS && ValidFile(f) && l <= level
    requires ClearDownTo(v, level, f.smallest.user, f.largest.user)
    ensures Above(Entries(v.files[l]), ToSet(f.table))
  {
    forall a, b | a in Entries(v.files[l]) && b in ToSet(f.table) ensures a.key.user != b.key.user {
      var g :| g in v.files[l] && a in g.table;
      FlushedFileApart(v, level, f, l, g);
      assert a in ToSet(g.table);
    }
  }

  lemma FlushKeepsLevelZero(v: Version, w: Version, level: nat, f: FileMeta, nextFile: nat)
    requires TreeInv(v, nextFile) && level < NUM_LEVELS && AddedAt(v, w, level, f)
    requires f.number == nextFile && Above(ToSet(f.table), AllEntries(v))
    ensures |w.files| == NUM_LEVELS && DistinctNumbers(w.files[0]) && NewerByNumber(w.files[0])
  {
    assert forall g :: g in w.files[0] <==> g in v.files[0] || (0 == level && g == f);
    assert forall g :: g in v.files[0] ==> HasFile(v, 0, g);
    forall g | g in v.files[0] ensures Above(ToSet(f.table), ToSet(g.table)) {
      TableInEntries(v.files[0], g);
      LevelInAll(v, 0);
      AboveSubsets(ToSet(f.table), AllEntries(v), ToSet(f.table), ToSet(g.table));
    }
  }

  lemma FlushKeepsNumbers(v: Version, w: Version, level: nat, f: FileMeta, nextFile: nat)
    requires |v.files| == NUM_LEVELS && NumbersAllocated(v, nextFile) && AddedAt(v, w, level, f)
    requires f.number == nextFile
    ensures NumbersAllocated(w, nextFile + 1)
  {
    assert forall l, g :: HasFile(w, l, g) ==> HasFile(v, l, g) || (l == level && g == f);
  }

  lemma FlushedOrder(mem: set<Entry>, imm: set<Entry>, tree: set<Entry>, last: SequenceNumber)
    requires SourcesOrdered(mem, imm, tree, last)
    ensures SourcesOrdered(mem, {}, tree + imm, last)
  {
    assert mem + {} + (tree + imm) == mem + imm + tree;
  }

  lemma FlushKeepsTree(v: Version, w: Version, level: nat, f: FileMeta, nextFile: nat)
    requires TreeInv(v, nextFile) && level < NUM_LEVELS && ValidFile(f) && AddedAt(v, w, level, f)
    requires level > 0 ==> ClearDownTo(v, level, f.smallest.user, f.largest.user)
    requires f.number == nextFile && Above(ToSet(f.table), AllEntries(v))
    ensures TreeInv(w, nextFile + 1)
    ensures AllEntries(w) == AllEntries(v) + ToSet(f.table)
  {
    hide WellFormed, Layered, NumbersAllocated, AddedAt, ClearDownTo, AllEntries;
    TreeSize(v, nextFile);
    FlushKeepsLevels(v, w, level, f);
    FlushKeepsLayers(v, w, level, f, nextFile);
    FlushKeepsNumbers(v, w, level, f, nextFile);
    AddedEntries(v, w, level, f);
  }

  lemma TreeSize(v: Version, nextFile: nat)
    requires TreeInv(v, nextFile)
    ensures |v.files| == NUM_LEVELS
  {
  }

  lemma FlushKeepsInv(a: Store, level: nat, fileSize: nat, b: Store)
    requires Inv(a) && FlushStep(a, level, fileSize, b)
    ensures Inv(b) && b.All() == a.All()
  {
    hide WellFormed, Layered, NumbersAllocated, AddedAt, ClearDownTo, AllEntries, Above, SeqUnique, SequencesUpTo, Sorted,
         ToSet;
    var es := a.imm.value;
    FlushedOrder(ToSet(a.mem), a.Imm(), AllEntries(a.version), a.lastSequence);
    EmptyToSet(es);
    NumbersGrow(a.version, a.nextFile);
    if es == [] {
      assert AllEntries(a.version) + {} == AllEntries(a.version);
    } else {
      var f := FileMeta(a.nextFile, fileSize, es[0].key, es[|es| - 1].key, es);
      FlushKeepsTree(a.version, b.version, level, f, a.nextFile);
    }
  }

  lemma EmptyToSet(es: seq<Entry>)
    ensures es == [] ==> ToSet(es) == {}
  {
  }

  lemma NumbersGrow(v: Version, nextFile: nat)
    requires NumbersAllocated(v, nextFile)
    ensures NumbersAllocated(v, nextFile + 1)
  {
  }

  // ----- Moves and compactions -----

  lemma NumbersAfterInstall(v: Version, w: Version, level: nat, inputs0: seq<FileMeta>, inputs1: seq<FileMeta>,
                            outputs: seq<FileMeta>, nextFile: nat)
    requires |v.files| == NUM_LEVELS && level + 1 < NUM_LEVELS && NumbersAllocated(v, nextFile)
    requires Installed(v, w, level, inputs0, inputs1, outputs) && NumberedFrom(outputs, nextFile)
    ensures NumbersAllocated(w, nextFile + |outputs|)
  {
    forall l, f | HasFile(w, l, f)
      ensures HasFile(v, l, f) || (l == level + 1 && f in outputs && nextFile <= f.number < nextFile + |outputs|)
    {
      assert NewMember(v, level, inputs0, inputs1, outputs, l, f);
      if f in outputs {
        var i :| 0 <= i < |outputs| && outputs[i] == f;
      }
    }
    forall f, g | f in outputs && g in outputs && f.number == g.number ensures f == g {
      var i :| 0 <= i < |outputs| && outputs[i] == f;
      var j :| 0 <= j < |outputs| && outputs[j] == g;
    }
  }

  lemma NumbersAfterMove(v: Version, w: Version, level: nat, file: FileMeta, nextFile: nat)
    requires |v.files| == NUM_LEVELS && level + 1 < NUM_LEVELS && NumbersAllocated(v, nextFile)
    requires file in v.files[level]
    requires Installed(v, w, level, [file], [], [file])
    ensures NumbersAllocated(w, nextFile)
  {
    assert HasFile(v, level, file);
    forall l, f | HasFile(w, l, f)
      ensures if f == file then l == level + 1 else HasFile(v, l, f)
    {
      assert NewMember(v, level, [file], [], [file], l, f);
      assert HasFile(v, l, f) && f == file ==> l == level;
    }
  }

  lemma TreeShrinks(mem: set<Entry>, imm: set<Entry>, tree: set<Entry>, smaller: set<Entry>, last: SequenceNumber)
    requires SourcesOrdered(mem, imm, tree, last) && smaller <= tree
    ensures SourcesOrdered(mem, imm, smaller, last)
  {
  }

  lemma SplitMemTables(mem: set<Entry>, imm: set<Entry>, tree: set<Entry>, last: SequenceNumber)
    requires SourcesOrdered(mem, imm, tree, last)
    ensures SeqUnique(mem + imm + tree) && SeqUnique(tree) && Above(mem + imm, tree)
  {
  }

  lemma OutputsFromInputs(upper: set<Entry>, v: Version, level: nat, inputs0: seq<FileMeta>, inputs1: seq<FileMeta>,
                          kept: set<Entry>)
    requires Selected(v, level, inputs0, inputs1)
    requires kept <= Entries(inputs0) + Entries(inputs1)
    ensures LayersOf(upper, v, level, inputs0, inputs1).With(kept) <= upper + AllEntries(v)
  {
    LayersAll(upper, v, level, inputs0, inputs1);
  }

  /** Replacing the inputs by a subset of their entries keeps the invariant. */
  lemma InstallKeepsInv(a: Store, level: nat, inputs0: seq<FileMeta>, inputs1: seq<FileMeta>, outputs: seq<FileMeta>,
                        b: Store)
    requires Inv(a) && Selected(a.version, level, inputs0, inputs1)
    requires Installed(a.version, b.version, level, inputs0, inputs1, outputs)
    requires ValidFiles(outputs) && Disjoint(outputs) && Entries(outputs) <= Entries(inputs0) + Entries(inputs1)
    requires NumbersAllocated(b.version, b.nextFile) && b == a.(version := b.version, nextFile := b.nextFile)
    ensures Inv(b)
    ensures b.All() == LayersOf(a.MemTables(), a.version, level, inputs0, inputs1).With(Entries(outputs))
    ensures b.All() <= a.All()
  {
    hide Installed, Selected, Sorted, SourcesOrdered, AllEntries, Entries, ValidFiles, Disjoint, NumbersAllocated;
    SelectedMembers(a.version, level, inputs0, inputs1);
    var mem, imm, last := ToSet(a.mem), a.Imm(), a.lastSequence;
    SplitMemTables(mem, imm, AllEntries(a.version), last);
    InstallKeepsStructure(a.version, b.version, level, inputs0, inputs1, outputs);
    InstalledEntries({}, a.version, b.version, level, inputs0, inputs1, outputs);
    OutputsFromInputs({}, a.version, level, inputs0, inputs1, Entries(outputs));
    assert {} + AllEntries(b.version) == AllEntries(b.version) && {} + AllEntries(a.version) == AllEntries(a.version);
    TreeShrinks(mem, imm, AllEntries(a.version), AllEntries(b.version), last);
    InstalledEntries(a.MemTables(), a.version, b.version, level, inputs0, inputs1, outputs);
  }
}
