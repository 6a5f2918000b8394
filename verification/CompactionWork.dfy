/** Merging the inputs of a compaction into output tables (db/db_impl.cc). */
module CompactionWork {
  import opened DbFormat
  import opened Reads
  import opened Files
  import opened Versions
  import opened Compactions
  import opened GrandparentStops
  import opened Cursors
  import opened Mergers

  /** A newer entry of the same user key that every reader of `snapshot` or later sees instead. */
  ghost predicate Shadowed(merged: set<Entry>, e: Entry, snapshot: SequenceNumber) {
    exists f :: f in merged && f.key.user == e.key.user && e.key.sequence < f.key.sequence <= snapshot
  }

  /** The entries a compaction need not keep, for readers at `snapshot` or later. */
  ghost predicate Obsolete(merged: set<Entry>, e: Entry, snapshot: SequenceNumber, v: Version, level: nat)
    requires |v.files| == NUM_LEVELS
  {
    || Shadowed(merged, e, snapshot)
    || (e.key.kind.Deletion? && e.key.sequence <= snapshot && BaseLevelForKey(v, level, e.key.user))
  }

  ghost function Survivors(es: seq<Entry>, merged: set<Entry>, snapshot: SequenceNumber, v: Version, level: nat)
    : seq<Entry>
    requires |v.files| == NUM_LEVELS
  {
    if es == [] then [] else
      var n := |es| - 1;
      Survivors(es[..n], merged, snapshot, v, level) +
      (if Obsolete(merged, es[n], snapshot, v, level) then [] else [es[n]])
  }

  lemma SurvivorsStep(es: seq<Entry>, n: nat, merged: set<Entry>, snapshot: SequenceNumber, v: Version, level: nat)
    requires |v.files| == NUM_LEVELS && n < |es|
    ensures Survivors(es[..n + 1], merged, snapshot, v, level) ==
            Survivors(es[..n], merged, snapshot, v, level) +
            (if Obsolete(merged, es[n], snapshot, v, level) then [] else [es[n]])
  {
    assert es[..n + 1][..n] == es[..n];
  }

  lemma {:induction false} SurvivorsMembers(es: seq<Entry>, merged: set<Entry>, snapshot: SequenceNumber, v: Version,
                                            level: nat)
    requires |v.files| == NUM_LEVELS
    ensures forall e :: e in Survivors(es, merged, snapshot, v, level) <==>
                        e in es && !Obsolete(merged, e, snapshot, v, level)
    decreases es
  {
    if es != [] {
      var n := |es| - 1;
      assert es == es[..n] + [es[n]];
      SurvivorsMembers(es[..n], merged, snapshot, v, level);
    }
  }

  /** The entries of the files, one file after the other (NewConcatenatingIterator). */
  function Concat(files: seq<FileMeta>): seq<Entry> {
    if files == [] then [] else Concat(files[..|files| - 1]) + files[|files| - 1].table
  }

  lemma ConcatAppend(files: seq<FileMeta>, f: FileMeta)
    ensures Concat(files + [f]) == Concat(files) + f.table
  {
    assert (files + [f])[..|files|] == files;
  }

  lemma {:induction false} ConcatMembers(files: seq<FileMeta>)
    ensures ToSet(Concat(files)) == Entries(files)
    decreases files
  {
    if files != [] {
      var n := |files| - 1;
      assert files == files[..n] + [files[n]];
      ConcatMembers(files[..n]);
      assert Entries(files) == Entries(files[..n]) + ToSet(files[n].table);
    }
  }

  /** Dropping entries keeps sorted data sorted. */
  lemma {:induction false} SurvivorsSorted(es: seq<Entry>, merged: set<Entry>, snapshot: SequenceNumber, v: Version,
                                           level: nat)
    requires |v.files| == NUM_LEVELS && Sorted(es)
    ensures Sorted(Survivors(es, merged, snapshot, v, level))
    decreases es
  {
    if es != [] {
      var n := |es| - 1;
      SurvivorsSorted(es[..n], merged, snapshot, v, level);
      SurvivorsMembers(es[..n], merged, snapshot, v, level);
      var kept := Survivors(es[..n], merged, snapshot, v, level);
      forall i | 0 <= i < |kept| ensures Less(kept[i].key, es[n].key) {
        assert kept[i] in es[..n];
      }
    }
  }

  lemma EndIsSorted(front: seq<Entry>, end: seq<Entry>)
    requires Sorted(front + end)
    ensures Sorted(end)
  {
    assert forall i :: 0 <= i < |end| ==> end[i] == (front + end)[|front| + i];
  }

  /** Tables cut one after the other from sorted data do not overlap. */
  lemma {:induction false} CutsAreDisjoint(files: seq<FileMeta>)
    requires ValidFiles(files) && Sorted(Concat(files))
    ensures Disjoint(files)
    decreases files
  {
    if files != [] {
      var n := |files| - 1;
      var all, front, last := Concat(files), Concat(files[..n]), files[n].table;
      assert all == front + last;
      assert forall i :: 0 <= i < |front| ==> all[i] == front[i];
      CutsAreDisjoint(files[..n]);
      ConcatMembers(files[..n]);
      forall i, j | 0 <= i < j < |files| ensures Precedes(files, i, j) {
        if j < n {
          assert Precedes(files[..n], i, j);
        } else {
          var f := files[i];
          assert files[..n][i] == f && f in files && files[n] in files;
          var e := f.table[|f.table| - 1];
          assert f in files[..n] && e in f.table;
          assert e in Entries(files[..n]);
          assert e in ToSet(front);
          var p :| 0 <= p < |front| && front[p] == e;
          assert Less(all[p].key, all[|front|].key);
        }
      }
    }
  }

  /** In sorted, sequence-unique input an entry is shadowed exactly when its predecessor of the same
      user key is already visible to the oldest snapshot. */
  lemma ShadowedByPredecessor(input: seq<Entry>, i: nat, snapshot: SequenceNumber)
    requires Sorted(input) && SeqUnique(ToSet(input)) && i < |input|
    ensures Shadowed(ToSet(input), input[i], snapshot) <==>
            i > 0 && input[i - 1].key.user == input[i].key.user && input[i - 1].key.sequence <= snapshot
  {
    var e := input[i];
    if Shadowed(ToSet(input), e, snapshot) {
      var f :| f in ToSet(input) && f.key.user == e.key.user && e.key.sequence < f.key.sequence <= snapshot;
      var j :| 0 <= j < |input| && input[j] == f;
      assert j > i ==> Less(e.key, f.key);
      assert j < i;
      assert Less(input[i - 1].key, e.key);
      assert j < i - 1 ==> Less(f.key, input[i - 1].key);
    }
    if i > 0 && input[i - 1].key.user == e.key.user && input[i - 1].key.sequence <= snapshot {
      var f := input[i - 1];
      assert Less(f.key, e.key);
      assert f in ToSet(input) && e in ToSet(input);
    }
  }

  /** FinishCompactionOutputFile: the table described by its first and last key. */
  function FinishOutput(number: nat, table: seq<Entry>, fileSize: nat): (f: FileMeta)
    requires table != [] && Sorted(table)
    ensures ValidFile(f) && f.table == table && f.number == number
  {
    FileMeta(number, fileSize, table[0].key, table[|table| - 1].key, table)
  }

  ghost predicate NumberedFrom(files: seq<FileMeta>, first: nat) {
    forall i :: 0 <= i < |files| ==> files[i].number == first + i
  }

  /** No table goes on after the entry with which it reaches the limit; `written` counts the bytes of an open
      table, `finished` those of a closed one. */
  ghost predicate ClosedAtLimit(files: seq<FileMeta>, written: seq<Entry> -> nat, finished: seq<Entry> -> nat,
                                limit: nat) {
    forall f :: f in files ==>
      && f.fileSize == finished(f.table)
      && forall n :: 0 < n < |f.table| ==> written(f.table[..n]) < limit
  }

  /** Every table but the last was closed because it had reached the limit. */
  ghost predicate FullButLast(files: seq<FileMeta>, written: seq<Entry> -> nat, limit: nat) {
    forall i :: 0 <= i < |files| - 1 ==> written(files[i].table) >= limit
  }

  ghost predicate AllFull(files: seq<FileMeta>, written: seq<Entry> -> nat, limit: nat) {
    forall f :: f in files ==> written(f.table) >= limit
  }

  lemma {:induction false} ConcatFirst(files: seq<FileMeta>)
    requires files != []
    ensures Concat(files) == files[0].table + Concat(files[1..])
    decreases files
  {
    var n := |files| - 1;
    if n > 0 {
      ConcatFirst(files[..n]);
      assert files[..n][1..] == files[1..][..n - 1];
    } else {
      assert files[..0] == [] && files[1..] == [];
    }
  }

  function LastKey(table: seq<Entry>): InternalKey
    requires table != []
  {
    table[|table| - 1].key
  }

  /** The table was closed because it had reached the limit, or because a stop comes before `next`, where the one after it begins. */
  ghost predicate ClosedRightly(table: seq<Entry>, next: InternalKey, grandparents: seq<FileMeta>, data: seq<Entry>,
                                written: seq<Entry> -> nat, limit: nat)
  {
    table != [] && (written(table) >= limit || StopBetween(grandparents, data, limit, LastKey(table), next))
  }

  /** No stop lies inside a table, and every table but the last ends because it is full or because of a stop. */
  ghost predicate CutAtStops(files: seq<FileMeta>, grandparents: seq<FileMeta>, data: seq<Entry>, written: seq<Entry> -> nat, limit: nat) {
    && (forall f :: f in files ==> f.table != [] && !StopBetween(grandparents, data, limit, f.table[0].key, LastKey(f.table)))
    && forall i :: 0 <= i < |files| - 1 ==>
         ClosedRightly(files[i].table, files[i + 1].table[0].key, grandparents, data, written, limit)
  }

  /** With few grandparents the cuts are made by size alone. */
  lemma FewStopsCutBySize(files: seq<FileMeta>, grandparents: seq<FileMeta>, data: seq<Entry>, written: seq<Entry> -> nat, limit: nat)
    requires ValidFiles(files) && TotalFileSize(grandparents) <= 10 * limit
    ensures CutAtStops(files, grandparents, data, written, limit) <==> FullButLast(files, written, limit)
  {
    hide StopBetween;
    forall a, b ensures !StopBetween(grandparents, data, limit, a, b) {
      NoStops(grandparents, data, limit, a, b);
    }
    assert forall i :: 0 <= i < |files| ==> files[i] in files;
    if CutAtStops(files, grandparents, data, written, limit) {
      forall i | 0 <= i < |files| - 1 ensures written(files[i].table) >= limit {
        assert ClosedRightly(files[i].table, files[i + 1].table[0].key, grandparents, data, written, limit);
      }
    }
  }

  /** What the rules for closing a table leave. */
  ghost predicate CutByRules(files: seq<FileMeta>, grandparents: seq<FileMeta>, data: seq<Entry>, written: seq<Entry> -> nat,
                             finished: seq<Entry> -> nat, limit: nat, first: nat)
  {
    && ValidFiles(files) && NumberedFrom(files, first)
    && ClosedAtLimit(files, written, finished, limit) && CutAtStops(files, grandparents, data, written, limit)
  }

  /** The rules leave one way to cut. */
  lemma {:induction false} CutsAreUnique(a: seq<FileMeta>, b: seq<FileMeta>, grandparents: seq<FileMeta>, data: seq<Entry>,
                                         written: seq<Entry> -> nat, finished: seq<Entry> -> nat, limit: nat, first: nat)
    requires CutByRules(a, grandparents, data, written, finished, limit, first)
    requires CutByRules(b, grandparents, data, written, finished, limit, first)
    requires Concat(a) == Concat(b)
    ensures a == b
    decreases |a|
  {
    NoTables(a);
    NoTables(b);
    hide Sorted, CutByRules, Concat, CutAtStops, ClosedAtLimit, ValidFiles;
    if a != [] {
      ConcatFirst(a);
      ConcatFirst(b);
      RestIsCut(a, grandparents, data, written, finished, limit, first);
      RestIsCut(b, grandparents, data, written, finished, limit, first);
      FirstCut(a, b, grandparents, data, written, finished, limit);
      FirstCut(b, a, grandparents, data, written, finished, limit);
      SameFirst(a, b);
      CutsAreUnique(a[1..], b[1..], grandparents, data, written, finished, limit, first + 1);
      assert a == [a[0]] + a[1..] && b == [b[0]] + b[1..];
    }
  }

  lemma RestIsCut(files: seq<FileMeta>, grandparents: seq<FileMeta>, data: seq<Entry>, written: seq<Entry> -> nat,
                  finished: seq<Entry> -> nat, limit: nat, first: nat)
    requires files != [] && CutByRules(files, grandparents, data, written, finished, limit, first)
    ensures CutByRules(files[1..], grandparents, data, written, finished, limit, first + 1)
    ensures ValidFiles(files) && ClosedAtLimit(files, written, finished, limit) && CutAtStops(files, grandparents, data, written, limit)
    ensures files[0] == FileMeta(first, finished(files[0].table), files[0].table[0].key, files[0].table[|files[0].table| - 1].key,
                                 files[0].table)
  {
    hide StopBetween;
    assert files[0] in files;
    var rest := files[1..];
    forall i | 0 <= i < |rest| - 1
      ensures ClosedRightly(rest[i].table, rest[i + 1].table[0].key, grandparents, data, written, limit)
    {
      assert rest[i] == files[i + 1] && rest[i + 1] == files[i + 2];
    }
  }

  lemma NoTables(files: seq<FileMeta>)
    requires ValidFiles(files)
    ensures Concat(files) == [] <==> files == []
  {
    if files != [] {
      assert files[|files| - 1] in files;
    }
  }

  /** The first table of one way to cut is not shorter than that of another. */
  lemma FirstCut(a: seq<FileMeta>, b: seq<FileMeta>, grandparents: seq<FileMeta>, data: seq<Entry>, written: seq<Entry> -> nat,
                 finished: seq<Entry> -> nat, limit: nat)
    requires a != [] && b != [] && ValidFiles(a) && ValidFiles(b)
    requires a[0].table + Concat(a[1..]) == b[0].table + Concat(b[1..])
    requires CutAtStops(a, grandparents, data, written, limit)
    requires ClosedAtLimit(b, written, finished, limit) && CutAtStops(b, grandparents, data, written, limit)
    ensures |a[0].table| >= |b[0].table|
  {
    hide StopBetween, Less;
    assert a[0] in a && b[0] in b;
    var s, t := a[0].table, b[0].table;
    ShorterIsPrefix(s, Concat(a[1..]), t, Concat(b[1..]));
    if |s| < |t| {
      ConcatFirst(a[1..]);
      assert a[1..][0] == a[1] && a[1] in a;
      assert (s + Concat(a[1..]))[|s|] == a[1].table[0] == t[|s|];
      assert ClosedRightly(s, a[1].table[0].key, grandparents, data, written, limit);
      SortedKeys(t, 0, |s| - 1);
      SortedKeys(t, |s|, |t| - 1);
      if StopBetween(grandparents, data, limit, LastKey(s), t[|s|].key) {
        WiderHasStop(grandparents, data, limit, t[0].key, LastKey(s), t[|s|].key, LastKey(t));
      }
    }
  }

  lemma ShorterIsPrefix(s: seq<Entry>, x: seq<Entry>, t: seq<Entry>, y: seq<Entry>)
    requires s + x == t + y
    ensures |s| < |t| ==> s == t[..|s|] && x != []
  {
    if |s| < |t| {
      assert (s + x)[..|s|] == s && (t + y)[..|s|] == t[..|s|];
    }
  }

  lemma SameFirst(a: seq<FileMeta>, b: seq<FileMeta>)
    requires a != [] && b != [] && |a[0].table| == |b[0].table|
    requires a[0].table + Concat(a[1..]) == b[0].table + Concat(b[1..])
    ensures a[0].table == b[0].table && Concat(a[1..]) == Concat(b[1..])
  {
    var s, t := a[0].table, b[0].table;
    assert s == (s + Concat(a[1..]))[..|s|] && t == (t + Concat(b[1..]))[..|s|];
    assert Concat(a[1..]) == (s + Concat(a[1..]))[|s|..] && Concat(b[1..]) == (t + Concat(b[1..]))[|s|..];
  }

  /** The tables finished so far and the one being built. */
  class CompactionState {
    const firstNumber: nat
    var outputs: seq<FileMeta>
    var building: seq<Entry>
    var nextNumber: nat

    constructor (firstNumber: nat)
      ensures this.firstNumber == firstNumber && outputs == [] && building == [] && Valid()
    {
      this.firstNumber, nextNumber, outputs, building := firstNumber, firstNumber, [], [];
    }

    ghost predicate Valid()
      reads this
    {
      && ValidFiles(outputs) && NumberedFrom(outputs, firstNumber)
      && nextNumber == firstNumber + |outputs| + (if building == [] then 0 else 1)
    }

    /** All entries written, in order. */
    ghost function Written(): seq<Entry>
      reads this
    {
      Concat(outputs) + building
    }

    /** Every cut among the first `i` entries was made where the rules ask for one. */
    ghost predicate CutRightly(grandparents: seq<FileMeta>, data: seq<Entry>, i: nat, limit: nat, written: seq<Entry> -> nat,
                               finished: seq<Entry> -> nat)
      reads this
    {
      && ClosedAtLimit(outputs, written, finished, limit) && CutAtStops(outputs, grandparents, data, written, limit)
      && (forall n :: 0 < n <= |building| ==> written(building[..n]) < limit)
      && ((outputs != [] || building != []) ==> 0 < i <= |data|)
      && (building != [] ==> !StopBetween(grandparents, data, limit, building[0].key, data[i - 1].key)
                             && !Less(data[i - 1].key, LastKey(building)))
      && (outputs != [] ==>
            ClosedRightly(outputs[|outputs| - 1].table, if building != [] then building[0].key else data[i - 1].key,
                          grandparents, data, written, limit))
    }

    method FinishCompactionOutputFile(fileSize: nat)
      requires Valid() && building != [] && Sorted(Written())
      modifies this
      ensures Valid() && building == []
      ensures Written() == old(Written())
      ensures exists f :: outputs == old(outputs) + [f] && f.table == old(building) && f.fileSize == fileSize
    {
      hide Sorted, Concat, ValidFile;
      EndIsSorted(Concat(outputs), building);
      var f := FinishOutput(nextNumber - 1, building, fileSize);
      ConcatAppend(outputs, f);
      outputs, building := outputs + [f], [];
      assert Written() == old(Written());
    }

    /** Add an entry to the current table, opening one if there is none. */
    method Add(e: Entry)
      requires Valid()
      modifies this
      ensures Valid() && building == old(building) + [e] && outputs == old(outputs)
      ensures Written() == old(Written()) + [e]
    {
      if building == [] {
        nextNumber := nextNumber + 1;
      }
      building := building + [e];
      assert Written() == old(Written()) + [e];
    }
  }

  /** A finished table is one more that was cut rightly, if nothing was wrong with it when it was closed. */
  lemma OneMoreCut(outputs: seq<FileMeta>, f: FileMeta, grandparents: seq<FileMeta>, data: seq<Entry>, written: seq<Entry> -> nat,
                   finished: seq<Entry> -> nat, limit: nat)
    requires ClosedAtLimit(outputs, written, finished, limit) && CutAtStops(outputs, grandparents, data, written, limit)
    requires f.table != [] && f.fileSize == finished(f.table) && forall n :: 0 < n < |f.table| ==> written(f.table[..n]) < limit
    requires !StopBetween(grandparents, data, limit, f.table[0].key, LastKey(f.table))
    requires outputs != [] ==>
               ClosedRightly(outputs[|outputs| - 1].table, f.table[0].key, grandparents, data, written, limit)
    ensures ClosedAtLimit(outputs + [f], written, finished, limit) && CutAtStops(outputs + [f], grandparents, data, written, limit)
  {
    hide StopBetween, ClosedRightly;
    var more := outputs + [f];
    forall i | 0 <= i < |more| - 1
      ensures ClosedRightly(more[i].table, more[i + 1].table[0].key, grandparents, data, written, limit)
    {
      assert more[i] == outputs[i] && (i + 1 < |outputs| ==> more[i + 1] == outputs[i + 1]);
    }
  }

  /** Close the current table first if the compaction wants a cut before `key`. */
  method CutBefore(c: Compaction, state: CompactionState, key: InternalKey, flushedSize: seq<Entry> -> nat,
                   finishedSize: seq<Entry> -> nat, ghost data: seq<Entry>, ghost i: nat)
    requires state.Valid() && Sorted(state.Written())
    requires Sorted(data) && i < |data| && key == data[i].key && Ascending(c.grandparents)
    requires Counted(c, data, i) && state.CutRightly(c.grandparents, data, i, c.maxFileSize, flushedSize, finishedSize)
    modifies state, c`grandparentIndex, c`seenKey, c`overlappedBytes
    ensures state.Valid() && state.Written() == old(state.Written())
    ensures Counted(c, data, i + 1)
    ensures state.CutRightly(c.grandparents, data, i + 1, c.maxFileSize, flushedSize, finishedSize)
  {
    hide Sorted, Concat, ValidFiles, NumberedFrom, StopBetween, IsStop, Counted, Less;
    var stop := StopsBefore(c, data, i, key);
    StillRightly(state, c.grandparents, data, i, c.maxFileSize, flushedSize, finishedSize);
    if stop && state.building != [] {
      StopEnds(state, c.grandparents, data, i, c.maxFileSize, flushedSize, finishedSize);
      ghost var outputs := state.outputs;
      state.FinishCompactionOutputFile(finishedSize(state.building));
      OneMoreCut(outputs, state.outputs[|outputs|], c.grandparents, data, flushedSize, finishedSize, c.maxFileSize);
    }
  }

  /** A stop between the current table and entry `i`, and none inside the table. */
  lemma StopEnds(state: CompactionState, grandparents: seq<FileMeta>, data: seq<Entry>, i: nat, limit: nat, written: seq<Entry> -> nat,
                 finished: seq<Entry> -> nat)
    requires Sorted(data) && i < |data| && IsStop(grandparents, data, limit, i) && state.building != []
    requires state.CutRightly(grandparents, data, i, limit, written, finished)
    ensures StopBetween(grandparents, data, limit, LastKey(state.building), data[i].key)
    ensures !StopBetween(grandparents, data, limit, state.building[0].key, LastKey(state.building))
  {
    hide CutAtStops, ClosedAtLimit, ClosedRightly;
    SortedKeys(data, i - 1, i);
    assert Less(data[i - 1].key, data[i].key);
    if StopBetween(grandparents, data, limit, state.building[0].key, LastKey(state.building)) {
      WiderHasStop(grandparents, data, limit, state.building[0].key, state.building[0].key, LastKey(state.building), data[i - 1].key);
    }
  }

  /** One more entry has gone by and there was no stop at it, or there is no current table. */
  lemma StillRightly(state: CompactionState, grandparents: seq<FileMeta>, data: seq<Entry>, i: nat, limit: nat, written: seq<Entry> -> nat,
                     finished: seq<Entry> -> nat)
    requires Sorted(data) && i < |data| && state.CutRightly(grandparents, data, i, limit, written, finished)
    ensures !IsStop(grandparents, data, limit, i) || state.building == [] ==>
              state.CutRightly(grandparents, data, i + 1, limit, written, finished)
  {
    hide StopBetween, CutAtStops, ClosedAtLimit;
    if i > 0 {
      SortedKeys(data, i - 1, i);
      if state.building != [] {
        NextStop(grandparents, data, limit, state.building[0].key, i);
      }
      if state.outputs != [] && StopBetween(grandparents, data, limit, LastKey(state.outputs[|state.outputs| - 1].table), data[i - 1].key) {
        var last := LastKey(state.outputs[|state.outputs| - 1].table);
        WiderHasStop(grandparents, data, limit, last, last, data[i - 1].key, data[i].key);
      }
    }
  }

  /** Write an entry, and close the table if it has become big enough. */
  method Emit(c: Compaction, state: CompactionState, e: Entry, flushedSize: seq<Entry> -> nat,
              finishedSize: seq<Entry> -> nat, ghost data: seq<Entry>, ghost i: nat)
    requires state.Valid() && Sorted(state.Written() + [e]) && i < |data| && e == data[i]
    requires state.CutRightly(c.grandparents, data, i + 1, c.maxFileSize, flushedSize, finishedSize)
    modifies state
    ensures state.Valid() && state.Written() == old(state.Written()) + [e]
    ensures state.CutRightly(c.grandparents, data, i + 1, c.maxFileSize, flushedSize, finishedSize)
  {
    hide Sorted, Concat, ValidFiles, NumberedFrom, StopBetween, Less;
    ghost var was := state.building;
    state.Add(e);
    assert forall n :: 0 < n <= |was| ==> state.building[..n] == was[..n];
    assert state.building[..|state.building|] == state.building;
    NoStopAtOnce(c.grandparents, data, c.maxFileSize, e.key);
    NotBefore(e.key);
    if flushedSize(state.building) >= c.maxFileSize {
      ghost var outputs := state.outputs;
      state.FinishCompactionOutputFile(finishedSize(state.building));
      OneMoreCut(outputs, state.outputs[|outputs|], c.grandparents, data, flushedSize, finishedSize, c.maxFileSize);
    }
  }

  lemma NotBefore(k: InternalKey)
    ensures !Less(k, k)
  {
  }

  /** Rule (A), then the rule for deletions that hide nothing deeper. */
  method ShouldDrop(c: Compaction, e: Entry, lastSequenceForKey: SequenceNumber, smallestSnapshot: SequenceNumber)
    returns (drop: bool)
    requires WellFormed(c.inputVersion) && c.PointersBehind(e.key.user)
    modifies c.levelPtrs
    ensures c.PointersBehind(e.key.user)
    ensures drop <==>
              || lastSequenceForKey <= smallestSnapshot
              || (e.key.kind.Deletion? && e.key.sequence <= smallestSnapshot
                  && BaseLevelForKey(c.inputVersion, c.level, e.key.user))
  {
    drop := false;
    if lastSequenceForKey <= smallestSnapshot {
      drop := true;
    } else if e.key.kind.Deletion? && e.key.sequence <= smallestSnapshot {
      drop := c.IsBaseLevelForKey(e.key.user);
    }
  }

  /** One turn of the merge loop. */
  method TakeEntry(c: Compaction, state: CompactionState, e: Entry, lastSequenceForKey: SequenceNumber,
                   smallestSnapshot: SequenceNumber, flushedSize: seq<Entry> -> nat, finishedSize: seq<Entry> -> nat,
                   ghost obsolete: bool, ghost data: seq<Entry>, ghost i: nat)
    requires WellFormed(c.inputVersion) && c.PointersBehind(e.key.user)
    requires state.Valid() && Sorted(state.Written()) && (!obsolete ==> Sorted(state.Written() + [e]))
    requires Sorted(data) && i < |data| && e == data[i] && Ascending(c.grandparents)
    requires Counted(c, data, i) && state.CutRightly(c.grandparents, data, i, c.maxFileSize, flushedSize, finishedSize)
    requires obsolete <==>
               || lastSequenceForKey <= smallestSnapshot
               || (e.key.kind.Deletion? && e.key.sequence <= smallestSnapshot
                   && BaseLevelForKey(c.inputVersion, c.level, e.key.user))
    modifies c`grandparentIndex, c`seenKey, c`overlappedBytes, c.levelPtrs, state
    ensures state.Valid() && state.Written() == old(state.Written()) + (if obsolete then [] else [e])
    ensures Counted(c, data, i + 1)
    ensures state.CutRightly(c.grandparents, data, i + 1, c.maxFileSize, flushedSize, finishedSize)
    ensures c.PointersBehind(e.key.user)
  {
    hide Counted, Ascending, Sorted, WellFormed, BaseLevelForKey, CompactionState.CutRightly, CompactionState.Valid, CompactionState.Written, PassedBefore;
    CutBefore(c, state, e.key, flushedSize, finishedSize, data, i);
    var drop := ShouldDrop(c, e, lastSequenceForKey, smallestSnapshot);
    if !drop {
      Emit(c, state, e, flushedSize, finishedSize, data, i);
    }
  }

  /** The input iterator stands at entry `i`, or past the last one. */
  ghost predicate StandsAt(input: MergingIterator, i: nat)
    reads input
  {
    input.Inv() && i <= |input.merged| && input.View() == Cursor(input.merged, None).At(i)
  }

  lemma Standing(input: MergingIterator, i: nat)
    requires StandsAt(input, i)
    ensures input.Inv() && (input.IsValid() <==> i < |input.merged|)
    ensures input.IsValid() ==> input.Entry() == input.merged[i]
  {
  }

  method First(input: MergingIterator)
    requires input.Inv()
    modifies input`children, input`current, input`direction
    ensures StandsAt(input, 0)
  {
    input.SeekToFirst();
  }

  method Advance(input: MergingIterator, ghost i: nat)
    requires StandsAt(input, i) && input.IsValid()
    modifies input`children, input`current, input`direction
    ensures StandsAt(input, i + 1)
  {
    Standing(input, i);
    input.Next();
  }

  /** The merge loop.  `flushedSize` and `finishedSize` stand for the table builder's byte counts. */
  method DoCompactionWork(c: Compaction, input: MergingIterator, smallestSnapshot: SequenceNumber,
                          flushedSize: seq<Entry> -> nat, finishedSize: seq<Entry> -> nat, firstNumber: nat)
    returns (outputs: seq<FileMeta>, nextNumber: nat)
    requires WellFormed(c.inputVersion)
    requires input.Inv() && Sorted(input.merged) && SeqUnique(ToSet(input.merged))
    requires smallestSnapshot < MAX_SEQUENCE
    requires Ascending(c.grandparents) && c.grandparentIndex == 0 && !c.seenKey && c.overlappedBytes == 0
    requires c.levelPtrs.Length == NUM_LEVELS && forall l :: 0 <= l < NUM_LEVELS ==> c.levelPtrs[l] == 0
    modifies c`grandparentIndex, c`seenKey, c`overlappedBytes, c.levelPtrs, input`children, input`current, input`direction
    ensures Concat(outputs) == Survivors(input.merged, ToSet(input.merged), smallestSnapshot, c.inputVersion, c.level)
    ensures ValidFiles(outputs) && Disjoint(outputs)
    ensures NumberedFrom(outputs, firstNumber) && nextNumber == firstNumber + |outputs|
    // Where the cuts fall: at the stops that the grandparents and the merged entries make, and where a table is full.
    ensures ClosedAtLimit(outputs, flushedSize, finishedSize, c.maxFileSize)
    ensures CutAtStops(outputs, c.grandparents, input.merged, flushedSize, c.maxFileSize)
    ensures c.FewGrandparents() ==> FullButLast(outputs, flushedSize, c.maxFileSize)
  {
    hide Counted, Ascending, CutAtStops, Sorted, SeqUnique, ToSet, Survivors, Shadowed, BaseLevelForKey, CoveredBy, Concat, ValidFiles, Disjoint,
         WellFormed, PassedBefore, NumberedFrom, MergingIterator.Inv, StandsAt, CompactionState.CutRightly, CompactionState.Valid,
         ClosedAtLimit, FullButLast;
    ghost var data, merged, v, level := input.merged, ToSet(input.merged), c.inputVersion, c.level;
    StartOfWork(c, data, merged, smallestSnapshot);
    var state := new CompactionState(firstNumber);
    NothingCut(c, data, state, flushedSize, finishedSize);
    var currentUserKey: Option<UserKey> := None;
    var lastSequenceForKey: SequenceNumber := MAX_SEQUENCE;
    ghost var i := 0;
    First(input);
    Standing(input, 0);
    while input.IsValid()
      invariant StandsAt(input, i) && i <= |data| && (input.IsValid() <==> i < |data|)
      invariant fresh(state) && state.Valid() && state.firstNumber == firstNumber
      invariant state.Written() == Survivors(data[..i], merged, smallestSnapshot, v, level)
      invariant i == 0 ==> currentUserKey.None?
      invariant i > 0 ==> currentUserKey == Some(data[i - 1].key.user)
                          && lastSequenceForKey == data[i - 1].key.sequence
      invariant i < |data| ==> c.PointersBehind(data[i].key.user)
      invariant Counted(c, data, i) && state.CutRightly(c.grandparents, data, i, c.maxFileSize, flushedSize, finishedSize)
      decreases |data| - i
    {
      Standing(input, i);
      var e := input.Entry();
      PrefixSurvivorsSorted(data, i, merged, smallestSnapshot, v, level);
      if currentUserKey != Some(e.key.user) {
        currentUserKey := Some(e.key.user);
        lastSequenceForKey := MAX_SEQUENCE;
      }
      ShadowedByPredecessor(data, i, smallestSnapshot);
      SurvivorsStep(data, i, merged, smallestSnapshot, v, level);
      PrefixSurvivorsSorted(data, i + 1, merged, smallestSnapshot, v, level);
      TakeEntry(c, state, e, lastSequenceForKey, smallestSnapshot, flushedSize, finishedSize,
                Obsolete(merged, e, smallestSnapshot, v, level), data, i);
      lastSequenceForKey := e.key.sequence;
      PointersStayBehind(c, data, i);
      Advance(input, i);
      i := i + 1;
      Standing(input, i);
    }
    PrefixSurvivorsSorted(data, |data|, merged, smallestSnapshot, v, level);
    assert data[..|data|] == data;
    outputs, nextNumber := FinishWork(c, state, flushedSize, finishedSize, data);
  }

  /** Close the last table. */
  method FinishWork(c: Compaction, state: CompactionState, flushedSize: seq<Entry> -> nat, finishedSize: seq<Entry> -> nat,
                    ghost data: seq<Entry>)
    returns (outputs: seq<FileMeta>, nextNumber: nat)
    requires state.Valid() && Sorted(state.Written())
    requires state.CutRightly(c.grandparents, data, |data|, c.maxFileSize, flushedSize, finishedSize)
    modifies state
    ensures Concat(outputs) == old(state.Written()) && ValidFiles(outputs) && Disjoint(outputs)
    ensures NumberedFrom(outputs, state.firstNumber) && nextNumber == state.firstNumber + |outputs|
    ensures ClosedAtLimit(outputs, flushedSize, finishedSize, c.maxFileSize)
    ensures CutAtStops(outputs, c.grandparents, data, flushedSize, c.maxFileSize)
    ensures c.FewGrandparents() ==> FullButLast(outputs, flushedSize, c.maxFileSize)
  {
    hide Sorted, Disjoint, ValidFile, StopBetween, Less;
    if state.building != [] {
      ghost var before := state.outputs;
      NoStopInside(state, c.grandparents, data, c.maxFileSize, flushedSize, finishedSize);
      state.FinishCompactionOutputFile(finishedSize(state.building));
      OneMoreCut(before, state.outputs[|before|], c.grandparents, data, flushedSize, finishedSize, c.maxFileSize);
    }
    assert state.Written() == Concat(state.outputs);
    CutsAreDisjoint(state.outputs);
    outputs, nextNumber := state.outputs, state.nextNumber;
    if c.FewGrandparents() {
      FewStopsCutBySize(outputs, c.grandparents, data, flushedSize, c.maxFileSize);
    }
  }

  lemma NoStopInside(state: CompactionState, grandparents: seq<FileMeta>, data: seq<Entry>, limit: nat, written: seq<Entry> -> nat,
                     finished: seq<Entry> -> nat)
    requires state.building != [] && state.CutRightly(grandparents, data, |data|, limit, written, finished)
    ensures !StopBetween(grandparents, data, limit, state.building[0].key, LastKey(state.building))
  {
    hide StopBetween;
    NotBefore(state.building[0].key);
    if StopBetween(grandparents, data, limit, state.building[0].key, LastKey(state.building)) {
      WiderHasStop(grandparents, data, limit, state.building[0].key, state.building[0].key, LastKey(state.building), data[|data| - 1].key);
    }
  }

  lemma NothingCut(c: Compaction, data: seq<Entry>, state: CompactionState, flushedSize: seq<Entry> -> nat, finishedSize: seq<Entry> -> nat)
    requires state.outputs == [] && state.building == [] && c.grandparentIndex == 0 && !c.seenKey && c.overlappedBytes == 0
    ensures Counted(c, data, 0) && state.CutRightly(c.grandparents, data, 0, c.maxFileSize, flushedSize, finishedSize)
  {
  }

  lemma StartOfWork(c: Compaction, input: seq<Entry>, merged: set<Entry>, snapshot: SequenceNumber)
    requires WellFormed(c.inputVersion)
    requires c.levelPtrs.Length == NUM_LEVELS && forall l :: 0 <= l < NUM_LEVELS ==> c.levelPtrs[l] == 0
    ensures |c.inputVersion.files| == NUM_LEVELS
    ensures Concat([]) + [] == Survivors(input[..0], merged, snapshot, c.inputVersion, c.level)
    ensures forall k :: c.PointersBehind(k)
  {
  }

  lemma PrefixSurvivorsSorted(input: seq<Entry>, n: nat, merged: set<Entry>, snapshot: SequenceNumber, v: Version,
                              level: nat)
    requires |v.files| == NUM_LEVELS && Sorted(input) && n <= |input|
    ensures Sorted(Survivors(input[..n], merged, snapshot, v, level))
  {
    SurvivorsSorted(input[..n], merged, snapshot, v, level);
  }

  /** The input ascends, so files passed for one key stay passed for the next. */
  lemma PointersStayBehind(c: Compaction, input: seq<Entry>, i: nat)
    requires WellFormed(c.inputVersion) && Sorted(input) && i < |input|
    requires c.PointersBehind(input[i].key.user)
    ensures i + 1 < |input| ==> c.PointersBehind(input[i + 1].key.user)
  {
    if i + 1 < |input| {
      assert Less(input[i].key, input[i + 1].key);
    }
  }
}
