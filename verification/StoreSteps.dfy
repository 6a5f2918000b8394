/** The steps of the store leave no choice: state and step determine the next state. */
module StoreSteps {
  import opened DbFormat
  import opened Files
  import opened Versions
  import opened Compactions
  import opened Layering
  import opened Stores
  import Builders

  /** Sorted data with the same entries is the same. */
  lemma {:induction false} SortedIsUnique(a: seq<Entry>, b: seq<Entry>)
    requires Sorted(a) && Sorted(b) && ToSet(a) == ToSet(b)
    ensures a == b
    decreases a
  {
    EmptyTogether(a);
    EmptyTogether(b);
    if a != [] {
      assert a[0] in ToSet(b) && b[0] in ToSet(a);
      FirstIsLeast(a, b[0]);
      FirstIsLeast(b, a[0]);
      RestOf(a);
      RestOf(b);
      SortedIsUnique(a[1..], b[1..]);
      assert a == [a[0]] + a[1..] && b == [b[0]] + b[1..];
    }
  }

  lemma EmptyTogether(es: seq<Entry>)
    ensures es == [] <==> ToSet(es) == {}
  {
    assert es == [] || es[0] in ToSet(es);
  }

  lemma FirstIsLeast(es: seq<Entry>, e: Entry)
    requires Sorted(es) && e in es
    ensures e == es[0] || Less(es[0].key, e.key)
  {
    var i :| 0 <= i < |es| && es[i] == e;
  }

  lemma RestOf(es: seq<Entry>)
    requires Sorted(es) && es != []
    ensures Sorted(es[1..]) && ToSet(es[1..]) == ToSet(es) - {es[0]}
  {
    assert es == [es[0]] + es[1..];
    forall e | e in es[1..] ensures e != es[0] {
      var i :| 0 <= i < |es[1..]| && es[1..][i] == e;
      assert Less(es[0].key, es[i + 1].key);
    }
  }

  lemma VersionIsUnique(v: Version, w: Version)
    requires |v.files| == |w.files| == NUM_LEVELS
    requires forall l :: 0 <= l < NUM_LEVELS ==> SortedBySmallest(v.files[l]) && SortedBySmallest(w.files[l])
    requires forall l, f :: 0 <= l < NUM_LEVELS ==> (f in v.files[l] <==> f in w.files[l])
    ensures v == w
  {
    forall l | 0 <= l < NUM_LEVELS ensures v.files[l] == w.files[l] {
      assert Builders.MembersOf(v.files[l]) == Builders.MembersOf(w.files[l]);
      Builders.SortedLevelIsUnique(v.files[l], w.files[l]);
    }
    assert v.files == w.files;
  }

  /** A write leaves one sorted memtable, a flush and a compaction one version. */
  lemma StepIsDeterministic(a: Store, step: Step, b: Store, c: Store)
    requires WellFormed(a.version)
    requires Next(a, step, b) && Next(a, step, c)
    ensures b == c
  {
    hide SortedBySmallest, NewEntries, KeptEntries, NewMember, Sorted, Selected, Entries, ValidFiles, Disjoint;
    match step
    case Write(_) => SortedIsUnique(b.mem, c.mem);
    case Flush(_, _) =>
      if a.imm.value != [] {
        VersionIsUnique(b.version, c.version);
      }
    case TrivialMove(_, _) => VersionIsUnique(b.version, c.version);
    case Compact(_, _, _, _) => VersionIsUnique(b.version, c.version);
    case _ =>
  }
}
