/** What a compaction does to reads (db/db_impl.cc, db/version_set.cc). */
module CompactionSafety {
  import opened DbFormat
  import opened Reads
  import opened Files
  import opened Versions
  import opened InputSelection
  import opened Compactions
  import opened CompactionWork

  /** The store seen from a compaction: its inputs, what their two levels keep, what is above and below. */
  datatype Layers = Layers(above: set<Entry>, rest0: set<Entry>, in0: set<Entry>, rest1: set<Entry>,
                           in1: set<Entry>, below: set<Entry>) {
    ghost function Inputs(): set<Entry> {
      in0 + in1
    }

    ghost function All(): set<Entry> {
      above + rest0 + in0 + rest1 + in1 + below
    }

    /** The store once `kept` has replaced the inputs. */
    ghost function With(kept: set<Entry>): set<Entry> {
      above + rest0 + rest1 + kept + below
    }
  }

  ghost predicate NoSharedKeys(a: set<Entry>, b: set<Entry>) {
    forall x, y :: x in a && y in b ==> x.key.user != y.key.user
  }

  ghost predicate Ordered(x: Layers) {
    && SeqUnique(x.All())
    && Above(x.above, x.rest0 + x.in0 + x.rest1 + x.in1 + x.below)
    && Above(x.rest0, x.in0)
    && Above(x.rest0 + x.in0, x.rest1 + x.in1)
    && Above(x.rest0 + x.in0 + x.rest1 + x.in1, x.below)
    && NoSharedKeys(x.in0, x.rest1)
    && x.rest1 !! x.in1
  }

  ghost predicate NothingBelow(x: Layers, v: Version, level: nat)
    requires |v.files| == NUM_LEVELS
  {
    forall e :: e in x.below ==> !BaseLevelForKey(v, level, e.key.user)
  }

  ghost function Kept(x: Layers, snapshot: SequenceNumber, v: Version, level: nat): set<Entry>
    requires |v.files| == NUM_LEVELS
  {
    set e | e in x.Inputs() && !Obsolete(x.Inputs(), e, snapshot, v, level)
  }

  ghost function After(x: Layers, snapshot: SequenceNumber, v: Version, level: nat): set<Entry>
    requires |v.files| == NUM_LEVELS
  {
    x.With(Kept(x, snapshot, v, level))
  }

  /** A deletion that the compaction drops from the deeper input level although it still hides an older
      value of its key in a file of that level which is not an input. */
  ghost predicate Resurrects(x: Layers, snapshot: SequenceNumber, v: Version, level: nat, k: UserKey)
    requires |v.files| == NUM_LEVELS
  {
    && BaseLevelForKey(v, level, k)
    && Read(x.rest1, k, snapshot).Some?
    && exists e :: e in x.in1 && e.key.kind.Deletion? && Newest(x.All(), k, snapshot, e)
  }

  /** Sets with the same visible entries read the same. */
  lemma SameVisible(a: set<Entry>, s: SequenceNumber, b: set<Entry>, t: SequenceNumber, k: UserKey)
    requires SeqUnique(a) && SeqUnique(b)
    requires forall e :: e in a && Visible(e, k, s) <==> e in b && Visible(e, k, t)
    ensures Read(a, k, s) == Read(b, k, t)
  {
    if NoneVisible(a, k, s) {
      ReadOfNothing(a, k, s);
      ReadOfNothing(b, k, t);
    } else {
      var e := NewestExists(a, k, s);
      assert Newest(b, k, t, e);
      ReadIsNewest(a, k, s, e);
      ReadIsNewest(b, k, t, e);
    }
  }

  /** After a dropped deletion that was the newest visible entry, only files of the deeper level that
      were not inputs can still show its key. */
  lemma OnlyRestShows(x: Layers, snapshot: SequenceNumber, v: Version, level: nat, k: UserKey, s: SequenceNumber,
                      e: Entry, f: Entry)
    requires |v.files| == NUM_LEVELS && Ordered(x) && NothingBelow(x, v, level) && snapshot <= s
    requires Newest(x.All(), k, s, e) && e in x.Inputs() && Obsolete(x.Inputs(), e, snapshot, v, level)
    requires f in After(x, snapshot, v, level) && Visible(f, k, s)
    ensures e in x.in1 && f in x.rest1 && f.key.sequence <= snapshot
  {
    assert !Shadowed(x.Inputs(), e, snapshot);
    assert f in x.All() && f.key.sequence <= e.key.sequence;
    assert f !in Kept(x, snapshot, v, level);
    assert f !in x.below;
    assert f !in x.above;
    assert f !in x.rest0;
  }

  lemma DroppedTombstone(x: Layers, snapshot: SequenceNumber, v: Version, level: nat, k: UserKey, s: SequenceNumber,
                         e: Entry)
    requires |v.files| == NUM_LEVELS && Ordered(x) && NothingBelow(x, v, level) && snapshot <= s
    requires Newest(x.All(), k, s, e) && e in x.Inputs() && Obsolete(x.Inputs(), e, snapshot, v, level)
    ensures e.key.kind.Deletion? && BaseLevelForKey(v, level, k) && Newest(x.All(), k, snapshot, e)
    ensures Read(After(x, snapshot, v, level), k, s) == if e in x.in1 then Read(x.rest1, k, snapshot) else None
  {
    var after := After(x, snapshot, v, level);
    assert !Shadowed(x.Inputs(), e, snapshot);
    forall f | f in after && Visible(f, k, s)
      ensures e in x.in1 && f in x.rest1 && f.key.sequence <= snapshot
    {
      OnlyRestShows(x, snapshot, v, level, k, s, e, f);
    }
    if e in x.in1 {
      SameVisible(after, s, x.rest1, snapshot, k);
    } else {
      ReadOfNothing(after, k, s);
    }
  }

  /** The exact effect of a compaction on one read. */
  lemma CompactionRead(x: Layers, snapshot: SequenceNumber, v: Version, level: nat, k: UserKey, s: SequenceNumber)
    requires |v.files| == NUM_LEVELS && Ordered(x) && NothingBelow(x, v, level) && snapshot <= s
    requires !Resurrects(x, snapshot, v, level, k)
    ensures Read(After(x, snapshot, v, level), k, s) == Read(x.All(), k, s)
  {
    var after := After(x, snapshot, v, level);
    assert after <= x.All();
    if NoneVisible(x.All(), k, s) {
      ReadOfNothing(x.All(), k, s);
      ReadOfNothing(after, k, s);
    } else {
      var e := NewestExists(x.All(), k, s);
      ReadIsNewest(x.All(), k, s, e);
      if e in after {
        ReadIsNewest(after, k, s, e);
      } else {
        DroppedTombstone(x, snapshot, v, level, k, s, e);
      }
    }
  }

  lemma ResurrectionChangesRead(x: Layers, snapshot: SequenceNumber, v: Version, level: nat, k: UserKey)
    requires |v.files| == NUM_LEVELS && Ordered(x) && NothingBelow(x, v, level)
    requires Resurrects(x, snapshot, v, level, k)
    ensures Read(x.All(), k, snapshot) == None
    ensures Read(After(x, snapshot, v, level), k, snapshot).Some?
  {
    var e :| e in x.in1 && e.key.kind.Deletion? && Newest(x.All(), k, snapshot, e);
    ReadIsNewest(x.All(), k, snapshot, e);
    DroppedTombstone(x, snapshot, v, level, k, snapshot, e);
  }

  ghost predicate ReadsPreserved(before: set<Entry>, after: set<Entry>, snapshot: SequenceNumber) {
    forall k: UserKey, s: SequenceNumber :: snapshot <= s ==> Read(after, k, s) == Read(before, k, s)
  }

  /** A compaction keeps every live read exactly when it resurrects no key. */
  lemma CompactionPreservesReads(x: Layers, snapshot: SequenceNumber, v: Version, level: nat)
    requires |v.files| == NUM_LEVELS && Ordered(x) && NothingBelow(x, v, level)
    ensures ReadsPreserved(x.All(), After(x, snapshot, v, level), snapshot) <==>
            forall k :: !Resurrects(x, snapshot, v, level, k)
  {
    if forall k :: !Resurrects(x, snapshot, v, level, k) {
      forall k: UserKey, s: SequenceNumber | snapshot <= s
        ensures Read(After(x, snapshot, v, level), k, s) == Read(x.All(), k, s)
      {
        CompactionRead(x, snapshot, v, level, k, s);
      }
    } else {
      var k :| Resurrects(x, snapshot, v, level, k);
      ResurrectionChangesRead(x, snapshot, v, level, k);
    }
  }
}
