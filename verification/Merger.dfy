/** The merging iterator: several sorted children seen as one (table/merger.cc). */
module Mergers {
  import opened DbFormat
  import opened Cursors

  datatype Direction = Forward | Reverse

  /** A lower bound on keys: none, at or after a key, or strictly after a key. */
  datatype Lower = Anything | From(key: InternalKey) | Beyond(key: InternalKey)

  predicate Passes(b: Lower, k: InternalKey) {
    match b
    case Anything => true
    case From(t) => !Less(k, t)
    case Beyond(t) => Less(t, k)
  }

  /** An upper bound on keys. */
  datatype Upper = Everything | UpTo(key: InternalKey) | Before(key: InternalKey)

  predicate Under(b: Upper, k: InternalKey) {
    match b
    case Everything => true
    case UpTo(t) => !Less(t, k)
    case Before(t) => Less(k, t)
  }

  /** The child stands at its first entry that passes the bound. */
  ghost predicate AtFirst(c: Cursor, b: Lower) {
    c.Ok() && forall x :: 0 <= x < |c.data| ==>
                (Passes(b, c.data[x].key) <==> c.Valid() && c.pos.value <= x)
  }

  /** The child stands at its last entry under the bound. */
  ghost predicate AtLast(c: Cursor, b: Upper) {
    c.Ok() && forall x :: 0 <= x < |c.data| ==>
                (Under(b, c.data[x].key) <==> c.Valid() && x <= c.pos.value)
  }

  ghost predicate AllAtFirst(children: seq<Cursor>, b: Lower) {
    forall i :: 0 <= i < |children| ==> AtFirst(children[i], b)
  }

  ghost predicate AllAtLast(children: seq<Cursor>, b: Upper) {
    forall i :: 0 <= i < |children| ==> AtLast(children[i], b)
  }

  /** The children together hold the entries of `merged`, each key in one child only. */
  ghost predicate Partition(children: seq<Cursor>, merged: seq<Entry>) {
    && Sorted(merged)
    && (forall i :: 0 <= i < |children| ==> children[i].Ok())
    && (forall i, x :: 0 <= i < |children| && 0 <= x < |children[i].data| ==> children[i].data[x] in merged)
    && (forall e :: e in merged ==> HeldByOne(children, e))
  }

  ghost predicate HeldByOne(children: seq<Cursor>, e: Entry) {
    exists i :: HeldOnlyBy(children, e, i)
  }

  ghost predicate HeldOnlyBy(children: seq<Cursor>, e: Entry, i: int) {
    && 0 <= i < |children| && e in children[i].data
    && forall j :: 0 <= j < |children| && j != i ==> e !in children[j].data
  }

  ghost predicate SameData(a: seq<Cursor>, b: seq<Cursor>) {
    |a| == |b| && forall i :: 0 <= i < |a| ==> a[i].data == b[i].data
  }

  ghost predicate IsLeast(merged: seq<Entry>, b: Lower, e: Entry) {
    e in merged && Passes(b, e.key) && forall f :: f in merged && Passes(b, f.key) ==> !Less(f.key, e.key)
  }

  ghost predicate IsGreatest(merged: seq<Entry>, b: Upper, e: Entry) {
    e in merged && Under(b, e.key) && forall f :: f in merged && Under(b, f.key) ==> !Less(e.key, f.key)
  }

  method FindSmallest(children: seq<Cursor>) returns (current: Option<nat>)
    ensures current.None? ==> forall i :: 0 <= i < |children| ==> !children[i].Valid()
    ensures current.Some? ==> current.value < |children| && children[current.value].Valid()
    ensures current.Some? ==>
              forall i :: 0 <= i < |children| && children[i].Valid() ==> !Less(children[i].Key(), children[current.value].Key())
    ensures current.Some? ==>
              forall i :: 0 <= i < current.value && children[i].Valid() ==> Less(children[current.value].Key(), children[i].Key())
  {
    current := None;
    for i := 0 to |children|
      invariant current.None? ==> forall j :: 0 <= j < i ==> !children[j].Valid()
      invariant current.Some? ==> current.value < i && children[current.value].Valid()
      invariant current.Some? ==>
                  forall j :: 0 <= j < i && children[j].Valid() ==> !Less(children[j].Key(), children[current.value].Key())
      invariant current.Some? ==>
                  forall j :: 0 <= j < current.value && children[j].Valid() ==> Less(children[current.value].Key(), children[j].Key())
    {
      if children[i].Valid() {
        if current.None? || Less(children[i].Key(), children[current.value].Key()) {
          current := Some(i);
        }
      }
    }
  }

  method FindLargest(children: seq<Cursor>) returns (current: Option<nat>)
    ensures current.None? ==> forall i :: 0 <= i < |children| ==> !children[i].Valid()
    ensures current.Some? ==> current.value < |children| && children[current.value].Valid()
    ensures current.Some? ==>
              forall i :: 0 <= i < |children| && children[i].Valid() ==> !Less(children[current.value].Key(), children[i].Key())
    ensures current.Some? ==>
              forall i :: current.value < i < |children| && children[i].Valid() ==> Less(children[i].Key(), children[current.value].Key())
  {
    current := None;
    for i := |children| downto 0
      invariant current.None? ==> forall j :: i <= j < |children| ==> !children[j].Valid()
      invariant current.Some? ==> i <= current.value < |children| && children[current.value].Valid()
      invariant current.Some? ==>
                  forall j :: i <= j < |children| && children[j].Valid() ==> !Less(children[current.value].Key(), children[j].Key())
      invariant current.Some? ==>
                  forall j :: current.value < j < |children| && children[j].Valid() ==> Less(children[j].Key(), children[current.value].Key())
    {
      if children[i].Valid() {
        if current.None? || Less(children[current.value].Key(), children[i].Key()) {
          current := Some(i);
        }
      }
    }
  }

  /** If every child stands at its first entry past a bound, the smallest of them is the first of all. */
  lemma SmallestIsLeast(children: seq<Cursor>, merged: seq<Entry>, b: Lower, current: Option<nat>)
    requires Partition(children, merged) && AllAtFirst(children, b)
    requires current.None? ==> forall i :: 0 <= i < |children| ==> !children[i].Valid()
    requires current.Some? ==> current.value < |children| && children[current.value].Valid()
    requires current.Some? ==>
               forall i :: 0 <= i < |children| && children[i].Valid() ==> !Less(children[i].Key(), children[current.value].Key())
    ensures current.None? ==> forall f :: f in merged ==> !Passes(b, f.key)
    ensures current.Some? ==> IsLeast(merged, b, children[current.value].Entry())
    ensures current.Some? ==> AllAtFirst(children, From(children[current.value].Key()))
  {
    forall f | f in merged && Passes(b, f.key)
      ensures current.Some? && !Less(f.key, children[current.value].Key())
    {
      assert HeldByOne(children, f);
      var i :| HeldOnlyBy(children, f, i);
      var x :| 0 <= x < |children[i].data| && children[i].data[x] == f;
      assert AtFirst(children[i], b);
      if children[i].pos.value < x {
        assert Less(children[i].Key(), children[i].data[x].key);
      }
    }
    if current.Some? {
      var k := children[current.value].Key();
      assert AtFirst(children[current.value], b);
      forall i | 0 <= i < |children| ensures AtFirst(children[i], From(k)) {
        StandsFrom(children[i], b, k);
      }
    }
  }

  lemma StandsFrom(c: Cursor, b: Lower, k: InternalKey)
    requires AtFirst(c, b) && Passes(b, k)
    requires c.Valid() ==> !Less(c.Key(), k)
    ensures AtFirst(c, From(k))
  {
    forall x | 0 <= x < |c.data| ensures Passes(From(k), c.data[x].key) <==> c.Valid() && c.pos.value <= x {
      if c.Valid() && c.pos.value < x {
        assert Less(c.Key(), c.data[x].key);
      }
    }
  }

  /** If every child stands at its last entry under a bound, the largest of them is the last of all. */
  lemma LargestIsGreatest(children: seq<Cursor>, merged: seq<Entry>, b: Upper, current: Option<nat>)
    requires Partition(children, merged) && AllAtLast(children, b)
    requires current.None? ==> forall i :: 0 <= i < |children| ==> !children[i].Valid()
    requires current.Some? ==> current.value < |children| && children[current.value].Valid()
    requires current.Some? ==>
               forall i :: 0 <= i < |children| && children[i].Valid() ==> !Less(children[current.value].Key(), children[i].Key())
    ensures current.None? ==> forall f :: f in merged ==> !Under(b, f.key)
    ensures current.Some? ==> IsGreatest(merged, b, children[current.value].Entry())
    ensures current.Some? ==> AllAtLast(children, UpTo(children[current.value].Key()))
  {
    forall f | f in merged && Under(b, f.key)
      ensures current.Some? && !Less(children[current.value].Key(), f.key)
    {
      assert HeldByOne(children, f);
      var i :| HeldOnlyBy(children, f, i);
      var x :| 0 <= x < |children[i].data| && children[i].data[x] == f;
      assert AtLast(children[i], b);
      if x < children[i].pos.value {
        assert Less(children[i].data[x].key, children[i].Key());
      }
    }
    if current.Some? {
      var k := children[current.value].Key();
      assert AtLast(children[current.value], b);
      forall i | 0 <= i < |children| ensures AtLast(children[i], UpTo(k)) {
        StandsUpTo(children[i], b, k);
      }
    }
  }

  lemma StandsUpTo(c: Cursor, b: Upper, k: InternalKey)
    requires AtLast(c, b) && Under(b, k)
    requires c.Valid() ==> !Less(k, c.Key())
    ensures AtLast(c, UpTo(k))
  {
    forall x | 0 <= x < |c.data| ensures Under(UpTo(k), c.data[x].key) <==> c.Valid() && x <= c.pos.value {
      if c.Valid() && x < c.pos.value {
        assert Less(c.data[x].key, c.Key());
      }
    }
  }

  // ----- What the interface operations do to a child -----

  lemma SeekStands(c: Cursor, target: InternalKey)
    requires c.Ok()
    ensures AtFirst(c.SeekToFirst(), Anything) && AtLast(c.SeekToLast(), Everything)
    ensures AtFirst(c.Seek(target), From(target))
  {
    LowerBoundSplits(c.data, target);
  }

  /** Stepping over the entry with key `k`. */
  lemma StepStands(c: Cursor, k: InternalKey)
    requires c.Ok() && c.Valid() && c.Key() == k
    ensures AtFirst(c.Next(), Beyond(k)) && AtLast(c.Prev(), Before(k))
  {
    forall x | 0 <= x < |c.data|
      ensures Less(k, c.data[x].key) <==> c.pos.value < x
      ensures Less(c.data[x].key, k) <==> x < c.pos.value
    {
      if x < c.pos.value {
        assert Less(c.data[x].key, c.Key());
      } else if c.pos.value < x {
        assert Less(c.Key(), c.data[x].key);
      }
    }
  }

  /** A child without the key `k` makes no difference between "at or after" and "after". */
  lemma AbsentKeyStands(c: Cursor, k: InternalKey)
    requires forall e :: e in c.data ==> Less(e.key, k) || Less(k, e.key)
    ensures AtFirst(c, From(k)) ==> AtFirst(c, Beyond(k))
    ensures AtLast(c, UpTo(k)) ==> AtLast(c, Before(k))
  {
    forall x | 0 <= x < |c.data|
      ensures Passes(From(k), c.data[x].key) == Passes(Beyond(k), c.data[x].key)
      ensures Under(UpTo(k), c.data[x].key) == Under(Before(k), c.data[x].key)
    {
      assert c.data[x] in c.data;
    }
  }

  /** Direction switch, forward to reverse: back off by one from the first entry at or after `k`. */
  lemma BackOffStands(c: Cursor, k: InternalKey)
    requires c.Ok()
    ensures var d := c.Seek(k); AtLast(if d.Valid() then d.Prev() else d.SeekToLast(), Before(k))
  {
    LowerBoundSplits(c.data, k);
  }

  /** The key of the current child occurs in no other child. */
  lemma KeyIsElsewhereAbsent(children: seq<Cursor>, merged: seq<Entry>, c: nat, i: nat)
    requires Partition(children, merged) && c < |children| && children[c].Valid() && i < |children| && i != c
    ensures forall e :: e in children[i].data ==> Less(e.key, children[c].Key()) || Less(children[c].Key(), e.key)
  {
    var f := children[c].Entry();
    assert children[c].data[children[c].pos.value] in merged;
    assert HeldByOne(children, f);
    var h :| HeldOnlyBy(children, f, h);
    assert f in children[c].data;
    forall e | e in children[i].data ensures Less(e.key, f.key) || Less(f.key, e.key) {
      var x :| 0 <= x < |children[i].data| && children[i].data[x] == e;
      var p :| 0 <= p < |merged| && merged[p] == f;
      assert children[i].data[x] in merged;
      var q :| 0 <= q < |merged| && merged[q] == e;
      assert p != q;
      assert if p < q then Less(merged[p].key, merged[q].key) else Less(merged[q].key, merged[p].key);
    }
  }

  lemma PartitionSurvivesMoves(a: seq<Cursor>, b: seq<Cursor>, merged: seq<Entry>)
    requires Partition(a, merged) && SameData(a, b) && forall i :: 0 <= i < |b| ==> b[i].Ok()
    ensures Partition(b, merged)
  {
    forall e | e in merged ensures HeldByOne(b, e) {
      assert HeldByOne(a, e);
      var i :| HeldOnlyBy(a, e, i);
      assert HeldOnlyBy(b, e, i);
    }
  }

  // ----- Where the merged cursor stands -----

  lemma IndexOf(merged: seq<Entry>, e: Entry)
    requires Sorted(merged) && e in merged
    ensures LowerBound(merged, e.key) < |merged| && merged[LowerBound(merged, e.key)] == e
  {
    var i :| 0 <= i < |merged| && merged[i] == e;
    var n := LowerBound(merged, e.key);
    LowerBoundSplits(merged, e.key);
    assert n == i;
  }

  ghost function PositionOf(merged: seq<Entry>, e: Option<Entry>): Option<nat> {
    if e.Some? then Some(LowerBound(merged, e.value.key)) else None
  }

  ghost predicate LeastOrNone(merged: seq<Entry>, b: Lower, e: Option<Entry>) {
    if e.Some? then IsLeast(merged, b, e.value) else forall f :: f in merged ==> !Passes(b, f.key)
  }

  ghost predicate GreatestOrNone(merged: seq<Entry>, b: Upper, e: Option<Entry>) {
    if e.Some? then IsGreatest(merged, b, e.value) else forall f :: f in merged ==> !Under(b, f.key)
  }

  lemma LeastPosition(merged: seq<Entry>, target: InternalKey, e: Option<Entry>)
    requires Sorted(merged)
    ensures LeastOrNone(merged, Anything, e) ==> PositionOf(merged, e) == Cursor(merged, None).SeekToFirst().pos
    ensures LeastOrNone(merged, From(target), e) ==> PositionOf(merged, e) == Cursor(merged, None).Seek(target).pos
    ensures GreatestOrNone(merged, Everything, e) ==> PositionOf(merged, e) == Cursor(merged, None).SeekToLast().pos
  {
    if e.Some? && e.value in merged {
      IndexOf(merged, e.value);
    }
    LowerBoundSplits(merged, target);
    var n := LowerBound(merged, target);
    if n < |merged| {
      assert merged[n] in merged;
    }
    if merged != [] {
      assert merged[0] in merged && merged[|merged| - 1] in merged;
    }
  }

  lemma NeighbourPosition(merged: seq<Entry>, at: Entry, e: Option<Entry>)
    requires Sorted(merged) && at in merged
    ensures LeastOrNone(merged, Beyond(at.key), e) ==>
              PositionOf(merged, e) == Cursor(merged, PositionOf(merged, Some(at))).Next().pos
    ensures GreatestOrNone(merged, Before(at.key), e) ==>
              PositionOf(merged, e) == Cursor(merged, PositionOf(merged, Some(at))).Prev().pos
  {
    hide LeastOrNone, GreatestOrNone;
    IndexOf(merged, at);
    var p := LowerBound(merged, at.key);
    if LeastOrNone(merged, Beyond(at.key), e) {
      PositionAfter(merged, p, e);
    }
    if GreatestOrNone(merged, Before(at.key), e) {
      PositionBefore(merged, p, e);
    }
  }

  lemma PositionAfter(merged: seq<Entry>, p: nat, e: Option<Entry>)
    requires Sorted(merged) && p < |merged| && LeastOrNone(merged, Beyond(merged[p].key), e)
    ensures PositionOf(merged, e) == if p + 1 < |merged| then Some(p + 1) else None
  {
    if e.Some? {
      IndexOf(merged, e.value);
    }
    if p + 1 < |merged| {
      assert merged[p + 1] in merged && Less(merged[p].key, merged[p + 1].key);
    }
  }

  lemma PositionBefore(merged: seq<Entry>, p: nat, e: Option<Entry>)
    requires Sorted(merged) && p < |merged| && GreatestOrNone(merged, Before(merged[p].key), e)
    ensures PositionOf(merged, e) == if p > 0 then Some(p - 1) else None
  {
    if e.Some? {
      IndexOf(merged, e.value);
    }
    if p > 0 {
      assert merged[p - 1] in merged && Less(merged[p - 1].key, merged[p].key);
    }
  }

  lemma AllSeekToFirst(before: seq<Cursor>, after: seq<Cursor>, merged: seq<Entry>)
    requires Partition(before, merged) && |after| == |before|
    requires forall j :: 0 <= j < |before| ==> after[j] == before[j].SeekToFirst()
    ensures Partition(after, merged) && Sorted(merged) && AllAtFirst(after, Anything)
  {
    forall j | 0 <= j < |after| ensures AtFirst(after[j], Anything) {
      SeekStands(before[j], InternalKey(0.0, 0, Deletion));
    }
    PartitionSurvivesMoves(before, after, merged);
  }

  lemma AllSeek(before: seq<Cursor>, after: seq<Cursor>, merged: seq<Entry>, target: InternalKey)
    requires Partition(before, merged) && |after| == |before|
    requires forall j :: 0 <= j < |before| ==> after[j] == before[j].Seek(target)
    ensures Partition(after, merged) && Sorted(merged) && AllAtFirst(after, From(target))
  {
    forall j | 0 <= j < |after| ensures AtFirst(after[j], From(target)) {
      SeekStands(before[j], target);
    }
    PartitionSurvivesMoves(before, after, merged);
  }

  lemma AllSeekToLast(before: seq<Cursor>, after: seq<Cursor>, merged: seq<Entry>)
    requires Partition(before, merged) && |after| == |before|
    requires forall j :: 0 <= j < |before| ==> after[j] == before[j].SeekToLast()
    ensures Partition(after, merged) && Sorted(merged) && AllAtLast(after, Everything)
  {
    forall j | 0 <= j < |after| ensures AtLast(after[j], Everything) {
      SeekStands(before[j], InternalKey(0.0, 0, Deletion));
    }
    PartitionSurvivesMoves(before, after, merged);
  }

  lemma CurrentInMerged(children: seq<Cursor>, merged: seq<Entry>, c: nat)
    requires Partition(children, merged) && c < |children| && children[c].Valid()
    ensures children[c].Entry() in merged
  {
    assert children[c].data[children[c].pos.value] in merged;
  }

  /** Where Next puts a child that is not current when it turns around at `k`. */
  function PastKey(c: Cursor, k: InternalKey): Cursor {
    var d := c.Seek(k);
    if d.Valid() && !Less(k, d.Key()) && !Less(d.Key(), k) then d.Next() else d
  }

  /** Where Prev puts a child that is not current when it turns around at `k`. */
  function BeforeKey(c: Cursor, k: InternalKey): Cursor {
    var d := c.Seek(k);
    if d.Valid() then d.Prev() else d.SeekToLast()
  }

  lemma PastKeyStands(c: Cursor, k: InternalKey)
    requires c.Ok() && forall e :: e in c.data ==> Less(e.key, k) || Less(k, e.key)
    ensures AtFirst(PastKey(c, k), Beyond(k)) && PastKey(c, k).data == c.data
  {
    SeekStands(c, k);
    AbsentKeyStands(c.Seek(k), k);
    var d := c.Seek(k);
    assert d.Valid() ==> d.Entry() in d.data;
  }

  /** After Next has moved every child, all stand at their first entry after the old key. */
  lemma AllBeyond(before: seq<Cursor>, positioned: seq<Cursor>, after: seq<Cursor>, merged: seq<Entry>, c: nat,
                  k: InternalKey, turned: bool)
    requires Partition(before, merged) && c < |before| && before[c].Valid() && before[c].Key() == k
    requires turned || AllAtFirst(before, From(k))
    requires |positioned| == |before| && positioned[c] == before[c]
    requires forall j :: 0 <= j < |before| && j != c ==> positioned[j] == if turned then PastKey(before[j], k) else before[j]
    requires after == positioned[c := positioned[c].Next()]
    ensures Partition(after, merged) && Sorted(merged) && AllAtFirst(after, Beyond(k))
  {
    forall j | 0 <= j < |before| ensures AtFirst(after[j], Beyond(k)) && after[j].data == before[j].data {
      if j == c {
        StepStands(before[c], k);
      } else {
        KeyIsElsewhereAbsent(before, merged, c, j);
        if turned {
          PastKeyStands(before[j], k);
        } else {
          AbsentKeyStands(before[j], k);
        }
      }
    }
    PartitionSurvivesMoves(before, after, merged);
  }

  /** After Prev has moved every child, all stand at their last entry before the old key. */
  lemma AllBefore(before: seq<Cursor>, positioned: seq<Cursor>, after: seq<Cursor>, merged: seq<Entry>, c: nat,
                  k: InternalKey, turned: bool)
    requires Partition(before, merged) && c < |before| && before[c].Valid() && before[c].Key() == k
    requires turned || AllAtLast(before, UpTo(k))
    requires |positioned| == |before| && positioned[c] == before[c]
    requires forall j :: 0 <= j < |before| && j != c ==> positioned[j] == if turned then BeforeKey(before[j], k) else before[j]
    requires after == positioned[c := positioned[c].Prev()]
    ensures Partition(after, merged) && Sorted(merged) && AllAtLast(after, Before(k))
  {
    forall j | 0 <= j < |before| ensures AtLast(after[j], Before(k)) && after[j].data == before[j].data {
      if j == c {
        StepStands(before[c], k);
      } else {
        KeyIsElsewhereAbsent(before, merged, c, j);
        if turned {
          BackOffStands(before[j], k);
        } else {
          AbsentKeyStands(before[j], k);
        }
      }
    }
    PartitionSurvivesMoves(before, after, merged);
  }

  class MergingIterator {
    /** The sorted union of the children's entries. */
    ghost const merged: seq<Entry>
    var children: seq<Cursor>
    var current: Option<nat>
    var direction: Direction

    constructor (children: seq<Cursor>, ghost merged: seq<Entry>)
      requires Partition(children, merged)
      ensures Inv() && this.merged == merged && this.children == children && !IsValid()
    {
      this.merged, this.children := merged, children;
      current, direction := None, Forward;
    }

    predicate IsValid()
      reads this
    {
      current.Some?
    }

    ghost predicate Inv()
      reads this
    {
      && Partition(children, merged)
      && (current.Some? ==>
            && current.value < |children| && children[current.value].Valid()
            && var k := children[current.value].Key();
               if direction.Forward? then AllAtFirst(children, From(k)) else AllAtLast(children, UpTo(k)))
    }

    /** The entry of the current child. */
    function Top(): Entry
      requires current.Some? && current.value < |children| && children[current.value].Valid()
      reads this
    {
      children[current.value].Entry()
    }

    /** key() and value() */
    function Entry(): Entry
      requires Inv() && IsValid()
      reads this
    {
      Top()
    }

    /** The one cursor over the merged entries that this iterator stands for. */
    ghost function View(): (c: Cursor)
      requires Inv()
      reads this
      ensures c.data == merged && c.Ok() && (c.Valid() <==> IsValid()) && (IsValid() ==> c.Entry() == Entry())
    {
      EntryIsMerged();
      Cursor(merged, PositionOf(merged, if current.Some? then Some(Top()) else None))
    }

    lemma EntryIsMerged()
      requires Inv()
      ensures Sorted(merged)
      ensures current.Some? ==> LowerBound(merged, Top().key) < |merged| && merged[LowerBound(merged, Top().key)] == Top()
    {
      if current.Some? {
        CurrentInMerged(children, merged, current.value);
        IndexOf(merged, Top());
      }
    }

    method SeekToFirst()
      requires Inv()
      modifies this`children, this`current, this`direction
      ensures Inv() && View() == old(View()).SeekToFirst()
    {
      hide Partition, AllAtFirst, AllAtLast, IsLeast, IsGreatest, Less, Sorted;
      ghost var before := children;
      for i := 0 to |children|
        invariant |children| == |before|
        invariant forall j :: 0 <= j < |before| ==> children[j] == if j < i then before[j].SeekToFirst() else before[j]
      {
        children := children[i := children[i].SeekToFirst()];
      }
      AllSeekToFirst(before, children, merged);
      var found := FindSmallest(children);
      SmallestIsLeast(children, merged, Anything, found);
      current, direction := found, Forward;
      LeastPosition(merged, InternalKey(0.0, 0, Deletion), if current.Some? then Some(Top()) else None);
    }

    method Seek(target: InternalKey)
      requires Inv()
      modifies this`children, this`current, this`direction
      ensures Inv() && View() == old(View()).Seek(target)
    {
      hide Partition, AllAtFirst, AllAtLast, IsLeast, IsGreatest, Less, Sorted;
      ghost var before := children;
      for i := 0 to |children|
        invariant |children| == |before|
        invariant forall j :: 0 <= j < |before| ==> children[j] == if j < i then before[j].Seek(target) else before[j]
      {
        children := children[i := children[i].Seek(target)];
      }
      AllSeek(before, children, merged, target);
      var found := FindSmallest(children);
      SmallestIsLeast(children, merged, From(target), found);
      current, direction := found, Forward;
      LeastPosition(merged, target, if current.Some? then Some(Top()) else None);
    }

    method SeekToLast()
      requires Inv()
      modifies this`children, this`current, this`direction
      ensures Inv() && View() == old(View()).SeekToLast()
    {
      hide Partition, AllAtFirst, AllAtLast, IsLeast, IsGreatest, Less, Sorted;
      ghost var before := children;
      for i := 0 to |children|
        invariant |children| == |before|
        invariant forall j :: 0 <= j < |before| ==> children[j] == if j < i then before[j].SeekToLast() else before[j]
      {
        children := children[i := children[i].SeekToLast()];
      }
      AllSeekToLast(before, children, merged);
      var found := FindLargest(children);
      LargestIsGreatest(children, merged, Everything, found);
      current, direction := found, Reverse;
      LeastPosition(merged, InternalKey(0.0, 0, Deletion), if current.Some? then Some(Top()) else None);
    }

    method Next()
      requires Inv() && IsValid()
      modifies this`children, this`current, this`direction
      ensures Inv() && View() == old(View()).Next()
    {
      hide Partition, AllAtFirst, AllAtLast, IsLeast, IsGreatest, Less, Sorted;
      ghost var before := children;
      var c := current.value;
      var k := children[c].Key();
      ghost var at, turned := Top(), direction != Forward;
      CurrentInMerged(children, merged, c);
      if direction != Forward {
        for i := 0 to |children|
          invariant |children| == |before|
          invariant forall j :: 0 <= j < |before| ==>
                      children[j] == if j < i && j != c then PastKey(before[j], k) else before[j]
        {
          if i != c {
            var child := children[i].Seek(k);
            if child.Valid() && !Less(k, child.Key()) && !Less(child.Key(), k) {
              child := child.Next();
            }
            children := children[i := child];
          }
        }
        direction := Forward;
      }
      ghost var positioned := children;
      children := children[c := children[c].Next()];
      AllBeyond(before, positioned, children, merged, c, k, turned);
      var found := FindSmallest(children);
      SmallestIsLeast(children, merged, Beyond(k), found);
      current := found;
      NeighbourPosition(merged, at, if current.Some? then Some(Top()) else None);
    }

    method Prev()
      requires Inv() && IsValid()
      modifies this`children, this`current, this`direction
      ensures Inv() && View() == old(View()).Prev()
    {
      hide Partition, AllAtFirst, AllAtLast, IsLeast, IsGreatest, Less, Sorted;
      ghost var before := children;
      var c := current.value;
      var k := children[c].Key();
      ghost var at, turned := Top(), direction != Reverse;
      CurrentInMerged(children, merged, c);
      if direction != Reverse {
        for i := 0 to |children|
          invariant |children| == |before|
          invariant forall j :: 0 <= j < |before| ==>
                      children[j] == if j < i && j != c then BeforeKey(before[j], k) else before[j]
        {
          if i != c {
            var child := children[i].Seek(k);
            if child.Valid() {
              child := child.Prev();
            } else {
              child := child.SeekToLast();
            }
            children := children[i := child];
          }
        }
        direction := Reverse;
      }
      ghost var positioned := children;
      children := children[c := children[c].Prev()];
      AllBefore(before, positioned, children, merged, c, k, turned);
      var found := FindLargest(children);
      LargestIsGreatest(children, merged, Before(k), found);
      current := found;
      NeighbourPosition(merged, at, if current.Some? then Some(Top()) else None);
    }

    /** Any run of calls, with any changes of direction, does to this iterator what it does to one cursor
        over the merged entries. */
    method Perform(ops: seq<Op>)
      requires Inv() && LegalRun(View(), ops)
      modifies this`children, this`current, this`direction
      ensures Inv() && View() == ApplyAll(old(View()), ops)
    {
      hide Partition, AllAtFirst, AllAtLast;
      ghost var goal := ApplyAll(View(), ops);
      for i := 0 to |ops|
        invariant Inv() && LegalRun(View(), ops[i..]) && ApplyAll(View(), ops[i..]) == goal
      {
        assert ops[i..][0] == ops[i] && ops[i..][1..] == ops[i + 1..];
        match ops[i]
        case SeekToFirst => SeekToFirst();
        case SeekToLast => SeekToLast();
        case Seek(target) => Seek(target);
        case Next => Next();
        case Prev => Prev();
      }
    }
  }
}
