/** The skip list of the memtable (db/skiplist.h): bottom-up publication of a node, and searches that run
    while it happens. */
module SkipLists {
  import opened DbFormat

  const MAX_HEIGHT: nat := 12

  /** A node by its key, which no other node has, or the head. */
  datatype Ref = Head | At(key: InternalKey)

  /** The next_ pointers that have been written, and max_height_. */
  datatype Memory = Memory(links: map<(Ref, nat), Option<InternalKey>>, maxHeight: nat)

  ghost predicate Ascending(l: seq<InternalKey>) {
    forall i, j :: 0 <= i < j < |l| ==> Less(l[i], l[j])
  }

  /** How many keys of `l` come before `key`. */
  function CountBelow(l: seq<InternalKey>, key: InternalKey): (n: nat)
    ensures n <= |l|
    ensures forall i :: 0 <= i < n ==> Less(l[i], key)
    ensures n < |l| ==> !Less(l[n], key)
  {
    if l == [] || !Less(l[0], key) then 0 else 1 + CountBelow(l[1..], key)
  }

  lemma CountSplits(l: seq<InternalKey>, key: InternalKey)
    requires Ascending(l)
    ensures forall i :: CountBelow(l, key) <= i < |l| ==> !Less(l[i], key)
  {
  }

  lemma CountIsUnique(l: seq<InternalKey>, key: InternalKey, n: nat)
    requires Ascending(l) && n <= |l|
    requires n > 0 ==> Less(l[n - 1], key)
    requires n < |l| ==> !Less(l[n], key)
    ensures n == CountBelow(l, key)
  {
    CountSplits(l, key);
  }

  /** The node after which position `j` of `l` comes, and the key at it. */
  function RefAt(l: seq<InternalKey>, j: nat): Ref
    requires j <= |l|
  {
    if j == 0 then Head else At(l[j - 1])
  }

  function KeyAt(l: seq<InternalKey>, j: nat): Option<InternalKey> {
    if j < |l| then Some(l[j]) else None
  }

  function InsertKey(l: seq<InternalKey>, key: InternalKey): seq<InternalKey> {
    var n := CountBelow(l, key);
    l[..n] + [key] + l[n..]
  }

  /** At level `i` the pointers lead from the head through the keys of `l`. */
  ghost predicate Chained(links: map<(Ref, nat), Option<InternalKey>>, l: seq<InternalKey>, i: nat) {
    forall j :: 0 <= j <= |l| ==> LinkHolds(links, l, i, j)
  }

  ghost predicate LinkHolds(links: map<(Ref, nat), Option<InternalKey>>, l: seq<InternalKey>, i: nat, j: nat)
    requires j <= |l|
  {
    (RefAt(l, j), i) in links && links[(RefAt(l, j), i)] == KeyAt(l, j)
  }

  ghost predicate Below(upper: seq<InternalKey>, lower: seq<InternalKey>) {
    forall k :: k in upper ==> k in lower
  }

  /** What holds at every moment: each level's list is sorted and part of the list below it. */
  ghost predicate Shape(m: Memory, lists: seq<seq<InternalKey>>) {
    && 1 <= m.maxHeight <= MAX_HEIGHT && |lists| == MAX_HEIGHT
    && (forall i :: 0 <= i < MAX_HEIGHT ==> Ascending(lists[i]) && Chained(m.links, lists[i], i))
    && (forall i :: 0 <= i < MAX_HEIGHT - 1 ==> Below(lists[i + 1], lists[i]))
    && (forall i :: m.maxHeight <= i < MAX_HEIGHT ==> lists[i] == [])
  }

  /** KeyIsAfterNode. */
  predicate IsAfter(key: InternalKey, next: Option<InternalKey>) {
    next.Some? && Less(next.value, key)
  }

  // ----- The inserting thread's steps, and one searching thread's -----

  datatype Inserter = Resting
    | Inserting(key: InternalKey, height: nat, prev: seq<Ref>, raised: bool, prepared: bool, linked: nat)

  datatype Search = Idle | Looking(target: InternalKey, x: Ref, level: nat) | Returned(target: InternalKey, next: Option<InternalKey>)

  datatype System = System(memory: Memory, lists: seq<seq<InternalKey>>, inserter: Inserter, search: Search)

  datatype Step = Begin(key: InternalKey, height: nat) | Raise | Prepare | Publish | Start(target: InternalKey) | Look

  /** Where the new node goes at level `i`. */
  function PrevOf(lists: seq<seq<InternalKey>>, key: InternalKey, i: nat): Ref
    requires i < |lists|
  {
    RefAt(lists[i], CountBelow(lists[i], key))
  }

  ghost predicate Next(a: System, step: Step, b: System)
    requires |a.lists| == MAX_HEIGHT
  {
    match step
    // Insert has searched for the key and drawn a height.
    case Begin(key, height) =>
      && a.inserter.Resting? && 1 <= height <= MAX_HEIGHT && key !in a.lists[0]
      && b == a.(inserter := Inserting(key, height, seq(height, i requires 0 <= i < height => PrevOf(a.lists, key, i)), false, false, 0))
    // max_height_ is raised before the node is linked anywhere.
    case Raise =>
      && a.inserter.Inserting? && !a.inserter.raised
      && b == a.(inserter := a.inserter.(raised := true),
                 memory := a.memory.(maxHeight := if a.inserter.height > a.memory.maxHeight then a.inserter.height else a.memory.maxHeight))
    // The node's own pointer at the next level is set; no one can see it yet.
    case Prepare =>
      && a.inserter.Inserting? && a.inserter.raised && !a.inserter.prepared && a.inserter.linked < |a.inserter.prev|
      && var i := a.inserter.linked;
         && (a.inserter.prev[i], i) in a.memory.links
         && b == a.(inserter := a.inserter.(prepared := true),
                    memory := a.memory.(links := a.memory.links[(At(a.inserter.key), i) := a.memory.links[(a.inserter.prev[i], i)]]))
    // The pointer before it is swung to the node.
    case Publish =>
      && a.inserter.Inserting? && a.inserter.prepared && a.inserter.linked < |a.inserter.prev|
      && var i := a.inserter.linked;
         && i < MAX_HEIGHT
         && b == a.(inserter := if i + 1 == a.inserter.height then Resting else a.inserter.(prepared := false, linked := i + 1),
                    lists := a.lists[i := InsertKey(a.lists[i], a.inserter.key)],
                    memory := a.memory.(links := a.memory.links[(a.inserter.prev[i], i) := Some(a.inserter.key)]))
    // A reader loads max_height_ and stands at the head.
    case Start(target) => a.memory.maxHeight >= 1 && b == a.(search := Looking(target, Head, a.memory.maxHeight - 1))
    // It loads one pointer, and moves along, down, or out.
    case Look =>
      && a.search.Looking? && (a.search.x, a.search.level) in a.memory.links
      && var next := a.memory.links[(a.search.x, a.search.level)];
         b == a.(search := if IsAfter(a.search.target, next) then a.search.(x := At(next.value))
                           else if a.search.level == 0 then Returned(a.search.target, next)
                           else a.search.(level := a.search.level - 1))
  }

  ghost predicate InserterHolds(m: Memory, lists: seq<seq<InternalKey>>, t: Inserter)
    requires |lists| == MAX_HEIGHT
  {
    t.Inserting? ==>
      && 1 <= t.height <= MAX_HEIGHT && |t.prev| == t.height && t.linked < t.height
      && (t.raised ==> t.height <= m.maxHeight) && (!t.raised ==> t.linked == 0 && !t.prepared)
      && (forall i :: 0 <= i < t.linked ==> t.key in lists[i])
      && (forall i :: t.linked <= i < MAX_HEIGHT ==> t.key !in lists[i])
      && (forall i :: t.linked <= i < t.height ==> t.prev[i] == PrevOf(lists, t.key, i))
      && (t.prepared ==>
            && (At(t.key), t.linked) in m.links
            && m.links[(At(t.key), t.linked)] == KeyAt(lists[t.linked], CountBelow(lists[t.linked], t.key)))
  }

  /** A reader stands at a node that is linked at its level, before its target. */
  ghost predicate SearchHolds(lists: seq<seq<InternalKey>>, s: Search)
    requires |lists| == MAX_HEIGHT
  {
    s.Looking? ==> s.level < MAX_HEIGHT && (s.x.At? ==> s.x.key in lists[s.level] && Less(s.x.key, s.target))
  }

  ghost predicate Inv(a: System) {
    Shape(a.memory, a.lists) && InserterHolds(a.memory, a.lists, a.inserter) && SearchHolds(a.lists, a.search)
  }

  /** A list's new key changes two links; the others stay. */
  lemma LinkingChains(links: map<(Ref, nat), Option<InternalKey>>, l: seq<InternalKey>, i: nat, key: InternalKey)
    requires Ascending(l) && Chained(links, l, i) && key !in l
    requires (At(key), i) in links && links[(At(key), i)] == KeyAt(l, CountBelow(l, key))
    ensures Ascending(InsertKey(l, key))
    ensures Chained(links[(RefAt(l, CountBelow(l, key)), i) := Some(key)], InsertKey(l, key), i)
  {
    var n := CountBelow(l, key);
    var more := InsertKey(l, key);
    var after := links[(RefAt(l, n), i) := Some(key)];
    CountSplits(l, key);
    NewKeyIsBetween(l, key);
    forall j | 0 <= j <= |more| ensures LinkHolds(after, more, i, j) {
      if j <= n {
        assert LinkHolds(links, l, i, j);
        if j < n {
          DistinctRefs(l, j, n);
        }
      } else if j > n + 1 {
        assert LinkHolds(links, l, i, j - 1);
        DistinctRefs(l, n, j - 1);
      }
    }
  }

  lemma DistinctRefs(l: seq<InternalKey>, i: nat, j: nat)
    requires Ascending(l) && i < j <= |l|
    ensures RefAt(l, i) != RefAt(l, j)
  {
    if i > 0 {
      assert Less(l[i - 1], l[j - 1]);
    }
  }

  lemma NewKeyIsBetween(l: seq<InternalKey>, key: InternalKey)
    requires Ascending(l) && key !in l
    ensures Ascending(InsertKey(l, key))
  {
    var n := CountBelow(l, key);
    CountSplits(l, key);
    forall i | n <= i < |l| ensures Less(key, l[i]) {
      TotalOrder(key, l[i]);
    }
  }

  lemma TotalOrder(a: InternalKey, b: InternalKey)
    ensures Less(a, b) || Less(b, a) || a == b
    ensures Less(a, b) ==> !Less(b, a)
  {
  }

  /** A pointer of a node that is not in the list does not disturb it. */
  lemma OutsideLink(links: map<(Ref, nat), Option<InternalKey>>, l: seq<InternalKey>, i: nat, r: Ref, level: nat, value: Option<InternalKey>)
    requires Chained(links, l, i)
    requires level != i || (r.At? && r.key !in l)
    ensures Chained(links[(r, level) := value], l, i)
  {
    var after := links[(r, level) := value];
    forall j | 0 <= j <= |l| ensures LinkHolds(after, l, i, j) {
      assert LinkHolds(links, l, i, j);
    }
  }

  lemma MembersOfInsert(l: seq<InternalKey>, key: InternalKey)
    ensures forall k :: k in InsertKey(l, key) <==> k in l || k == key
  {
    var n := CountBelow(l, key);
    assert l == l[..n] + l[n..];
  }

  lemma PrepareKeepsInv(a: System, b: System)
    requires Inv(a) && Next(a, Prepare, b)
    ensures Inv(b)
  {
    hide Ascending, Chained, Below, CountBelow;
    var t := a.inserter;
    forall i | 0 <= i < MAX_HEIGHT ensures Chained(b.memory.links, a.lists[i], i) {
      OutsideLink(a.memory.links, a.lists[i], i, At(t.key), t.linked, a.memory.links[(t.prev[t.linked], t.linked)]);
    }
    LinkAtCount(a.memory.links, a.lists[t.linked], t.linked, t.key);
  }

  lemma LinkAtCount(links: map<(Ref, nat), Option<InternalKey>>, l: seq<InternalKey>, i: nat, key: InternalKey)
    requires Chained(links, l, i)
    ensures LinkHolds(links, l, i, CountBelow(l, key))
  {
  }

  lemma PublishKeepsInv(a: System, b: System)
    requires Inv(a) && Next(a, Publish, b)
    ensures Inv(b)
  {
    hide Ascending, Chained, Below, CountBelow, InsertKey;
    var t := a.inserter;
    var n := t.linked;
    forall i | 0 <= i < MAX_HEIGHT ensures Ascending(b.lists[i]) && Chained(b.memory.links, b.lists[i], i) {
      if i == n {
        LinkingChains(a.memory.links, a.lists[n], n, t.key);
      } else {
        OutsideLink(a.memory.links, a.lists[i], i, t.prev[n], n, Some(t.key));
      }
    }
    MembersOfInsert(a.lists[n], t.key);
    forall i | 0 <= i < MAX_HEIGHT - 1 ensures Below(b.lists[i + 1], b.lists[i]) {
      BelowAfterInsert(a.lists, n, t.key, i);
    }
  }

  lemma BelowAfterInsert(lists: seq<seq<InternalKey>>, n: nat, key: InternalKey, i: nat)
    requires |lists| == MAX_HEIGHT && n < MAX_HEIGHT && i + 1 < MAX_HEIGHT
    requires Below(lists[i + 1], lists[i])
    requires i + 1 == n ==> key in lists[i]
    ensures var after := lists[n := InsertKey(lists[n], key)]; Below(after[i + 1], after[i])
  {
    MembersOfInsert(lists[n], key);
  }

  lemma LookKeepsInv(a: System, b: System)
    requires Inv(a) && Next(a, Look, b)
    ensures Inv(b)
  {
    hide Ascending, CountBelow;
    var s := a.search;
    if IsAfter(s.target, a.memory.links[(s.x, s.level)]) {
      var j := StandsAt(a.lists[s.level], s.x);
      assert LinkHolds(a.memory.links, a.lists[s.level], s.level, j);
    } else if s.level > 0 {
      assert Below(a.lists[s.level - 1 + 1], a.lists[s.level - 1]);
    }
  }

  /** A node of a list has a position in it. */
  lemma StandsAt(l: seq<InternalKey>, x: Ref) returns (j: nat)
    requires x.At? ==> x.key in l
    ensures j <= |l| && RefAt(l, j) == x
  {
    if x.Head? {
      j := 0;
    } else {
      var i :| 0 <= i < |l| && l[i] == x.key;
      j := i + 1;
    }
  }

  /** Every step of the inserting thread and of the reader keeps all lists sorted and nested. */
  lemma StepKeepsInv(a: System, step: Step, b: System)
    requires Inv(a) && Next(a, step, b)
    ensures Inv(b)
  {
    hide Ascending, Chained, CountBelow;
    match step
    case Begin(key, height) => NotAbove(a.lists, key);
    case Raise =>
    case Prepare => PrepareKeepsInv(a, b);
    case Publish => PublishKeepsInv(a, b);
    case Start(target) =>
    case Look => LookKeepsInv(a, b);
  }

  lemma NotAbove(lists: seq<seq<InternalKey>>, key: InternalKey)
    requires |lists| == MAX_HEIGHT && key !in lists[0]
    requires forall i :: 0 <= i < MAX_HEIGHT - 1 ==> Below(lists[i + 1], lists[i])
    ensures forall i :: 0 <= i < MAX_HEIGHT ==> key !in lists[i]
  {
    for n := 1 to MAX_HEIGHT
      invariant forall i :: 0 <= i < n ==> key !in lists[i]
    {
      assert Below(lists[n - 1 + 1], lists[n - 1]);
    }
  }

  /** A reader never loads a pointer that has not been written: bottom-up linking is enough. */
  lemma ReaderFindsLinks(a: System)
    requires Inv(a) && a.search.Looking?
    ensures (a.search.x, a.search.level) in a.memory.links
  {
    var j := StandsAt(a.lists[a.search.level], a.search.x);
    assert LinkHolds(a.memory.links, a.lists[a.search.level], a.search.level, j);
  }

  /** The moment it returns, the result is the first key at or after the target in the whole list. */
  lemma ReturnIsLowerBound(a: System, b: System)
    requires Inv(a) && Next(a, Look, b) && b.search.Returned?
    ensures b.search.next == KeyAt(a.lists[0], CountBelow(a.lists[0], a.search.target))
  {
    var l := a.lists[0];
    var j := StandsAt(l, a.search.x);
    assert LinkHolds(a.memory.links, l, 0, j);
    CountIsUnique(l, a.search.target, j);
  }

  ghost predicate IsExecution(states: seq<System>, steps: seq<Step>) {
    && |states| == |steps| + 1 && Inv(states[0])
    && forall i :: 0 <= i < |steps| ==> StepAt(states, steps, i)
  }

  ghost predicate StepAt(states: seq<System>, steps: seq<Step>, i: nat)
    requires |states| == |steps| + 1 && i < |steps|
  {
    |states[i].lists| == MAX_HEIGHT && Next(states[i], steps[i], states[i + 1])
  }

  lemma {:induction false} RunKeepsInv(states: seq<System>, steps: seq<Step>, n: nat)
    requires IsExecution(states, steps) && n <= |steps|
    ensures Inv(states[n])
  {
    hide Inv, Next;
    if n > 0 {
      RunKeepsInv(states, steps, n - 1);
      assert StepAt(states, steps, n - 1);
      StepKeepsInv(states[n - 1], steps[n - 1], states[n]);
    }
  }

  /** Keys are only ever added. */
  lemma {:induction false} KeysStay(states: seq<System>, steps: seq<Step>, a: nat, b: nat, k: InternalKey)
    requires IsExecution(states, steps) && a <= b <= |steps|
    requires |states[a].lists| == MAX_HEIGHT && k in states[a].lists[0]
    ensures |states[b].lists| == MAX_HEIGHT && k in states[b].lists[0]
    decreases b - a
  {
    hide Inv;
    if a < b {
      KeysStay(states, steps, a, b - 1, k);
      assert StepAt(states, steps, b - 1);
      if steps[b - 1].Publish? {
        var t := states[b - 1].inserter;
        MembersOfInsert(states[b - 1].lists[t.linked], t.key);
      }
    }
  }

  /** A search interleaved with any steps of an insertion misses no key that was in the list at any moment `a`
      before it returned: none of those lies between the target and the result. */
  lemma SearchMissesNothing(states: seq<System>, steps: seq<Step>, a: nat, b: nat, k: InternalKey)
    requires IsExecution(states, steps) && a <= b < |steps|
    requires steps[b].Look? && states[b + 1].search.Returned?
    requires |states[a].lists| == MAX_HEIGHT && k in states[a].lists[0]
    ensures var r := states[b + 1].search;
      && (r.next.Some? ==> !Less(r.next.value, r.target))
      && (Less(k, r.target) || (r.next.Some? && !Less(k, r.next.value)))
  {
    hide Chained, InserterHolds, SearchHolds;
    RunKeepsInv(states, steps, b);
    KeysStay(states, steps, a, b, k);
    assert StepAt(states, steps, b);
    ReturnIsLowerBound(states[b], states[b + 1]);
    var l := states[b].lists[0];
    CountSplits(l, states[b].search.target);
    var i :| 0 <= i < |l| && l[i] == k;
    var n := CountBelow(l, states[b].search.target);
    if n <= i {
      assert i == n || Less(l[n], l[i]);
      TotalOrder(l[n], l[i]);
    }
  }

  // ----- The same code as one thread runs it -----

  class SkipList {
    var memory: Memory
    ghost var lists: seq<seq<InternalKey>>

    ghost predicate Valid()
      reads this
    {
      Shape(memory, lists)
    }

    constructor ()
      ensures Valid() && forall i :: 0 <= i < MAX_HEIGHT ==> lists[i] == []
    {
      memory := Memory(map i: nat | i < MAX_HEIGHT :: (Head, i) := None, 1);
      lists := seq(MAX_HEIGHT, _ => []);
    }

    /** The first key at or after `target`, and the node before it at every level. */
    method FindGreaterOrEqual(target: InternalKey) returns (next: Option<InternalKey>, prev: seq<Ref>)
      requires Valid()
      ensures next == KeyAt(lists[0], CountBelow(lists[0], target))
      ensures |prev| == memory.maxHeight && forall i :: 0 <= i < |prev| ==> prev[i] == PrevOf(lists, target, i)
    {
      hide Ascending, Chained, CountBelow;
      var x := Head;
      var level := memory.maxHeight - 1;
      prev := [];
      ghost var j: nat := 0;
      while true
        invariant 0 <= level < memory.maxHeight && j <= |lists[level]| && x == RefAt(lists[level], j)
        invariant x.At? ==> Less(x.key, target)
        invariant |prev| == memory.maxHeight - 1 - level
        invariant forall i :: 0 <= i < |prev| ==> prev[i] == PrevOf(lists, target, level + 1 + i)
        decreases level, |lists[level]| - j
      {
        LinkIs(memory.links, lists[level], level, j);
        next := memory.links[(x, level)];
        if IsAfter(target, next) {
          x := At(next.value);
          j := j + 1;
        } else {
          CountIsUnique(lists[level], target, j);
          prev := [x] + prev;
          if level == 0 {
            return;
          }
          level := level - 1;
          assert Below(lists[level + 1], lists[level]);
          j := StandsAt(lists[level], x);
        }
      }
    }

    /** The last node before `target`, or the head. */
    method FindLessThan(target: InternalKey) returns (x: Ref)
      requires Valid()
      ensures x == PrevOf(lists, target, 0)
    {
      hide Ascending, Chained, CountBelow;
      x := Head;
      var level := memory.maxHeight - 1;
      ghost var j: nat := 0;
      while true
        invariant 0 <= level < memory.maxHeight && j <= |lists[level]| && x == RefAt(lists[level], j)
        invariant x.At? ==> Less(x.key, target)
        decreases level, |lists[level]| - j
      {
        LinkIs(memory.links, lists[level], level, j);
        var next := memory.links[(x, level)];
        if next.None? || !Less(next.value, target) {
          CountIsUnique(lists[level], target, j);
          if level == 0 {
            return;
          }
          level := level - 1;
          assert Below(lists[level + 1], lists[level]);
          j := StandsAt(lists[level], x);
        } else {
          x := At(next.value);
          j := j + 1;
        }
      }
    }

    /** The last node of the list, or the head. */
    method FindLast() returns (x: Ref)
      requires Valid()
      ensures x == RefAt(lists[0], |lists[0]|)
    {
      hide Ascending, Chained, CountBelow;
      x := Head;
      var level := memory.maxHeight - 1;
      ghost var j: nat := 0;
      while true
        invariant 0 <= level < memory.maxHeight && j <= |lists[level]| && x == RefAt(lists[level], j)
        decreases level, |lists[level]| - j
      {
        LinkIs(memory.links, lists[level], level, j);
        var next := memory.links[(x, level)];
        if next.None? {
          if level == 0 {
            return;
          }
          level := level - 1;
          assert Below(lists[level + 1], lists[level]);
          j := StandsAt(lists[level], x);
        } else {
          x := At(next.value);
          j := j + 1;
        }
      }
    }

    method Contains(key: InternalKey) returns (found: bool)
      requires Valid()
      ensures found <==> key in lists[0]
    {
      var next, _ := FindGreaterOrEqual(key);
      found := next == Some(key);
      KeyIsAtCount(lists[0], key);
    }

    /** Insert, as the steps other threads see; `trace` lists the states it passes through. */
    method Insert(key: InternalKey, height: nat) returns (ghost trace: seq<System>, ghost steps: seq<Step>)
      requires Valid() && key !in lists[0] && 1 <= height <= MAX_HEIGHT
      modifies this
      ensures Valid() && |lists| == |old(lists)|
      ensures forall i :: 0 <= i < MAX_HEIGHT ==> lists[i] == if i < height then InsertKey(old(lists)[i], key) else old(lists)[i]
      ensures |trace| == |steps| + 1 && IsExecution(trace, steps) && trace[0] == System(old(memory), old(lists), Resting, Idle)
      ensures trace[|steps|] == System(memory, lists, Resting, Idle)
    {
      hide CountBelow, InsertKey, Shape, PrevOf, Inv, IsExecution;
      ghost var before := lists;
      ghost var s := System(memory, lists, Resting, Idle);
      LevelsAndHeight(memory, lists);
      StartTrace(s);
      trace, steps := [s], [];
      var _, found := FindGreaterOrEqual(key);
      var prev := seq(height, i requires 0 <= i < height => if i < |found| then found[i] else Head);
      EmptyAbove(memory, lists, key, height);
      assert prev == seq(height, i requires 0 <= i < height => PrevOf(before, key, i));
      s, trace, steps := Record(s, Begin(key, height), s.(inserter := Inserting(key, height, prev, false, false, 0)), trace, steps);
      if height > memory.maxHeight {
        memory := memory.(maxHeight := height);
      }
      s, trace, steps := Record(s, Raise, s.(memory := memory, inserter := s.inserter.(raised := true)), trace, steps);
      var level := 0;
      while level < height
        invariant level <= height && |lists| == MAX_HEIGHT
        invariant s == System(memory, lists, if level == height then Resting else Inserting(key, height, prev, true, false, level), Idle)
        invariant |trace| == |steps| + 1 && Inv(s) && IsExecution(trace, steps) && trace[|steps|] == s
        invariant trace[0] == System(old(memory), old(lists), Resting, Idle)
        invariant forall i :: 0 <= i < MAX_HEIGHT ==> lists[i] == if i < level then InsertKey(before[i], key) else before[i]
      {
        s, trace, steps := LinkLevel(key, height, prev, level, s, trace, steps);
        level := level + 1;
      }
      InvIsShape(s);
    }

    /** Link the new node at one level: first its own pointer, then its predecessor's. */
    method LinkLevel(key: InternalKey, height: nat, prev: seq<Ref>, level: nat, ghost s: System, ghost trace: seq<System>, ghost steps: seq<Step>)
      returns (ghost t: System, ghost moreTrace: seq<System>, ghost moreSteps: seq<Step>)
      requires level < height == |prev| && |lists| == MAX_HEIGHT >= height
      requires s == System(memory, lists, Inserting(key, height, prev, true, false, level), Idle)
      requires |trace| == |steps| + 1 && Inv(s) && IsExecution(trace, steps) && trace[|steps|] == s
      modifies this
      ensures lists == old(lists)[level := InsertKey(old(lists)[level], key)]
      ensures t == System(memory, lists, if level + 1 == height then Resting else Inserting(key, height, prev, true, false, level + 1), Idle)
      ensures |moreTrace| == |moreSteps| + 1 && Inv(t) && IsExecution(moreTrace, moreSteps) && moreTrace[|moreSteps|] == t
      ensures moreTrace[0] == trace[0]
    {
      hide CountBelow, InsertKey, Shape, PrevOf, Inv, IsExecution;
      t, moreTrace, moreSteps := s, trace, steps;
      PrevIsLinked(t);
      memory := memory.(links := memory.links[(At(key), level) := memory.links[(prev[level], level)]]);
      t, moreTrace, moreSteps := Record(t, Prepare, t.(memory := memory, inserter := t.inserter.(prepared := true)), moreTrace, moreSteps);
      memory := memory.(links := memory.links[(prev[level], level) := Some(key)]);
      lists := lists[level := InsertKey(lists[level], key)];
      t, moreTrace, moreSteps := Record(t, Publish,
                                        System(memory, lists, if level + 1 == height then Resting else Inserting(key, height, prev, true, false, level + 1), Idle),
                                        moreTrace, moreSteps);
    }

    // ----- Iterator: positions in the bottom list -----

    method SeekToFirst() returns (node: Option<InternalKey>)
      requires Valid()
      ensures node == KeyAt(lists[0], 0)
    {
      LinkIs(memory.links, lists[0], 0, 0);
      node := memory.links[(Head, 0)];
    }

    method SeekToLast() returns (node: Option<InternalKey>)
      requires Valid()
      ensures node == if lists[0] == [] then None else Some(lists[0][|lists[0]| - 1])
    {
      var x := FindLast();
      node := if x.Head? then None else Some(x.key);
    }

    method Next(node: InternalKey, ghost i: nat) returns (next: Option<InternalKey>)
      requires Valid() && i < |lists[0]| && lists[0][i] == node
      ensures next == KeyAt(lists[0], i + 1)
    {
      LinkIs(memory.links, lists[0], 0, i + 1);
      next := memory.links[(At(node), 0)];
    }

    method Prev(node: InternalKey, ghost i: nat) returns (prev: Option<InternalKey>)
      requires Valid() && i < |lists[0]| && lists[0][i] == node
      ensures prev == if i == 0 then None else Some(lists[0][i - 1])
    {
      var x := FindLessThan(node);
      TotalOrder(node, node);
      CountIsUnique(lists[0], node, i);
      prev := if x.Head? then None else Some(x.key);
    }
  }

  lemma KeyIsAtCount(l: seq<InternalKey>, key: InternalKey)
    requires Ascending(l)
    ensures key in l <==> KeyAt(l, CountBelow(l, key)) == Some(key)
  {
    var n := CountBelow(l, key);
    CountSplits(l, key);
    TotalOrder(key, key);
    if key in l && l[n] != key {
      var i :| 0 <= i < |l| && l[i] == key;
      TotalOrder(l[n], key);
    }
  }

  lemma LinkIs(links: map<(Ref, nat), Option<InternalKey>>, l: seq<InternalKey>, i: nat, j: nat)
    requires Chained(links, l, i) && j <= |l|
    ensures (RefAt(l, j), i) in links && links[(RefAt(l, j), i)] == KeyAt(l, j)
  {
    assert LinkHolds(links, l, i, j);
  }

  /** One more step of an execution. */
  ghost method Record(a: System, step: Step, b: System, trace: seq<System>, steps: seq<Step>)
    returns (s: System, more: seq<System>, moreSteps: seq<Step>)
    requires Inv(a) && Next(a, step, b) && IsExecution(trace, steps) && trace[|steps|] == a
    ensures s == b && Inv(b) && more == trace + [b] && moreSteps == steps + [step] && IsExecution(more, moreSteps)
  {
    hide Next;
    StepKeepsInv(a, step, b);
    s, more, moreSteps := b, trace + [b], steps + [step];
    forall i | 0 <= i < |moreSteps| ensures StepAt(more, moreSteps, i) {
      if i < |steps| {
        assert StepAt(trace, steps, i);
      }
    }
  }

  lemma StartTrace(s: System)
    requires Shape(s.memory, s.lists) && s.inserter.Resting? && s.search.Idle?
    ensures Inv(s) && IsExecution([s], [])
  {
  }

  lemma InvIsShape(s: System)
    requires Inv(s)
    ensures Shape(s.memory, s.lists)
  {
  }

  lemma LevelsAndHeight(m: Memory, lists: seq<seq<InternalKey>>)
    requires Shape(m, lists)
    ensures |lists| == MAX_HEIGHT && 1 <= m.maxHeight <= MAX_HEIGHT
  {
  }

  lemma EmptyAbove(m: Memory, lists: seq<seq<InternalKey>>, key: InternalKey, height: nat)
    requires Shape(m, lists)
    ensures forall i :: m.maxHeight <= i < MAX_HEIGHT ==> PrevOf(lists, key, i) == Head
  {
  }

  lemma PrevIsLinked(s: System)
    requires Inv(s) && s.inserter.Inserting?
    ensures var t := s.inserter; (t.prev[t.linked], t.linked) in s.memory.links
  {
    var t := s.inserter;
    LinkAtCount(s.memory.links, s.lists[t.linked], t.linked, t.key);
  }
}
