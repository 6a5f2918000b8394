/** What reading makes of any file (db/log_reader.cc): exactly the unbroken runs of its fragments are records, and every fragment
    or gap that breaks or misses a run is reported. */
module LogHarvest {
  import opened DbFormat
  import opened Coding
  import opened LogFormat
  import opened LogRoundTrip

  /** What stands in a file: a fragment that is there with its checksum, or a stretch that was passed over. */
  datatype Event = Piece(code: Byte, fragment: Bytes) | Gap(reported: bool)

  function Events(crc: Checksum, file: Bytes, p: nat): seq<Event>
    requires p <= |file|
    decreases |file| - p
  {
    match ReadPhysical(crc, file, p)
    case Eof => []
    case Bad(next, reported) => [Gap(reported)] + Events(crc, file, next)
    case Got(code, fragment, next) => [Piece(code, fragment)] + Events(crc, file, next)
  }

  predicate Is(es: seq<Event>, i: nat, code: nat)
    requires i < |es|
  {
    es[i].Piece? && es[i].code == code
  }

  /** A run begins with a first fragment at `i`, and only middle ones follow up to `j`. */
  ghost predicate OpenAt(es: seq<Event>, i: nat, j: nat) {
    i < j <= |es| && Is(es, i, 2) && forall k :: i < k < j ==> Is(es, k, 3)
  }

  /** One full fragment, or a first, middle and a last one. */
  ghost predicate IsRun(es: seq<Event>, i: nat, j: nat) {
    j < |es| && if i == j then Is(es, i, 1) else OpenAt(es, i, j) && Is(es, j, 4)
  }

  /** The fragments of events `i` to `j - 1`, end to end. */
  function Text(es: seq<Event>, i: nat, j: nat): Bytes
    requires j <= |es|
  {
    if j <= i then [] else Text(es, i, j - 1) + (if es[j - 1].Piece? then es[j - 1].fragment else [])
  }

  /** Nothing before `j` has the type code that the reader takes for the end of the file. */
  ghost predicate Reached(es: seq<Event>, j: nat) {
    j <= |es| && forall k :: 0 <= k < j ==> !Is(es, k, 5)
  }

  ghost predicate RunAt(es: seq<Event>, run: (nat, nat), record: Bytes) {
    IsRun(es, run.0, run.1) && Reached(es, run.1) && record == Text(es, run.0, run.1 + 1)
  }

  ghost predicate Ascending(runs: seq<(nat, nat)>) {
    forall k, l :: 0 <= k < l < |runs| ==> runs[k].1 < runs[l].0
  }

  /** `records` are the texts of all runs, in order. */
  ghost predicate Harvest(es: seq<Event>, records: seq<Bytes>) {
    exists runs :: AllRuns(es, runs, records)
  }

  ghost predicate AllRuns(es: seq<Event>, runs: seq<(nat, nat)>, records: seq<Bytes>) {
    && |runs| == |records| && Ascending(runs)
    && (forall k :: 0 <= k < |runs| ==> RunAt(es, runs[k], records[k]))
    && forall i: nat, j: nat :: IsRun(es, i, j) && Reached(es, j) ==> (i, j) in runs
  }

  /** How often an event is reported. */
  ghost function Weight(es: seq<Event>, k: nat): nat
    requires k < |es|
  {
    var open := exists i: nat :: OpenAt(es, i, k);
    var started := exists i: nat :: OpenAt(es, i, k) && Text(es, i, k) != [];
    match es[k]
    case Gap(reported) => (if reported then 1 else 0) + (if open then 1 else 0)
    case Piece(code, _) =>
      // Only a run that has text is missed when another begins.
      if code == 1 || code == 2 then (if started then 1 else 0)
      else if code == 3 || code == 4 then (if open then 0 else 1)
      // The reader takes its own codes for the end and for a bad record.
      else if code == 5 then 0
      else if code == 6 then (if open then 1 else 0)
      else 1
  }

  /** The reports of all events from `k` on, up to the end that the reader sees. */
  ghost function Reports(es: seq<Event>, k: nat): nat
    requires k <= |es|
    decreases |es| - k
  {
    if k == |es| || Is(es, k, 5) then 0 else Weight(es, k) + Reports(es, k + 1)
  }

  // ----- Putting events before others -----

  /** The reader gets past `d`, and no run goes on from `d` to what comes behind it. */
  ghost predicate Closed(d: seq<Event>, rest: seq<Event>) {
    && (forall i :: 0 <= i < |d| ==> !Is(d, i, 5))
    && (rest == [] || (!Is(rest, 0, 3) && !Is(rest, 0, 4)) || forall i: nat :: !OpenAt(d, i, |d|))
  }

  lemma ShiftedIs(d: seq<Event>, rest: seq<Event>)
    ensures forall k: nat, code :: k < |rest| ==> (Is(d + rest, |d| + k, code) <==> Is(rest, k, code))
    ensures forall k: nat, code :: |d| <= k < |d + rest| ==> (Is(d + rest, k, code) <==> Is(rest, k - |d|, code))
    ensures forall k: nat, code :: k < |d| ==> (Is(d + rest, k, code) <==> Is(d, k, code))
  {
  }

  lemma ShiftedOpen(d: seq<Event>, rest: seq<Event>, i: nat, j: nat)
    ensures OpenAt(d + rest, |d| + i, |d| + j) <==> OpenAt(rest, i, j)
  {
    hide Is;
    ShiftedIs(d, rest);
    if OpenAt(d + rest, |d| + i, |d| + j) {
      forall k | i < k < j ensures Is(rest, k, 3) {
        assert Is(d + rest, |d| + k, 3);
      }
    }
  }

  lemma ShiftedRun(d: seq<Event>, rest: seq<Event>, i: nat, j: nat)
    ensures IsRun(d + rest, |d| + i, |d| + j) <==> IsRun(rest, i, j)
  {
    hide Is, OpenAt;
    ShiftedIs(d, rest);
    ShiftedOpen(d, rest, i, j);
  }

  lemma {:induction false} ShiftedText(d: seq<Event>, rest: seq<Event>, i: nat, j: nat)
    requires j <= |rest|
    ensures Text(d + rest, |d| + i, |d| + j) == Text(rest, i, j)
    decreases j
  {
    if i < j {
      ShiftedText(d, rest, i, j - 1);
    }
  }

  lemma ShiftedReach(d: seq<Event>, rest: seq<Event>, j: nat)
    requires Closed(d, rest)
    ensures Reached(d + rest, |d| + j) <==> Reached(rest, j)
  {
    hide OpenAt, Is;
    ShiftedIs(d, rest);
    if Reached(d + rest, |d| + j) {
      forall k | 0 <= k < j ensures !Is(rest, k, 5) {
        assert !Is(d + rest, |d| + k, 5);
      }
    }
  }

  lemma FrontOpen(d: seq<Event>, rest: seq<Event>, i: nat, j: nat)
    requires j <= |d|
    ensures OpenAt(d + rest, i, j) <==> OpenAt(d, i, j)
  {
    hide Is;
    ShiftedIs(d, rest);
  }

  lemma {:induction false} FrontText(d: seq<Event>, rest: seq<Event>, i: nat, j: nat)
    requires j <= |d|
    ensures Text(d + rest, i, j) == Text(d, i, j)
    decreases j
  {
    if i < j {
      FrontText(d, rest, i, j - 1);
    }
  }

  lemma FrontRun(d: seq<Event>, rest: seq<Event>, i: nat, j: nat)
    requires j < |d|
    ensures IsRun(d + rest, i, j) <==> IsRun(d, i, j)
    ensures Reached(d + rest, j) <==> Reached(d, j)
  {
    hide Is, OpenAt;
    ShiftedIs(d, rest);
    FrontOpen(d, rest, i, j);
  }

  /** No run lies across the border. */
  lemma NothingAcross(d: seq<Event>, rest: seq<Event>, i: nat, j: nat)
    requires Closed(d, rest) && i < |d| <= j
    ensures !IsRun(d + rest, i, j) && (j > |d| ==> !OpenAt(d + rest, i, j))
  {
    hide Is;
    ShiftedIs(d, rest);
    if OpenAt(d + rest, i, j) && j < |d + rest| && (j > |d| || Is(d + rest, j, 4)) {
      assert OpenAt(d + rest, i, |d|);
      FrontOpen(d, rest, i, |d|);
    }
    if j > |d| && OpenAt(d + rest, i, j) {
      assert OpenAt(d + rest, i, |d|);
      FrontOpen(d, rest, i, |d|);
    }
  }

  function Later(runs: seq<(nat, nat)>, n: nat): seq<(nat, nat)> {
    seq(|runs|, k requires 0 <= k < |runs| => (n + runs[k].0, n + runs[k].1))
  }

  lemma FrontRunAt(d: seq<Event>, rest: seq<Event>, run: (nat, nat), record: Bytes)
    requires RunAt(d, run, record)
    ensures RunAt(d + rest, run, record)
  {
    FrontRun(d, rest, run.0, run.1);
    FrontText(d, rest, run.0, run.1 + 1);
  }

  lemma LaterRunAt(d: seq<Event>, rest: seq<Event>, run: (nat, nat), record: Bytes)
    requires Closed(d, rest) && RunAt(rest, run, record)
    ensures RunAt(d + rest, (|d| + run.0, |d| + run.1), record)
  {
    hide Closed;
    ShiftedRun(d, rest, run.0, run.1);
    ShiftedReach(d, rest, run.1);
    ShiftedText(d, rest, run.0, run.1 + 1);
  }

  lemma AscendingConcat(front: seq<(nat, nat)>, back: seq<(nat, nat)>, n: nat)
    requires Ascending(front) && Ascending(back) && forall k :: 0 <= k < |front| ==> front[k].1 < n
    ensures Ascending(front + Later(back, n))
  {
  }

  lemma RunsAt(d: seq<Event>, rest: seq<Event>, front: seq<(nat, nat)>, back: seq<(nat, nat)>, a: seq<Bytes>, b: seq<Bytes>)
    requires Closed(d, rest) && AllRuns(d, front, a) && AllRuns(rest, back, b)
    ensures var runs := front + Later(back, |d|); forall k :: 0 <= k < |runs| ==> RunAt(d + rest, runs[k], (a + b)[k])
  {
    hide RunAt, Closed, IsRun, Reached, Ascending;
    var runs := front + Later(back, |d|);
    forall k | 0 <= k < |runs| ensures RunAt(d + rest, runs[k], (a + b)[k]) {
      if k < |front| {
        FrontRunAt(d, rest, front[k], a[k]);
      } else {
        LaterRunAt(d, rest, back[k - |front|], b[k - |front|]);
      }
    }
  }

  /** Each side is harvested on its own. */
  lemma HarvestConcat(d: seq<Event>, rest: seq<Event>, a: seq<Bytes>, b: seq<Bytes>)
    requires Closed(d, rest) && Harvest(d, a) && Harvest(rest, b)
    ensures Harvest(d + rest, a + b)
  {
    hide IsRun, Closed, RunAt, Reached, Ascending, Later;
    var front :| AllRuns(d, front, a);
    var back :| AllRuns(rest, back, b);
    RunsAreInside(d, front, a);
    AscendingConcat(front, back, |d|);
    RunsAt(d, rest, front, back, a, b);
    forall i: nat, j: nat | IsRun(d + rest, i, j) && Reached(d + rest, j) ensures (i, j) in front + Later(back, |d|) {
      RunIsListed(d, rest, front, back, i, j);
    }
    LaterLength(back, |d|);
    assert AllRuns(d + rest, front + Later(back, |d|), a + b);
  }

  lemma LaterLength(runs: seq<(nat, nat)>, n: nat)
    ensures |Later(runs, n)| == |runs|
  {
  }

  lemma RunsAreInside(d: seq<Event>, runs: seq<(nat, nat)>, records: seq<Bytes>)
    requires |runs| == |records| && forall k :: 0 <= k < |runs| ==> RunAt(d, runs[k], records[k])
    ensures forall k :: 0 <= k < |runs| ==> runs[k].0 <= runs[k].1 < |d|
  {
  }

  lemma RunIsListed(d: seq<Event>, rest: seq<Event>, front: seq<(nat, nat)>, back: seq<(nat, nat)>, i: nat, j: nat)
    requires Closed(d, rest) && IsRun(d + rest, i, j) && Reached(d + rest, j)
    requires forall i: nat, j: nat :: IsRun(d, i, j) && Reached(d, j) ==> (i, j) in front
    requires forall i: nat, j: nat :: IsRun(rest, i, j) && Reached(rest, j) ==> (i, j) in back
    ensures (i, j) in front + Later(back, |d|)
  {
    if j < |d| {
      FrontRun(d, rest, i, j);
    } else if i < |d| {
      NothingAcross(d, rest, i, j);
    } else {
      RunIsOrdered(d + rest, i, j);
      ShiftedRun(d, rest, i - |d|, j - |d|);
      ShiftedReach(d, rest, j - |d|);
      var k :| 0 <= k < |back| && back[k] == (i - |d|, j - |d|);
      assert Later(back, |d|)[k] == (i, j);
    }
  }

  lemma RunIsOrdered(es: seq<Event>, i: nat, j: nat)
    requires IsRun(es, i, j)
    ensures i <= j < |es|
  {
  }

  lemma WeightBehind(d: seq<Event>, rest: seq<Event>, k: nat)
    requires Closed(d, rest) && k < |rest| && (k > 0 || forall i: nat :: !OpenAt(d, i, |d|))
    ensures Weight(d + rest, |d| + k) == Weight(rest, k)
  {
    hide Closed, Text, Is;
    hide OpenAt;
    var all := d + rest;
    forall i: nat ensures OpenAt(all, |d| + i, |d| + k) <==> OpenAt(rest, i, k) {
      ShiftedOpen(d, rest, i, k);
    }
    forall i: nat ensures Text(all, |d| + i, |d| + k) == Text(rest, i, k) {
      ShiftedText(d, rest, i, k);
    }
    var at := |d| + k;
    forall i: nat | i < |d| ensures !OpenAt(all, i, at) {
      if k > 0 {
        NothingAcross(d, rest, i, at);
      } else {
        FrontOpen(d, rest, i, |d|);
      }
    }
    forall i: nat | OpenAt(all, i, at) ensures i >= |d| && OpenAt(rest, i - |d|, k) && Text(all, i, at) == Text(rest, i - |d|, k) {
      assert |d| + (i - |d|) == i;
    }
    assert all[|d| + k] == rest[k];
  }

  lemma {:induction false} ReportsBehind(d: seq<Event>, rest: seq<Event>, k: nat)
    requires Closed(d, rest) && k <= |rest| && (k > 0 || forall i: nat :: !OpenAt(d, i, |d|))
    ensures Reports(d + rest, |d| + k) == Reports(rest, k)
    decreases |rest| - k
  {
    hide Closed, Weight, OpenAt;
    if k < |rest| {
      WeightBehind(d, rest, k);
      ReportsBehind(d, rest, k + 1);
    }
  }

  // ----- The reader's state -----

  /** What the reader keeps between two fragments: `open` are the events of the run it is in. */
  ghost predicate Keeps(open: seq<Event>, inFragment: bool, scratch: Bytes) {
    if inFragment then OpenAt(open, 0, |open|) && Text(open, 0, |open|) == scratch else open == [] && scratch == []
  }

  /** In which runs of the kept events the next one stands. */
  lemma KeptOpen(open: seq<Event>, inFragment: bool, scratch: Bytes, rest: seq<Event>)
    requires Keeps(open, inFragment, scratch)
    ensures forall i: nat :: OpenAt(open + rest, i, |open|) <==> inFragment && i == 0
    ensures forall i: nat :: OpenAt(open, i, |open|) <==> inFragment && i == 0
    ensures inFragment ==> open != [] && Text(open + rest, 0, |open|) == scratch
    ensures forall i :: 0 <= i < |open| ==> !Is(open, i, 5) && !Is(open, i, 1) && !Is(open, i, 4)
  {
    hide Is, Text;
    forall i: nat ensures OpenAt(open + rest, i, |open|) <==> OpenAt(open, i, |open|) {
      FrontOpen(open, rest, i, |open|);
    }
    forall i: nat | i < |open| ensures !Is(open, i, 5) && !Is(open, i, 1) && !Is(open, i, 4) && (OpenAt(open, i, |open|) <==> i == 0) {
      KeptKind(open, i);
    }
    FrontText(open, rest, 0, |open|);
  }

  lemma KeptKind(open: seq<Event>, i: nat)
    requires OpenAt(open, 0, |open|) && i < |open|
    ensures Is(open, i, if i == 0 then 2 else 3)
    ensures !Is(open, i, 5) && !Is(open, i, 1) && !Is(open, i, 4) && (Is(open, i, 2) <==> i == 0)
  {
  }

  lemma KeptWeight(open: seq<Event>, inFragment: bool, scratch: Bytes, e: Event, rest: seq<Event>)
    requires Keeps(open, inFragment, scratch)
    ensures var all := open + ([e] + rest);
      && all[|open|] == e
      && ((exists i: nat :: OpenAt(all, i, |open|)) <==> inFragment)
      && ((exists i: nat :: OpenAt(all, i, |open|) && Text(all, i, |open|) != []) <==> inFragment && scratch != [])
  {
    hide OpenAt, Text, Is;
    KeptOpen(open, inFragment, scratch, [e] + rest);
    if inFragment {
      assert OpenAt(open + ([e] + rest), 0, |open|);
    }
  }

  lemma NoRuns(es: seq<Event>)
    requires forall i :: 0 <= i < |es| ==> !Is(es, i, 1) && !Is(es, i, 4)
    ensures Harvest(es, [])
  {
    assert AllRuns(es, [], []);
  }

  lemma OneRun(es: seq<Event>, i: nat, last: nat)
    requires |es| == last + 1 && IsRun(es, i, last) && Reached(es, last)
    requires forall k :: 0 <= k < last ==> !Is(es, k, 1) && !Is(es, k, 4)
    requires forall k: nat :: IsRun(es, k, last) ==> k == i
    ensures Harvest(es, [Text(es, i, last + 1)])
  {
    hide OpenAt, Text;
    var runs := [(i, last)];
    assert RunAt(es, runs[0], Text(es, i, last + 1));
    forall k: nat, j: nat | IsRun(es, k, j) && Reached(es, j) ensures (k, j) in runs {
      assert j == last;
    }
    assert AllRuns(es, runs, [Text(es, i, last + 1)]);
  }

  /** An event that ends the run without a record, or is in none. */
  lemma Breaks(open: seq<Event>, inFragment: bool, scratch: Bytes, e: Event, rest: seq<Event>, records: seq<Bytes>)
    requires Keeps(open, inFragment, scratch) && Harvest(rest, records)
    requires e.Piece? ==> e.code != 1 && e.code != 2 && e.code != 5 && ((e.code == 3 || e.code == 4) ==> !inFragment)
    ensures var all := open + ([e] + rest);
      && Harvest(all, records) && Reports(all, |open|) == Weight(all, |open|) + Reports(rest, 0)
  {
    hide OpenAt, Text, Harvest, Weight, Closed, Keeps;
    BreaksAlone(open, inFragment, scratch, e, rest);
    assert open + ([e] + rest) == (open + [e]) + rest;
    HarvestConcat(open + [e], rest, [], records);
    assert [] + records == records;
    ReportsBehind(open + [e], rest, 0);
  }

  lemma BreaksAlone(open: seq<Event>, inFragment: bool, scratch: Bytes, e: Event, rest: seq<Event>)
    requires Keeps(open, inFragment, scratch)
    requires e.Piece? ==> e.code != 1 && e.code != 2 && e.code != 5 && ((e.code == 3 || e.code == 4) ==> !inFragment)
    ensures var d := open + [e]; Closed(d, rest) && Harvest(d, []) && forall i: nat :: !OpenAt(d, i, |d|)
  {
    hide OpenAt, Text, Harvest;
    var d := open + [e];
    KeptOpen(open, inFragment, scratch, [e]);
    NotOpenBehind(open, e);
    ShiftedIs(open, [e]);
    if e.Piece? && e.code == 4 {
      LoneLast(e);
      assert d == [e];
    } else {
      NoRuns(d);
    }
  }

  lemma LoneLast(e: Event)
    requires e.Piece? && e.code == 4
    ensures Harvest([e], [])
  {
    assert AllRuns([e], [], []);
  }

  /** No run is open behind an event that is neither a first fragment nor a middle one in a run. */
  lemma NotOpenBehind(open: seq<Event>, e: Event)
    requires !Is([e], 0, 2) && (Is([e], 0, 3) ==> forall i: nat :: !OpenAt(open, i, |open|))
    ensures forall i: nat :: !OpenAt(open + [e], i, |open + [e]|)
  {
    hide Is;
    ShiftedIs(open, [e]);
    forall i: nat ensures !OpenAt(open + [e], i, |open + [e]|) {
      FrontOpen(open, [e], i, |open|);
      assert Is(open + [e], |open|, 3) <==> Is([e], 0, 3);
      assert Is(open + [e], |open|, 2) <==> Is([e], 0, 2);
    }
  }

  lemma FirstCloses(open: seq<Event>, inFragment: bool, scratch: Bytes, e: Event, rest: seq<Event>)
    requires Keeps(open, inFragment, scratch) && e.Piece? && e.code == 2
    ensures Closed(open, [e] + rest) && Harvest(open, [])
  {
    hide OpenAt, Text, Keeps;
    KeptOpen(open, inFragment, scratch, []);
    NoRuns(open);
  }

  /** A first fragment begins a run; one that was open is given up. */
  lemma Begins(open: seq<Event>, inFragment: bool, scratch: Bytes, e: Event, rest: seq<Event>, records: seq<Bytes>)
    requires Keeps(open, inFragment, scratch) && e.Piece? && e.code == 2 && Harvest([e] + rest, records)
    ensures var all := open + ([e] + rest);
      && Harvest(all, records) && Reports(all, |open|) == Weight(all, |open|) + Reports([e] + rest, 1)
  {
    hide OpenAt, Text, Harvest, Weight, Keeps, Closed;
    FirstCloses(open, inFragment, scratch, e, rest);
    HarvestConcat(open, [e] + rest, [], records);
    assert [] + records == records;
    ReportsBehind(open, [e] + rest, 1);
    KeptWeight(open, inFragment, scratch, e, rest);
  }

  lemma OnePiece(e: Event)
    requires e.Piece?
    ensures e.code == 2 ==> Keeps([e], true, e.fragment)
    ensures Text([e], 0, 1) == e.fragment
  {
    assert Text([e], 0, 0) == [];
  }

  /** A full fragment is a record; a run that was open is given up. */
  lemma IsWhole(open: seq<Event>, inFragment: bool, scratch: Bytes, e: Event, rest: seq<Event>, records: seq<Bytes>)
    requires Keeps(open, inFragment, scratch) && e.Piece? && e.code == 1 && Harvest(rest, records)
    ensures var all := open + ([e] + rest);
      && Harvest(all, [e.fragment] + records) && Reports(all, |open|) == Weight(all, |open|) + Reports(rest, 0)
  {
    hide OpenAt, Text, Harvest, Weight, Keeps;
    var d := open + [e];
    KeptOpen(open, inFragment, scratch, [e]);
    NotOpenBehind(open, e);
    ShiftedIs(open, [e]);
    ShiftedText(open, [e], 0, 1);
    OnePiece(e);
    OneRun(d, |open|, |open|);
    assert open + ([e] + rest) == d + rest;
    HarvestConcat(d, rest, [e.fragment], records);
    ReportsBehind(d, rest, 0);
    KeptWeight(open, inFragment, scratch, e, rest);
  }

  lemma OneMoreText(open: seq<Event>, e: Event)
    requires e.Piece?
    ensures Text(open + [e], 0, |open + [e]|) == Text(open, 0, |open|) + e.fragment
  {
    FrontText(open, [e], 0, |open|);
    assert (open + [e])[|open|] == e;
  }

  lemma OneMoreOpen(open: seq<Event>, e: Event)
    requires OpenAt(open, 0, |open|) && e.Piece? && e.code == 3
    ensures OpenAt(open + [e], 0, |open + [e]|)
  {
    hide Is;
    ShiftedIs(open, [e]);
    FrontOpen(open, [e], 0, |open|);
    assert Is([e], 0, 3) by {
      MiddleIs(e);
    }
  }

  lemma MiddleIs(e: Event)
    requires e.Piece?
    ensures Is([e], 0, e.code as nat)
  {
  }

  /** A middle fragment goes on with the run. */
  lemma GoesOn(open: seq<Event>, scratch: Bytes, e: Event, rest: seq<Event>)
    requires Keeps(open, true, scratch) && e.Piece? && e.code == 3
    ensures Keeps(open + [e], true, scratch + e.fragment)
    ensures var all := open + ([e] + rest);
      all == (open + [e]) + rest && Reports(all, |open|) == Weight(all, |open|) + Reports(all, |open| + 1)
  {
    hide Weight, OpenAt, Text;
    KeptWeight(open, true, scratch, e, rest);
    OneMoreOpen(open, e);
    OneMoreText(open, e);
  }

  /** A last fragment ends it: a record. */
  lemma Ends(open: seq<Event>, scratch: Bytes, e: Event, rest: seq<Event>, records: seq<Bytes>)
    requires Keeps(open, true, scratch) && e.Piece? && e.code == 4 && Harvest(rest, records)
    ensures var all := open + ([e] + rest);
      && Harvest(all, [scratch + e.fragment] + records) && Reports(all, |open|) == Weight(all, |open|) + Reports(rest, 0)
  {
    hide OpenAt, Harvest, Weight, Keeps, Text;
    var d := open + [e];
    KeptOpen(open, true, scratch, []);
    KeptOpen(open, true, scratch, [e]);
    NotOpenBehind(open, e);
    ShiftedIs(open, [e]);
    assert open + [] == open;
    OneMoreText(open, e);
    OneRun(d, 0, |open|);
    assert open + ([e] + rest) == d + rest;
    HarvestConcat(d, rest, [scratch + e.fragment], records);
    ReportsBehind(d, rest, 0);
    KeptWeight(open, true, scratch, e, rest);
  }

  /** The code for the end of the file ends reading. */
  lemma Stops(open: seq<Event>, inFragment: bool, scratch: Bytes, e: Event, rest: seq<Event>)
    requires Keeps(open, inFragment, scratch) && e.Piece? && e.code == 5
    ensures var all := open + ([e] + rest); Harvest(all, []) && Reports(all, |open|) == 0
  {
    hide OpenAt, Text, Weight, Keeps;
    var all := open + ([e] + rest);
    KeptOpen(open, inFragment, scratch, [e] + rest);
    ShiftedIs(open, [e] + rest);
    assert all[|open|] == e && Is(all, |open|, 5);
    forall i: nat, j: nat | IsRun(all, i, j) ensures !Reached(all, j) {
      RunEnds(all, i, j);
    }
    assert AllRuns(all, [], []);
  }

  lemma RunEnds(es: seq<Event>, i: nat, j: nat)
    requires IsRun(es, i, j)
    ensures j < |es| && (Is(es, j, 1) || Is(es, j, 4))
  {
  }

  lemma Nothing(open: seq<Event>, inFragment: bool, scratch: Bytes)
    requires Keeps(open, inFragment, scratch)
    ensures open + [] == open && Harvest(open, []) && Reports(open, |open|) == 0
  {
    hide OpenAt, Text, Keeps;
    KeptOpen(open, inFragment, scratch, []);
    NoRuns(open);
  }

  // ----- Reading -----

  /** What is read from `p` on, if the reader stands in a run there. */
  function ReadOn(crc: Checksum, file: Bytes, p: nat, inFragment: bool, scratch: Bytes): (seq<Bytes>, nat)
    requires p <= |file|
  {
    match ReadLogical(crc, file, p, inFragment, scratch, 0)
    case End(n) => ([], n)
    case Record(record, next, n) => ([record] + ReadAll(crc, file, next).0, n + ReadAll(crc, file, next).1)
  }

  lemma LogicalTurn(crc: Checksum, file: Bytes, p: nat, inFragment: bool, scratch: Bytes, reports: nat)
    requires p <= |file|
    ensures ReadLogical(crc, file, p, inFragment, scratch, reports) ==
      match TurnOf(ReadPhysical(crc, file, p), inFragment, scratch, reports)
      case Done(result) => result
      case Again(next, f, s, n) => ReadLogical(crc, file, next, f, s, n)
  {
    hide ReadPhysical, TurnOf;
  }

  lemma FirstOfAll(crc: Checksum, file: Bytes, p: nat)
    requires p <= |file|
    ensures ReadAll(crc, file, p) == match ReadLogical(crc, file, p, false, [], 0)
      case End(n) => ([], n)
      case Record(record, next, n) => ([record] + ReadAll(crc, file, next).0, n + ReadAll(crc, file, next).1)
  {
    hide ReadLogical;
  }

  lemma OneTurn(crc: Checksum, file: Bytes, p: nat, inFragment: bool, scratch: Bytes)
    requires p <= |file|
    ensures ReadOn(crc, file, p, inFragment, scratch) ==
      match TurnOf(ReadPhysical(crc, file, p), inFragment, scratch, 0)
      case Done(End(n)) => ([], n)
      case Done(Record(record, next, n)) => ([record] + ReadAll(crc, file, next).0, n + ReadAll(crc, file, next).1)
      case Again(next, f, s, n) => (ReadOn(crc, file, next, f, s).0, n + ReadOn(crc, file, next, f, s).1)
    ensures ReadAll(crc, file, p) == ReadOn(crc, file, p, false, [])
  {
    hide ReadPhysical, TurnOf, ReadAll, ReadLogical;
    LogicalTurn(crc, file, p, inFragment, scratch, 0);
    FirstOfAll(crc, file, p);
    match TurnOf(ReadPhysical(crc, file, p), inFragment, scratch, 0)
    case Done(_) =>
    case Again(next, f, s, n) => ReportsOnlyAdd(crc, file, next, f, s, 0, n);
  }

  lemma {:induction false} ReadsHarvest(crc: Checksum, file: Bytes, p: nat, open: seq<Event>, inFragment: bool, scratch: Bytes)
    requires p <= |file| && Keeps(open, inFragment, scratch)
    ensures var all := open + Events(crc, file, p);
      var (records, reports) := ReadOn(crc, file, p, inFragment, scratch);
      Harvest(all, records) && reports == Reports(all, |open|)
    decreases |file| - p, 1
  {
    hide ReadPhysical, Harvest, Keeps, ReadAll, ReadOn, Reports, OpenAt, Text;
    OneTurn(crc, file, p, inFragment, scratch);
    match ReadPhysical(crc, file, p)
    case Eof =>
      Nothing(open, inFragment, scratch);
    case Bad(next, reported) =>
      var e, rest := Gap(reported), Events(crc, file, next);
      ReadsFresh(crc, file, next);
      Breaks(open, inFragment, scratch, e, rest, ReadOn(crc, file, next, false, []).0);
      KeptWeight(open, inFragment, scratch, e, rest);
    case Got(code, fragment, next) =>
      ReadsPiece(crc, file, p, open, inFragment, scratch, code, fragment, next);
  }

  lemma {:induction false} ReadsFresh(crc: Checksum, file: Bytes, p: nat)
    requires p <= |file|
    ensures ReadAll(crc, file, p) == ReadOn(crc, file, p, false, [])
    ensures var (records, reports) := ReadAll(crc, file, p);
      Harvest(Events(crc, file, p), records) && reports == Reports(Events(crc, file, p), 0)
    decreases |file| - p, 2
  {
    hide ReadPhysical, Harvest, ReadOn, Reports, Events;
    OneTurn(crc, file, p, false, []);
    ReadsHarvest(crc, file, p, [], false, []);
    assert [] + Events(crc, file, p) == Events(crc, file, p);
  }

  lemma {:induction false} ReadsPiece(crc: Checksum, file: Bytes, p: nat, open: seq<Event>, inFragment: bool, scratch: Bytes, code: Byte,
                                      fragment: Bytes, next: nat)
    requires p <= |file| && Keeps(open, inFragment, scratch) && ReadPhysical(crc, file, p) == Got(code, fragment, next)
    ensures var all := open + Events(crc, file, p);
      var (records, reports) := ReadOn(crc, file, p, inFragment, scratch);
      Harvest(all, records) && reports == Reports(all, |open|)
    decreases |file| - p, 0
  {
    hide ReadPhysical, Harvest, Keeps, ReadAll, ReadOn, Reports, OpenAt, Text;
    OneTurn(crc, file, p, inFragment, scratch);
    var e, rest := Piece(code, fragment), Events(crc, file, next);
    assert Events(crc, file, p) == [e] + rest;
    KeptWeight(open, inFragment, scratch, e, rest);
    if code == 5 {
      Stops(open, inFragment, scratch, e, rest);
    } else if code == 1 {
      ReadsFresh(crc, file, next);
      IsWhole(open, inFragment, scratch, e, rest, ReadAll(crc, file, next).0);
    } else if code == 2 {
      OnePiece(e);
      ReadsHarvest(crc, file, next, [e], true, fragment);
      Begins(open, inFragment, scratch, e, rest, ReadOn(crc, file, next, true, fragment).0);
    } else if code == 3 && inFragment {
      GoesOn(open, scratch, e, rest);
      ReadsHarvest(crc, file, next, open + [e], true, scratch + fragment);
    } else if code == 4 && inFragment {
      ReadsFresh(crc, file, next);
      Ends(open, scratch, e, rest, ReadAll(crc, file, next).0);
    } else {
      ReadsFresh(crc, file, next);
      NoScratch(open, inFragment, scratch);
      Breaks(open, inFragment, scratch, e, rest, ReadAll(crc, file, next).0);
    }
  }

  lemma NoScratch(open: seq<Event>, inFragment: bool, scratch: Bytes)
    requires Keeps(open, inFragment, scratch)
    ensures !inFragment ==> scratch == []
  {
  }

  /** The records and reports of any file. */
  lemma FileIsHarvested(crc: Checksum, file: Bytes)
    ensures Harvest(Events(crc, file, 0), ReadAll(crc, file, 0).0)
    ensures ReadAll(crc, file, 0).1 == Reports(Events(crc, file, 0), 0)
  {
    hide Harvest, Reports, ReadAll;
    ReadsFresh(crc, file, 0);
  }

  lemma NoElements(a: seq<(nat, nat)>, b: seq<(nat, nat)>)
    requires forall run :: run in a <==> run in b
    ensures a == [] <==> b == []
  {
    if a != [] {
      assert a[0] in a;
    }
    if b != [] {
      assert b[0] in b;
    }
  }

  lemma {:induction false} SameAscending(a: seq<(nat, nat)>, b: seq<(nat, nat)>)
    requires Ascending(a) && Ascending(b) && (forall run :: run in a <==> run in b)
    requires forall run :: run in a ==> run.0 <= run.1
    ensures a == b
    decreases |a|
  {
    if a != [] && b != [] {
      assert a[0] in b && b[0] in a;
      assert a[0] == b[0];
      assert a == [a[0]] + a[1..] && b == [b[0]] + b[1..];
      assert a[0] !in a[1..] && b[0] !in b[1..];
      SameAscending(a[1..], b[1..]);
    } else {
      NoElements(a, b);
    }
  }

  /** There is one harvest. */
  lemma HarvestIsUnique(es: seq<Event>, a: seq<Bytes>, b: seq<Bytes>)
    requires Harvest(es, a) && Harvest(es, b)
    ensures a == b
  {
    hide IsRun, Reached, Text, Ascending;
    var r :| AllRuns(es, r, a);
    var s :| AllRuns(es, s, b);
    RunsAreInside(es, r, a);
    forall run ensures run in r <==> run in s {
      if run in r {
        var k :| 0 <= k < |r| && r[k] == run;
        assert RunAt(es, r[k], a[k]);
      }
      if run in s {
        var k :| 0 <= k < |s| && s[k] == run;
        assert RunAt(es, s[k], b[k]);
      }
    }
    SameAscending(r, s);
  }
}
