/** Where a compaction must stop an output, told from the grandparents and the merged entries alone (db/version_set.cc). */
module GrandparentStops {
  import opened DbFormat
  import opened Files
  import opened Versions
  import opened Compactions

  /** The bytes of the grandparents that end at or after `a` and before `b`. */
  function EndedBytes(grandparents: seq<FileMeta>, a: InternalKey, b: InternalKey): nat {
    if grandparents == [] then 0 else
      var g := grandparents[0];
      (if !Less(g.largest, a) && Less(g.largest, b) then g.fileSize else 0) + EndedBytes(grandparents[1..], a, b)
  }

  /** The last stop at or before entry `i`: an entry is a stop once more than ten tables' worth of grandparents have ended since
      the stop before it, or since the first entry. */
  function LastStop(grandparents: seq<FileMeta>, data: seq<Entry>, limit: nat, i: nat): (s: nat)
    requires i < |data|
    ensures s <= i
  {
    if i == 0 then 0 else
      var s := LastStop(grandparents, data, limit, i - 1);
      if EndedBytes(grandparents, data[s].key, data[i].key) > 10 * limit then i else s
  }

  predicate IsStop(grandparents: seq<FileMeta>, data: seq<Entry>, limit: nat, i: int) {
    0 < i < |data| && LastStop(grandparents, data, limit, i) == i
  }

  /** There is a stop after `a`, at or before `b`. */
  ghost predicate StopBetween(grandparents: seq<FileMeta>, data: seq<Entry>, limit: nat, a: InternalKey, b: InternalKey) {
    exists i :: 0 < i < |data| && IsStop(grandparents, data, limit, i) && Less(a, data[i].key) && !Less(b, data[i].key)
  }

  lemma WiderHasStop(grandparents: seq<FileMeta>, data: seq<Entry>, limit: nat, a: InternalKey, b: InternalKey, c: InternalKey, d: InternalKey)
    requires StopBetween(grandparents, data, limit, b, c) && !Less(b, a) && !Less(d, c)
    ensures StopBetween(grandparents, data, limit, a, d)
  {
    hide IsStop;
    var i :| 0 < i < |data| && IsStop(grandparents, data, limit, i) && Less(b, data[i].key) && !Less(c, data[i].key);
  }

  /** A stop up to an entry is one up to the entry before, or that entry. */
  lemma NextStop(grandparents: seq<FileMeta>, data: seq<Entry>, limit: nat, a: InternalKey, i: nat)
    requires Sorted(data) && 0 < i < |data|
    ensures StopBetween(grandparents, data, limit, a, data[i].key) <==>
      StopBetween(grandparents, data, limit, a, data[i - 1].key) || (IsStop(grandparents, data, limit, i) && Less(a, data[i].key))
  {
    hide IsStop;
    assert Less(data[i - 1].key, data[i].key);
    forall j | 0 < j < |data| && !Less(data[i].key, data[j].key)
      ensures j == i || !Less(data[i - 1].key, data[j].key)
    {
      assert j < i - 1 ==> Less(data[j].key, data[i - 1].key);
    }
  }

  lemma NoStopAtOnce(grandparents: seq<FileMeta>, data: seq<Entry>, limit: nat, a: InternalKey)
    ensures !StopBetween(grandparents, data, limit, a, a)
  {
  }

  // ----- Counting by a pointer that moves forward -----

  ghost predicate Ascending(grandparents: seq<FileMeta>) {
    forall i, j :: 0 <= i < j < |grandparents| ==> Less(grandparents[i].largest, grandparents[j].largest)
  }

  /** Exactly the first `n` grandparents end before the key. */
  ghost predicate PassedTo(grandparents: seq<FileMeta>, n: nat, key: InternalKey) {
    && n <= |grandparents|
    && (forall k :: 0 <= k < n ==> Less(grandparents[k].largest, key))
    && (n < |grandparents| ==> !Less(grandparents[n].largest, key))
  }

  lemma {:induction false} EndedConcat(x: seq<FileMeta>, y: seq<FileMeta>, a: InternalKey, b: InternalKey)
    ensures EndedBytes(x + y, a, b) == EndedBytes(x, a, b) + EndedBytes(y, a, b)
    decreases |x|
  {
    if x == [] {
      assert x + y == y;
    } else {
      assert (x + y)[1..] == x[1..] + y;
      EndedConcat(x[1..], y, a, b);
    }
  }

  lemma {:induction false} NoneEnded(x: seq<FileMeta>, a: InternalKey, b: InternalKey)
    requires forall g :: g in x ==> Less(g.largest, a) || !Less(g.largest, b)
    ensures EndedBytes(x, a, b) == 0
    decreases |x|
  {
    if x != [] {
      NoneEnded(x[1..], a, b);
    }
  }

  lemma {:induction false} AllEnded(x: seq<FileMeta>, a: InternalKey, b: InternalKey)
    requires forall g :: g in x ==> !Less(g.largest, a) && Less(g.largest, b)
    ensures EndedBytes(x, a, b) == TotalFileSize(x)
    decreases |x|
  {
    if x != [] {
      AllEnded(x[1..], a, b);
    }
  }

  lemma NotPassed(grandparents: seq<FileMeta>, n: nat, key: InternalKey, k: nat)
    requires Ascending(grandparents) && PassedTo(grandparents, n, key) && n <= k < |grandparents|
    ensures !Less(grandparents[k].largest, key)
  {
    assert k > n ==> Less(grandparents[n].largest, grandparents[k].largest);
  }

  /** The grandparents a pointer passes on its way from one key to a later one are those that end in between. */
  lemma PassedIsEnded(grandparents: seq<FileMeta>, i: nat, a: InternalKey, j: nat, b: InternalKey)
    requires Ascending(grandparents) && i <= j && PassedTo(grandparents, i, a) && PassedTo(grandparents, j, b)
    ensures TotalFileSize(grandparents[i..j]) == EndedBytes(grandparents, a, b)
  {
    hide Less, Ascending;
    var front, mid, back := grandparents[..i], grandparents[i..j], grandparents[j..];
    assert grandparents == front + (mid + back);
    EndedConcat(front, mid + back, a, b);
    EndedConcat(mid, back, a, b);
    NoneEnded(front, a, b);
    forall k | i <= k < |grandparents| ensures !Less(grandparents[k].largest, a) && (j <= k ==> !Less(grandparents[k].largest, b)) {
      NotPassed(grandparents, i, a, k);
      if j <= k {
        NotPassed(grandparents, j, b, k);
      }
    }
    AllEnded(mid, a, b);
    NoneEnded(back, a, b);
  }

  lemma {:induction false} EndedAdds(grandparents: seq<FileMeta>, a: InternalKey, b: InternalKey, c: InternalKey)
    requires !Less(b, a) && !Less(c, b)
    ensures EndedBytes(grandparents, a, b) + EndedBytes(grandparents, b, c) == EndedBytes(grandparents, a, c)
    decreases |grandparents|
  {
    if grandparents != [] {
      EndedAdds(grandparents[1..], a, b, c);
    }
  }

  lemma {:induction false} EndedIsSmaller(grandparents: seq<FileMeta>, a: InternalKey, b: InternalKey)
    ensures EndedBytes(grandparents, a, b) <= TotalFileSize(grandparents)
    ensures EndedBytes(grandparents, a, a) == 0
    decreases |grandparents|
  {
    if grandparents != [] {
      EndedIsSmaller(grandparents[1..], a, b);
    }
  }

  /** Too few grandparents to ever stop for them. */
  lemma {:induction false} FewNeverStop(grandparents: seq<FileMeta>, data: seq<Entry>, limit: nat, i: nat)
    requires TotalFileSize(grandparents) <= 10 * limit && i < |data|
    ensures LastStop(grandparents, data, limit, i) == 0
    decreases i
  {
    if i > 0 {
      FewNeverStop(grandparents, data, limit, i - 1);
      EndedIsSmaller(grandparents, data[0].key, data[i].key);
    }
  }

  lemma NoStops(grandparents: seq<FileMeta>, data: seq<Entry>, limit: nat, a: InternalKey, b: InternalKey)
    requires TotalFileSize(grandparents) <= 10 * limit
    ensures !StopBetween(grandparents, data, limit, a, b)
  {
    forall i | 0 < i < |data| ensures !IsStop(grandparents, data, limit, i) {
      FewNeverStop(grandparents, data, limit, i);
    }
  }

  /** The compaction has counted the grandparents for the first `i` entries. */
  ghost predicate Counted(c: Compaction, data: seq<Entry>, i: nat)
    reads c
  {
    && i <= |data| && (c.seenKey <==> i > 0)
    && (i == 0 ==> c.grandparentIndex == 0 && c.overlappedBytes == 0)
    && (i > 0 ==> PassedTo(c.grandparents, c.grandparentIndex, data[i - 1].key)
                  && c.overlappedBytes ==
                     EndedBytes(c.grandparents, data[LastStop(c.grandparents, data, c.maxFileSize, i - 1)].key, data[i - 1].key))
  }

  /** ShouldStopBefore, asked for each entry in turn, says yes at the stops. */
  method StopsBefore(c: Compaction, ghost data: seq<Entry>, ghost i: nat, key: InternalKey) returns (stop: bool)
    requires Sorted(data) && Ascending(c.grandparents) && Counted(c, data, i) && i < |data| && key == data[i].key
    modifies c`grandparentIndex, c`seenKey, c`overlappedBytes
    ensures Counted(c, data, i + 1) && (stop <==> IsStop(c.grandparents, data, c.maxFileSize, i))
  {
    ghost var gps, from, before := c.grandparents, c.grandparentIndex, c.overlappedBytes;
    stop := c.ShouldStopBefore(key);
    FurtherPassed(gps, from, c.grandparentIndex, data, i);
    if i > 0 {
      var last := data[LastStop(gps, data, c.maxFileSize, i - 1)].key;
      SortedKeys(data, LastStop(gps, data, c.maxFileSize, i - 1), i - 1);
      SortedKeys(data, i - 1, i);
      PassedIsEnded(gps, from, data[i - 1].key, c.grandparentIndex, key);
      EndedAdds(gps, last, data[i - 1].key, key);
    }
    EndedIsSmaller(gps, key, key);
  }

  lemma SortedKeys(data: seq<Entry>, i: nat, j: nat)
    requires Sorted(data) && i <= j < |data|
    ensures !Less(data[j].key, data[i].key)
  {
  }

  lemma FurtherPassed(grandparents: seq<FileMeta>, from: nat, to: nat, data: seq<Entry>, i: nat)
    requires Sorted(data) && i < |data| && from <= to <= |grandparents|
    requires if i == 0 then from == 0 else PassedTo(grandparents, from, data[i - 1].key)
    requires forall g :: g in grandparents[from..to] ==> Less(g.largest, data[i].key)
    requires to < |grandparents| ==> !Less(grandparents[to].largest, data[i].key)
    ensures PassedTo(grandparents, to, data[i].key)
  {
    forall k | 0 <= k < to ensures Less(grandparents[k].largest, data[i].key) {
      if k >= from {
        assert grandparents[from..to][k - from] == grandparents[k];
      } else {
        assert Less(data[i - 1].key, data[i].key);
      }
    }
  }
}
