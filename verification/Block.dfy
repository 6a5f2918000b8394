/** Building a block (table/block_builder.cc), and iterating over one and searching it (table/block.cc). */
module Blocks {
  import opened DbFormat
  import opened Coding
  import opened BlockFormat

  lemma SharedPrefix(es: seq<Pair>, more: seq<Pair>, interval: nat, i: nat)
    requires interval > 0 && es <= more && i < |es|
    ensures EntryBytes(more, interval, i) == EntryBytes(es, interval, i)
  {
    hide CommonPrefix, Encode;
    assert more[i] == es[i] && (i > 0 ==> more[i - 1] == es[i - 1]);
    assert Shared(more, interval, i) == Shared(es, interval, i);
  }

  /** Adding entries leaves the bytes of those before. */
  lemma {:induction false} DataPrefix(es: seq<Pair>, more: seq<Pair>, interval: nat, n: nat)
    requires interval > 0 && es <= more && n <= |es|
    ensures Data(more, interval, n) == Data(es, interval, n)
  {
    hide EntryBytes;
    if n > 0 {
      DataPrefix(es, more, interval, n - 1);
      SharedPrefix(es, more, interval, n - 1);
    }
  }

  class BlockBuilder {
    const interval: nat
    var buffer: Bytes
    var restarts: seq<nat>
    var counter: nat
    var finished: bool
    var lastKey: Bytes
    ghost var entries: seq<Pair>

    ghost predicate Valid()
      reads this
    {
      interval > 0 && if finished then Fits(entries, interval) && buffer == Finished(entries, interval) else Building()
    }

    ghost predicate Building()
      requires interval > 0
      reads this
    {
      var n := |entries|;
      && buffer == Data(entries, interval, n)
      && RestartsFit(restarts, entries)
      && counter == CounterAfter(n)
      && lastKey == (if n == 0 then [] else entries[n - 1].key)
    }

    /** Restart points stand at every interval-th entry. */
    ghost predicate RestartsFit(points: seq<nat>, es: seq<Pair>)
      requires interval > 0
    {
      && |points| == RestartCount(interval, |es|)
      && forall r :: 0 <= r < |points| ==> points[r] == Offset(es, interval, RestartEntry(interval, |es|, r))
    }

    /** Entries since the last restart point. */
    function CounterAfter(n: nat): nat
      requires interval > 0
    {
      if n == 0 then 0 else (n - 1) % interval + 1
    }

    constructor (interval: nat)
      requires interval > 0
      ensures Valid() && !finished && entries == [] && this.interval == interval
    {
      this.interval := interval;
      buffer, restarts, counter, finished, lastKey, entries := [], [0], 0, false, [], [];
      new;
      assert RestartEntry(interval, 0, 0) == 0;
    }

    method Reset()
      requires Valid()
      modifies this
      ensures Valid() && !finished && entries == []
    {
      buffer, restarts, counter, finished, lastKey, entries := [], [0], 0, false, [], [];
      assert RestartEntry(interval, 0, 0) == 0;
    }

    method Add(key: Bytes, value: Bytes)
      requires Valid() && !finished && |key| < TWO32 && |value| < TWO32
      modifies this
      ensures Valid() && !finished && entries == old(entries) + [Pair(key, value)]
    {
      hide CommonPrefix, Encode, Shared, EncodeVarint, Data, RestartsFit, CounterAfter;
      ghost var n := |entries|;
      ghost var more := entries + [Pair(key, value)];
      var shared := 0;
      CounterWraps(n);
      RestartsKept(more);
      if counter < interval {
        shared := SharedLength(lastKey, key);
      } else {
        restarts := restarts + [|buffer|];
        counter := 0;
      }
      SharedOfNext(more, n, shared);
      var e1 := EncodeVarint32(shared);
      var e2 := EncodeVarint32(|key| - shared);
      var e3 := EncodeVarint32(|value|);
      var delta := key[shared..];
      EncodeIs(shared, delta, value, e1, e2, e3);
      NextData(entries, more, n);
      buffer := buffer + (e1 + e2 + e3 + delta + value);
      assert buffer == Data(more, interval, n + 1);
      assert lastKey[..shared] + delta == key;
      lastKey := lastKey[..shared] + delta;
      counter := counter + 1;
      assert RestartsFit(restarts, more) && counter == CounterAfter(n + 1);
      entries := more;
    }

    /** The counter starts anew exactly where the entry's index is a multiple of the interval. */
    lemma CounterWraps(n: nat)
      requires interval > 0
      ensures CounterAfter(n + 1) == (if CounterAfter(n) < interval then CounterAfter(n) else 0) + 1
      ensures CounterAfter(n) < interval <==> n == 0 || n % interval != 0
    {
      if n > 0 {
        var q, r := (n - 1) / interval, (n - 1) % interval;
        assert n == q * interval + (r + 1);
        if r + 1 < interval {
          DivisionIsUnique(n, q, r + 1, interval);
        } else {
          assert n == (q + 1) * interval;
          DivisionIsUnique(n, q + 1, 0, interval);
        }
      }
    }

    lemma SharedOfNext(more: seq<Pair>, n: nat, shared: nat)
      requires interval > 0 && n + 1 == |more|
      requires if n > 0 && n % interval != 0 then shared == CommonPrefix(more[n - 1].key, more[n].key) else shared == 0
      ensures shared == Shared(more, interval, n)
      ensures shared <= |more[n].key| && (n > 0 ==> shared <= |more[n - 1].key| && more[n - 1].key[..shared] == more[n].key[..shared])
    {
    }

    lemma EncodeIs(shared: nat, delta: Bytes, value: Bytes, e1: Bytes, e2: Bytes, e3: Bytes)
      requires e1 == EncodeVarint(shared) && e2 == EncodeVarint(|delta|) && e3 == EncodeVarint(|value|)
      ensures Encode(shared, delta, value) == e1 + e2 + e3 + delta + value
    {
    }

    /** One more entry adds a restart point exactly when it is one. */
    lemma OldRestarts(n: nat)
      requires interval > 0
      ensures RestartCount(interval, n + 1) == RestartCount(interval, n) + (if n > 0 && n % interval == 0 then 1 else 0)
      ensures forall r :: 0 <= r < RestartCount(interval, n) ==> RestartEntry(interval, n + 1, r) == RestartEntry(interval, n, r)
      ensures n > 0 && n % interval == 0 ==> RestartEntry(interval, n + 1, RestartCount(interval, n)) == n
    {
      hide RestartEntry;
      NextCount(n);
      forall r | 0 <= r < RestartCount(interval, n) ensures RestartEntry(interval, n + 1, r) == RestartEntry(interval, n, r) {
        EntryIs(n + 1, r);
        EntryIs(n, r);
      }
      if n > 0 && n % interval == 0 {
        EntryIs(n + 1, RestartCount(interval, n));
      }
    }

    lemma EntryIs(n: nat, r: nat)
      requires interval > 0 && r < RestartCount(interval, n)
      ensures RestartEntry(interval, n, r) == r * interval
    {
      hide RestartCount;
    }

    lemma NextCount(n: nat)
      requires interval > 0
      ensures RestartCount(interval, n + 1) == RestartCount(interval, n) + (if n > 0 && n % interval == 0 then 1 else 0)
      ensures n > 0 && n % interval == 0 ==> n == RestartCount(interval, n) * interval
    {
      if n > 0 {
        var q, r := (n - 1) / interval, (n - 1) % interval;
        assert n == q * interval + (r + 1);
        if r + 1 < interval {
          DivisionIsUnique(n, q, r + 1, interval);
        } else {
          assert n == (q + 1) * interval;
          DivisionIsUnique(n, q + 1, 0, interval);
        }
      }
    }

    /** What Building says of the restart points once there is one more entry. */
    lemma RestartsKept(more: seq<Pair>)
      requires interval > 0 && Building() && |more| == |entries| + 1 && entries <= more
      ensures var n := |entries|;
        RestartsFit(if n > 0 && n % interval == 0 then restarts + [|buffer|] else restarts, more)
    {
      hide Data, RestartCount, RestartEntry, CounterAfter;
      var n := |entries|;
      OldRestarts(n);
      DataPrefix(entries, more, interval, n);
      forall r | 0 <= r < |restarts| ensures restarts[r] == Offset(more, interval, RestartEntry(interval, n + 1, r)) {
        DataPrefix(entries, more, interval, RestartEntry(interval, n, r));
      }
    }

    lemma NextData(es: seq<Pair>, more: seq<Pair>, n: nat)
      requires interval > 0 && n == |es| && n + 1 == |more| && es <= more
      ensures Data(more, interval, n + 1) == Data(es, interval, n) + EntryBytes(more, interval, n)
    {
      DataPrefix(es, more, interval, n);
    }

    /** Finish: the restart points and their number after the data. */
    method Finish() returns (contents: Bytes)
      requires Valid() && !finished && Fits(entries, interval)
      modifies this
      ensures Valid() && finished && entries == old(entries) && contents == Finished(entries, interval)
    {
      hide EncodeFixed32, Data, RestartCount, RestartEntry, Restarts, Fits;
      ghost var all := Restarts(entries, interval);
      ghost var data := buffer;
      SameRestarts();
      assert all[..0] == [];
      for i := 0 to |restarts|
        invariant buffer == data + FixedAll(all[..i])
        invariant restarts == old(restarts) && entries == old(entries) && finished == old(finished)
      {
        assert all[..i + 1][..i] == all[..i];
        buffer := buffer + EncodeFixed32(restarts[i]);
      }
      assert all[..|restarts|] == all;
      buffer := buffer + EncodeFixed32(|restarts|);
      finished := true;
      contents := buffer;
    }

    lemma SameRestarts()
      requires Valid() && !finished && Fits(entries, interval)
      ensures |restarts| == RestartCount(interval, |entries|) == |Restarts(entries, interval)| && |restarts| < TWO32
      ensures forall i :: 0 <= i < |restarts| ==> restarts[i] == Restarts(entries, interval)[i]
      ensures buffer == Data(entries, interval, |entries|)
    {
      FewRestarts(interval, |entries|);
      forall i | 0 <= i < |restarts| ensures restarts[i] == Restarts(entries, interval)[i] {
        assert restarts[i] == RestartAt(entries, interval, i);
      }
    }
  }

  /** The length of the common prefix, byte by byte. */
  method SharedLength(a: Bytes, b: Bytes) returns (shared: nat)
    ensures shared == CommonPrefix(a, b)
  {
    shared := 0;
    var minLength := if |a| < |b| then |a| else |b|;
    while shared < minLength && a[shared] == b[shared]
      invariant shared <= minLength && CommonPrefix(a, b) == shared + CommonPrefix(a[shared..], b[shared..])
    {
      assert a[shared..][1..] == a[shared + 1..] && b[shared..][1..] == b[shared + 1..];
      shared := shared + 1;
    }
  }
}
