/** Iterating over and searching a finished block (table/block.cc). */
module BlockIters {
  import opened DbFormat
  import opened Coding
  import opened BlockFormat

  type Order = (Bytes, Bytes) -> bool

  ghost predicate Transitive(less: Order) {
    forall a, b, c :: less(a, b) && less(b, c) ==> less(a, c)
  }

  ghost predicate SortedBy(less: Order, es: seq<Pair>) {
    forall i, j :: 0 <= i < j < |es| ==> less(es[i].key, es[j].key)
  }

  /** The first entry at or after `target`, or the end. */
  ghost predicate IsLowerBound(less: Order, es: seq<Pair>, target: Bytes, n: nat) {
    n <= |es| && (forall i :: 0 <= i < n ==> less(es[i].key, target)) && (n < |es| ==> !less(es[n].key, target))
  }

  /** Block::Block: where the restart array starts, unless the contents are too short for it. */
  function Open(contents: Bytes): Option<(nat, nat)> {
    if |contents| < 4 then None else
      var count: nat := DecodeFixed32(contents[|contents| - 4..]);
      if count > (|contents| - 4) / 4 then None else Some((|contents| - 4 * (1 + count), count))
  }

  /** The parts of a finished block. */
  lemma FinishedParts(es: seq<Pair>, interval: nat)
    requires Fits(es, interval)
    ensures var contents := Finished(es, interval);
      var at := Offset(es, interval, |es|);
      var count := RestartCount(interval, |es|);
      && |contents| == at + 4 * count + 4 && contents[..at] == Data(es, interval, |es|)
      && Open(contents) == Some((at, count))
  {
    hide EncodeFixed32, DecodeFixed32, Data, RestartCount, Restarts;
    FewRestarts(interval, |es|);
    var data, all, last := Data(es, interval, |es|), FixedAll(Restarts(es, interval)), EncodeFixed32(RestartCount(interval, |es|));
    FixedLength(Restarts(es, interval));
    var contents := Finished(es, interval);
    assert contents[|contents| - 4..] == last + [];
    Fixed32RoundTrip(RestartCount(interval, |es|), []);
  }

  lemma RestartReads(es: seq<Pair>, interval: nat, r: nat)
    requires Fits(es, interval) && r < RestartCount(interval, |es|)
    ensures var at := Offset(es, interval, |es|) + 4 * r;
      at + 4 <= |Finished(es, interval)| && DecodeFixed32(Finished(es, interval)[at..]) == RestartAt(es, interval, r)
  {
    hide EncodeFixed32, DecodeFixed32, Data, RestartCount, RestartAt;
    FewRestarts(interval, |es|);
    var data, restarts, last := Data(es, interval, |es|), Restarts(es, interval), EncodeFixed32(RestartCount(interval, |es|));
    FixedAt(restarts, last, r);
    assert Finished(es, interval) == data + (FixedAll(restarts) + last);
    assert (data + (FixedAll(restarts) + last))[|data| + 4 * r..] == (FixedAll(restarts) + last)[4 * r..];
  }

  /** Entry `i` of a finished block decodes to its parts. */
  lemma EntryReads(es: seq<Pair>, interval: nat, i: nat)
    requires Fits(es, interval) && i < |es|
    ensures var data := Finished(es, interval);
      var limit := Offset(es, interval, |es|);
      var shared := Shared(es, interval, i);
      var p := Offset(es, interval, i);
      && p < limit <= |data|
      && var d := DecodeEntry(data, p, limit);
         && d.Some? && d.value.shared == shared && d.value.nonShared == |es[i].key| - shared
         && d.value.valueLength == |es[i].value|
         && d.value.start + d.value.nonShared + d.value.valueLength == Offset(es, interval, i + 1) <= limit
         && data[d.value.start..d.value.start + d.value.nonShared] == es[i].key[shared..]
         && data[d.value.start + d.value.nonShared..d.value.start + d.value.nonShared + d.value.valueLength] == es[i].value
  {
    hide Encode, DecodeEntry, Finished, Data;
    var shared := Shared(es, interval, i);
    var p, q, limit := Offset(es, interval, i), Offset(es, interval, i + 1), Offset(es, interval, |es|);
    FinishedParts(es, interval);
    EntryInData(es, interval, i, |es|);
    var data := Finished(es, interval);
    SliceOfSlice(data, 0, limit, p, q);
    OffsetsGrow(es, interval, i, |es|);
    assert data[0..limit] == data[..limit];
    EntryDecodes(data, p, limit, shared, es[i].key[shared..], es[i].value);
  }

  class BlockIter {
    const less: Order
    const data: Bytes
    const restartsAt: nat
    const numRestarts: nat
    var current: nat
    var restartIndex: nat
    var key: Bytes
    var value: Bytes
    /** Where the value ends: the next entry starts there. */
    var valueEnd: nat
    ghost const entries: seq<Pair>
    ghost const interval: nat

    ghost predicate Shaped() {
      && Fits(entries, interval) && data == Finished(entries, interval) && |data| == restartsAt + 4 * numRestarts + 4
      && restartsAt == Offset(entries, interval, |entries|) && numRestarts == RestartCount(interval, |entries|)
    }

    /** At entry `i`; the restart point is at or before it, and no later one is strictly before it. */
    ghost predicate At(i: nat)
      requires Shaped()
      reads this
    {
      && i < |entries| && current == Offset(entries, interval, i) && key == entries[i].key && value == entries[i].value
      && valueEnd == Offset(entries, interval, i + 1)
      && restartIndex < numRestarts && RestartAt(entries, interval, restartIndex) <= current && CaughtUp()
    }

    ghost predicate CaughtUp()
      requires Shaped()
      reads `restartIndex, `current
    {
      restartIndex + 1 < numRestarts ==> current <= RestartAt(entries, interval, restartIndex + 1)
    }

    /** Past the ends. */
    ghost predicate Out()
      reads this
    {
      current == restartsAt && restartIndex == numRestarts
    }

    constructor (less: Order, contents: Bytes, ghost entries: seq<Pair>, ghost interval: nat)
      requires Fits(entries, interval) && contents == Finished(entries, interval)
      ensures Shaped() && Out() && this.entries == entries && this.interval == interval && this.less == less
    {
      hide Fits, Data, RestartCount;
      FinishedParts(entries, interval);
      var layout := Open(contents);
      this.less, data := less, contents;
      restartsAt, numRestarts := layout.value.0, layout.value.1;
      current, restartIndex, key, value, valueEnd := layout.value.0, layout.value.1, [], [], 0;
      this.entries, this.interval := entries, interval;
    }

    predicate Valid()
      reads this
    {
      current < restartsAt
    }

    function GetRestartPoint(r: nat): (offset: nat)
      requires restartsAt + 4 * r + 4 <= |data|
    {
      DecodeFixed32(data[restartsAt + 4 * r..])
    }

    lemma RestartPoint(r: nat)
      requires Shaped() && r < numRestarts
      ensures restartsAt + 4 * r + 4 <= |data| && GetRestartPoint(r) == RestartAt(entries, interval, r)
    {
      RestartReads(entries, interval, r);
    }

    /** `k` starts with what entry `i`'s key leaves out. */
    ghost predicate Carries(k: Bytes, i: nat)
      requires Shaped() && i < |entries|
    {
      var shared := Shared(entries, interval, i);
      shared <= |k| && k[..shared] == entries[i].key[..shared]
    }

    method SeekToRestartPoint(r: nat)
      requires Shaped() && r < numRestarts
      modifies this
      ensures key == [] && restartIndex == r && valueEnd == RestartAt(entries, interval, r) && current == old(current)
    {
      RestartPoint(r);
      key := [];
      restartIndex := r;
      valueEnd := GetRestartPoint(r);
      value := [];
    }

    /** Parse the entry at `valueEnd`, which is entry `i` if there is one. */
    method ParseNextKey(ghost i: nat) returns (ok: bool)
      requires Shaped() && i <= |entries| && valueEnd == Offset(entries, interval, i)
      requires i < |entries| ==> Carries(key, i)
      requires restartIndex < numRestarts && RestartAt(entries, interval, restartIndex) <= valueEnd
      modifies this
      ensures ok == (i < |entries|)
      ensures if ok then At(i) else Out()
    {
      hide Fits, Finished, Data, DecodeEntry, Shared, RestartCount, RestartAt;
      current := valueEnd;
      if i < |entries| {
        EntryReads(entries, interval, i);
      }
      if current >= restartsAt {
        current := restartsAt;
        restartIndex := numRestarts;
        return false;
      }
      var decoded := DecodeEntry(data, current, restartsAt);
      // Decoding fails only on a corrupt block.
      var d := decoded.value;
      ghost var e := entries[i].key;
      assert key[..d.shared] + e[d.shared..] == e;
      key := key[..d.shared] + data[d.start..d.start + d.nonShared];
      value := data[d.start + d.nonShared..d.start + d.nonShared + d.valueLength];
      valueEnd := d.start + d.nonShared + d.valueLength;
      AdvanceRestart();
      return true;
    }

    /** The loop that lets the restart index catch up, one short of a restart point just reached. */
    method AdvanceRestart()
      requires Shaped() && restartIndex < numRestarts && RestartAt(entries, interval, restartIndex) <= current
      modifies `restartIndex
      ensures restartIndex < numRestarts && RestartAt(entries, interval, restartIndex) <= current && CaughtUp()
    {
      hide Fits, Finished, Data, RestartCount, RestartAt;
      RestartPoint(restartIndex);
      if restartIndex + 1 < numRestarts {
        RestartPoint(restartIndex + 1);
      }
      while restartIndex + 1 < numRestarts && GetRestartPoint(restartIndex + 1) < current
        invariant restartIndex < numRestarts && RestartAt(entries, interval, restartIndex) <= current
        invariant restartIndex + 1 < numRestarts ==> restartsAt + 4 * (restartIndex + 1) + 4 <= |data|
        invariant restartIndex + 1 < numRestarts ==> GetRestartPoint(restartIndex + 1) == RestartAt(entries, interval, restartIndex + 1)
        decreases numRestarts - restartIndex
      {
        restartIndex := restartIndex + 1;
        if restartIndex + 1 < numRestarts {
          RestartPoint(restartIndex + 1);
        }
      }
    }

    method Next(ghost i: nat)
      requires Shaped() && At(i)
      modifies this
      ensures if i + 1 < |entries| then At(i + 1) else Out()
    {
      hide Fits, Finished, Data, CommonPrefix, RestartCount, RestartAt;
      OffsetStep(i);
      var ok := ParseNextKey(i + 1);
    }

    lemma OffsetStep(i: nat)
      requires Shaped() && i < |entries|
      ensures Offset(entries, interval, i) < Offset(entries, interval, i + 1)
      ensures i + 1 < |entries| ==> Carries(entries[i].key, i + 1)
    {
      OffsetsGrow(entries, interval, i, i + 1);
    }

    method SeekToFirst()
      requires Shaped()
      modifies this
      ensures if entries == [] then Out() else At(0)
    {
      RestartStands(0);
      SeekToRestartPoint(0);
      var ok := ParseNextKey(0);
    }

    /** A restart point stands at its entry, which leaves nothing out. */
    lemma RestartStands(r: nat)
      requires Shaped() && r < numRestarts
      ensures var i := RestartEntry(interval, |entries|, r);
        && i <= |entries| && (entries != [] ==> i < |entries|) && RestartAt(entries, interval, r) == Offset(entries, interval, i)
        && (i < |entries| ==> Shared(entries, interval, i) == 0)
        && (r == 0 ==> i == 0)
    {
      var i := RestartEntry(interval, |entries|, r);
      assert i == r * interval;
      RemainderIsUnique(i, r, 0, interval);
    }

    /** SeekToLast: from the last restart point to the end. */
    method SeekToLast()
      requires Shaped()
      modifies this
      ensures if entries == [] then Out() else At(|entries| - 1)
    {
      hide Finished, Data, CommonPrefix, RestartAt, RestartCount, Shared;
      SomeRestart();
      RestartStands(numRestarts - 1);
      SeekToRestartPoint(numRestarts - 1);
      ghost var i := RestartEntry(interval, |entries|, numRestarts - 1);
      var ok := ParseNextKey(i);
      while ok && valueEnd < restartsAt
        invariant ok == (entries != [])
        invariant if ok then At(i) else Out()
        decreases |entries| - i
      {
        OffsetStep(i);
        LastEndsData(i);
        ok := ParseNextKey(i + 1);
        i := i + 1;
      }
      if ok {
        LastEndsData(i);
      }
    }

    lemma SomeRestart()
      requires Shaped()
      ensures numRestarts > 0
    {
    }

    lemma LastEndsData(i: nat)
      requires Shaped() && i < |entries|
      ensures Offset(entries, interval, i + 1) < restartsAt <==> i + 1 < |entries|
    {
      if i + 1 < |entries| {
        OffsetsGrow(entries, interval, i + 1, |entries|);
      }
    }

    /** Prev: back to a restart point strictly before, then forward to the entry just before. */
    method Prev(ghost i: nat)
      requires Shaped() && At(i)
      modifies this
      ensures if i > 0 then At(i - 1) else Out()
    {
      hide Finished, Data, CommonPrefix, RestartAt, RestartCount, Shared;
      var original := current;
      RestartPoint(restartIndex);
      while GetRestartPoint(restartIndex) >= original
        invariant restartIndex < numRestarts && restartsAt + 4 * restartIndex + 4 <= |data|
        invariant GetRestartPoint(restartIndex) == RestartAt(entries, interval, restartIndex)
        invariant current == old(current)
        decreases restartIndex
      {
        if restartIndex == 0 {
          FirstRestart(i);
          current := restartsAt;
          restartIndex := numRestarts;
          return;
        }
        restartIndex := restartIndex - 1;
        RestartPoint(restartIndex);
      }
      RestartStands(restartIndex);
      ghost var j := RestartEntry(interval, |entries|, restartIndex);
      Before(j, i);
      SeekToRestartPoint(restartIndex);
      var ok := ParseNextKey(j);
      while ok && valueEnd < original
        invariant ok && j < i && At(j)
        decreases i - j
      {
        OffsetStep(j);
        Before(j + 1, i);
        ok := ParseNextKey(j + 1);
        j := j + 1;
      }
      if j + 1 < i {
        OffsetsGrow(entries, interval, j + 1, i);
      }
    }

    lemma AtIsValid(i: nat)
      requires Shaped() && At(i)
      ensures Valid()
    {
      OffsetsGrow(entries, interval, i, |entries|);
    }

    lemma FirstRestart(i: nat)
      requires Shaped() && i < |entries| && RestartAt(entries, interval, 0) >= Offset(entries, interval, i)
      ensures i == 0
    {
      RestartStands(0);
      Before(0, i);
    }

    lemma Before(j: nat, i: nat)
      requires Shaped() && j <= |entries| && i < |entries|
      ensures Offset(entries, interval, j) < Offset(entries, interval, i) <==> j < i
    {
      if j < i {
        OffsetsGrow(entries, interval, j, i);
      } else if i < j {
        OffsetsGrow(entries, interval, i, j);
      }
    }

    /** The key at a restart point, read where it stands. */
    lemma RestartKey(r: nat)
      requires Shaped() && r < numRestarts && entries != []
      ensures restartsAt + 4 * r + 4 <= |data| && GetRestartPoint(r) <= restartsAt
      ensures var i := RestartEntry(interval, |entries|, r);
        var d := DecodeEntry(data, GetRestartPoint(r), restartsAt);
        && i < |entries|
        && d.Some? && d.value.shared == 0 && d.value.start + d.value.nonShared <= |data|
        && data[d.value.start..d.value.start + d.value.nonShared] == entries[i].key
    {
      hide Finished, Data, DecodeEntry, RestartCount;
      RestartPoint(r);
      RestartStands(r);
      var i := RestartEntry(interval, |entries|, r);
      EntryReads(entries, interval, i);
      assert entries[i].key[0..] == entries[i].key;
    }

    /** The binary search of Seek: the last restart point whose key is before the target, or the first one. */
    method LastRestartBefore(target: Bytes) returns (left: nat)
      requires Shaped() && Transitive(less) && SortedBy(less, entries)
      ensures left < numRestarts && (left > 0 ==> entries != [] && KeyBefore(left, target))
      ensures left + 1 < numRestarts ==> entries != [] && !KeyBefore(left + 1, target)
    {
      hide Finished, Data, CommonPrefix, RestartAt, RestartCount, Shared, Transitive, SortedBy, DecodeEntry, RestartEntry;
      SomeRestart();
      var right: nat;
      left, right := 0, numRestarts - 1;
      while left < right
        invariant left <= right < numRestarts
        invariant left > 0 ==> entries != [] && KeyBefore(left, target)
        invariant right + 1 < numRestarts ==> entries != [] && !KeyBefore(right + 1, target)
        decreases right - left
      {
        var mid := (left + right + 1) / 2;
        SeveralRestarts();
        RestartPoint(mid);
        RestartKey(mid);
        var decoded := DecodeEntry(data, GetRestartPoint(mid), restartsAt);
        var midKey := data[decoded.value.start..decoded.value.start + decoded.value.nonShared];
        if less(midKey, target) {
          left := mid;
        } else {
          right := mid - 1;
        }
      }
    }

    /** Seek: binary search for the last restart point before the target, then linearly to the first entry at or after it. */
    method Seek(target: Bytes) returns (ghost n: nat)
      requires Shaped() && Transitive(less) && SortedBy(less, entries)
      modifies this
      ensures IsLowerBound(less, entries, target, n) && if n < |entries| then At(n) else Out()
    {
      hide Finished, Data, CommonPrefix, RestartAt, RestartCount, Shared, Transitive, SortedBy, DecodeEntry;
      var left := LastRestartBefore(target);
      RestartStands(left);
      n := RestartEntry(interval, |entries|, left);
      SeekToRestartPoint(left);
      EarlierAreLess(left, target);
      var ok := ParseNextKey(n);
      while ok && less(key, target)
        invariant n <= |entries| && ok == (n < |entries|) && (if ok then At(n) else Out())
        invariant forall i :: 0 <= i < n ==> less(entries[i].key, target)
        decreases |entries| - n
      {
        OffsetStep(n);
        ok := ParseNextKey(n + 1);
        n := n + 1;
      }
    }

    ghost predicate KeyBefore(r: nat, target: Bytes)
      requires Shaped() && r < numRestarts && entries != []
    {
      less(entries[RestartEntry(interval, |entries|, r)].key, target)
    }

    lemma SeveralRestarts()
      requires Shaped()
      ensures numRestarts > 1 ==> entries != []
    {
    }

    lemma EarlierAreLess(left: nat, target: Bytes)
      requires Shaped() && left < numRestarts && Transitive(less) && SortedBy(less, entries)
      requires left > 0 ==> entries != [] && KeyBefore(left, target)
      ensures forall i :: 0 <= i < RestartEntry(interval, |entries|, left) ==> i < |entries| && less(entries[i].key, target)
    {
      RestartStands(left);
      var n := RestartEntry(interval, |entries|, left);
      forall i | 0 <= i < n ensures i < |entries| && less(entries[i].key, target) {
        assert less(entries[i].key, entries[n].key);
      }
    }
  }

  /** Reading a finished block from the front gives back what was added. */
  method Scan(less: Order, contents: Bytes, ghost entries: seq<Pair>, ghost interval: nat) returns (pairs: seq<Pair>)
    requires Fits(entries, interval) && contents == Finished(entries, interval)
    ensures pairs == entries
  {
    hide Fits, Finished, Data, RestartCount;
    var iter := new BlockIter(less, contents, entries, interval);
    iter.SeekToFirst();
    pairs := [];
    ghost var i := 0;
    while iter.Valid()
      invariant i <= |entries| && pairs == entries[..i] && iter.Shaped()
      invariant iter.entries == entries && iter.interval == interval
      invariant if i < |entries| then iter.At(i) else iter.Out()
      decreases |entries| - i
    {
      pairs := pairs + [Pair(iter.key, iter.value)];
      iter.Next(i);
      i := i + 1;
    }
    if i < |entries| {
      iter.AtIsValid(i);
    }
  }
}
