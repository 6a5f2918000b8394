/** The user-facing iterator: the live keys at a sequence number, in order (db/db_iter.cc). */
module DbIterators {
  import opened DbFormat
  import opened Reads
  import opened Cursors
  import M = Mergers

  ghost predicate Live(data: seq<Entry>, s: SequenceNumber, k: UserKey) {
    Read(ToSet(data), k, s).Some?
  }

  datatype Floor = Lowest | FromKey(key: UserKey) | BeyondKey(key: UserKey)

  predicate AtLeast(b: Floor, k: UserKey) {
    match b
    case Lowest => true
    case FromKey(t) => t <= k
    case BeyondKey(t) => t < k
  }

  datatype Ceiling = Highest | BelowKey(key: UserKey)

  predicate AtMost(b: Ceiling, k: UserKey) {
    match b
    case Highest => true
    case BelowKey(t) => k < t
  }

  /** `r` is the least live key above the floor, if there is one. */
  ghost predicate LeastLive(data: seq<Entry>, s: SequenceNumber, b: Floor, r: Option<UserKey>) {
    if r.Some? then Live(data, s, r.value) && AtLeast(b, r.value) && forall k :: Live(data, s, k) && AtLeast(b, k) ==> r.value <= k
    else forall k :: Live(data, s, k) ==> !AtLeast(b, k)
  }

  ghost predicate GreatestLive(data: seq<Entry>, s: SequenceNumber, b: Ceiling, r: Option<UserKey>) {
    if r.Some? then Live(data, s, r.value) && AtMost(b, r.value) && forall k :: Live(data, s, k) && AtMost(b, k) ==> k <= r.value
    else forall k :: Live(data, s, k) ==> !AtMost(b, k)
  }

  ghost predicate SeenAt(data: seq<Entry>, s: SequenceNumber, j: int) {
    0 <= j < |data| && data[j].key.sequence <= s
  }

  lemma UsersAscend(data: seq<Entry>, i: int, j: int)
    requires Sorted(data) && 0 <= i <= j < |data|
    ensures data[i].key.user <= data[j].key.user
  {
    assert i < j ==> Less(data[i].key, data[j].key);
  }

  /** The first visible entry of a user key is its newest. */
  lemma FirstSeenIsNewest(data: seq<Entry>, s: SequenceNumber, i: int)
    requires Sorted(data) && SeqUnique(ToSet(data)) && SeenAt(data, s, i)
    requires forall j {:trigger SeenAt(data, s, j)} :: 0 <= j < i && SeenAt(data, s, j) ==> data[j].key.user != data[i].key.user
    ensures Newest(ToSet(data), data[i].key.user, s, data[i])
    ensures Read(ToSet(data), data[i].key.user, s) == ValueOf(data[i])
  {
    var u := data[i].key.user;
    forall f | f in ToSet(data) && Visible(f, u, s) ensures f.key.sequence <= data[i].key.sequence {
      var j :| 0 <= j < |data| && data[j] == f;
      assert SeenAt(data, s, j);
      if i < j {
        assert Less(data[i].key, data[j].key);
      }
    }
    ReadIsNewest(ToSet(data), u, s, data[i]);
  }

  /** A live key has a visible entry, and its first one is a value. */
  lemma LiveHasValue(data: seq<Entry>, s: SequenceNumber, k: UserKey) returns (j: nat)
    requires Sorted(data) && SeqUnique(ToSet(data)) && Live(data, s, k)
    ensures SeenAt(data, s, j) && data[j].key.user == k && data[j].key.kind.Put?
    ensures forall i {:trigger SeenAt(data, s, i)} :: SeenAt(data, s, i) && data[i].key.user == k ==> j <= i
  {
    if NoneVisible(ToSet(data), k, s) {
      ReadOfNothing(ToSet(data), k, s);
    }
    var e := NewestExists(ToSet(data), k, s);
    ReadIsNewest(ToSet(data), k, s, e);
    j :| 0 <= j < |data| && data[j] == e;
    forall i | SeenAt(data, s, i) && data[i].key.user == k ensures j <= i {
      assert data[i] in ToSet(data) && Visible(data[i], k, s);
    }
  }

  // ----- Scanning forward -----

  /** What FindNextUserEntry knows at position i: keys up to `skip` are settled, and every live key above
      the floor is still ahead. */
  ghost predicate Scanning(data: seq<Entry>, s: SequenceNumber, b: Floor, i: int, skip: Option<UserKey>) {
    && 0 <= i < |data|
    && (forall k :: Live(data, s, k) && AtLeast(b, k) ==> Ahead(data, s, i, k) && (skip.Some? ==> skip.value < k))
    && (forall j {:trigger SeenAt(data, s, j)} :: j < i && SeenAt(data, s, j) && data[j].key.user == data[i].key.user ==>
          skip.Some? && data[i].key.user <= skip.value)
    && (forall j {:trigger SeenAt(data, s, j)} :: i <= j && SeenAt(data, s, j) ==>
          (skip.Some? && data[j].key.user <= skip.value) || AtLeast(b, data[j].key.user))
    && (skip.Some? ==> forall j {:trigger SeenAt(data, s, j)} :: i <= j && SeenAt(data, s, j) ==> skip.value <= data[j].key.user)
  }

  /** No visible entry of `k` lies before i. */
  ghost predicate Ahead(data: seq<Entry>, s: SequenceNumber, i: int, k: UserKey) {
    forall j {:trigger SeenAt(data, s, j)} :: j < i && SeenAt(data, s, j) ==> data[j].key.user != k
  }

  /** The skip key after an entry has been passed over. */
  function SkipPast(e: Entry, s: SequenceNumber, skip: Option<UserKey>): Option<UserKey> {
    if e.key.sequence <= s && e.key.kind.Deletion? then Some(e.key.user) else skip
  }

  function SkipAfter(data: seq<Entry>, s: SequenceNumber, i: nat, skip: Option<UserKey>): Option<UserKey>
    requires i < |data|
  {
    SkipPast(data[i], s, skip)
  }

  /** A visible value whose key is not skipped. */
  predicate Takes(e: Entry, s: SequenceNumber, skip: Option<UserKey>) {
    && e.key.sequence <= s && e.key.kind.Put?
    && !(skip.Some? && e.key.user <= skip.value)
  }

  predicate Accepts(data: seq<Entry>, s: SequenceNumber, i: nat, skip: Option<UserKey>)
    requires i < |data|
  {
    Takes(data[i], s, skip)
  }

  lemma ScanFinds(data: seq<Entry>, s: SequenceNumber, b: Floor, i: nat, skip: Option<UserKey>)
    requires Sorted(data) && SeqUnique(ToSet(data)) && Scanning(data, s, b, i, skip) && Accepts(data, s, i, skip)
    ensures LeastLive(data, s, b, Some(data[i].key.user))
    ensures Newest(ToSet(data), data[i].key.user, s, data[i])
  {
    assert SeenAt(data, s, i);
    FirstSeenIsNewest(data, s, i);
    forall k | Live(data, s, k) && AtLeast(b, k) ensures data[i].key.user <= k {
      var j := LiveHasValue(data, s, k);
      assert i <= j;
      UsersAscend(data, i, j);
    }
  }

  lemma ScanPasses(data: seq<Entry>, s: SequenceNumber, b: Floor, i: nat, skip: Option<UserKey>)
    requires Sorted(data) && SeqUnique(ToSet(data)) && Scanning(data, s, b, i, skip) && !Accepts(data, s, i, skip)
    ensures i + 1 < |data| ==> Scanning(data, s, b, i + 1, SkipAfter(data, s, i, skip))
    ensures i + 1 == |data| ==> LeastLive(data, s, b, None)
  {
    hide Read, Newest, SeqUnique, ToSet, Sorted;
    forall k | Live(data, s, k) && AtLeast(b, k)
      ensures Ahead(data, s, i + 1, k) && (SkipAfter(data, s, i, skip).Some? ==> SkipAfter(data, s, i, skip).value < k)
      ensures i + 1 < |data|
    {
      LiveKeyStaysAhead(data, s, b, i, skip, k);
    }
    if i + 1 < |data| {
      var next := SkipAfter(data, s, i, skip);
      UsersAscend(data, i, i + 1);
      forall j | SeenAt(data, s, j) && j < i + 1 && data[j].key.user == data[i + 1].key.user
        ensures next.Some? && data[i + 1].key.user <= next.value
      {
        UsersAscend(data, j, i);
        assert j == i || (skip.Some? && data[i].key.user <= skip.value);
      }
      forall j | SeenAt(data, s, j) && i + 1 <= j
        ensures (next.Some? && data[j].key.user <= next.value) || AtLeast(b, data[j].key.user)
        ensures next.Some? ==> next.value <= data[j].key.user
      {
        UsersAscend(data, i, j);
        assert data[i].key.sequence <= s ==> SeenAt(data, s, i);
      }
    }
  }

  lemma LiveKeyStaysAhead(data: seq<Entry>, s: SequenceNumber, b: Floor, i: nat, skip: Option<UserKey>, k: UserKey)
    requires Sorted(data) && SeqUnique(ToSet(data)) && Scanning(data, s, b, i, skip) && !Accepts(data, s, i, skip)
    requires Live(data, s, k) && AtLeast(b, k)
    ensures Ahead(data, s, i + 1, k)
    ensures SkipAfter(data, s, i, skip).Some? ==> SkipAfter(data, s, i, skip).value < k
    ensures i + 1 < |data|
  {
    hide Read, Newest, SeqUnique, ToSet, Sorted;
    assert Ahead(data, s, i, k) && (skip.Some? ==> skip.value < k);
    var j := LiveHasValue(data, s, k);
    assert i <= j;
    UsersAscend(data, i, j);
    if SeenAt(data, s, i) && data[i].key.user == k {
      FirstSeenIsNewest(data, s, i);
    }
  }

  // ----- Scanning backward -----

  /** What FindPrevUserEntry knows with positions after i scanned: every live key under the ceiling has
      a visible entry still to come, except the one whose newest entry so far is at `m`. */
  ghost predicate Backing(data: seq<Entry>, s: SequenceNumber, b: Ceiling, i: int, m: Option<nat>) {
    && -1 <= i < |data|
    && (forall j :: 0 <= j <= i ==> AtMost(b, data[j].key.user))
    && (forall k :: Live(data, s, k) && AtMost(b, k) ==> Pending(data, m, k) || ToCome(data, s, i, k))
    && (m.Some? ==>
          && i < m.value < |data| && SeenAt(data, s, m.value) && data[m.value].key.kind.Put?
          && AtMost(b, data[m.value].key.user)
          && forall j {:trigger SeenAt(data, s, j)} :: i < j < m.value ==> !SeenAt(data, s, j))
  }

  ghost predicate Pending(data: seq<Entry>, m: Option<nat>, k: UserKey) {
    m.Some? && m.value < |data| && data[m.value].key.user == k
  }

  ghost predicate ToCome(data: seq<Entry>, s: SequenceNumber, i: int, k: UserKey) {
    exists j {:trigger SeenAt(data, s, j)} :: j <= i && SeenAt(data, s, j) && data[j].key.user == k
  }

  /** The entry at i closes the pending key: it is visible and belongs to an earlier user key. */
  predicate Closes(data: seq<Entry>, s: SequenceNumber, i: nat, m: Option<nat>)
    requires i < |data|
  {
    data[i].key.sequence <= s && m.Some? && m.value < |data| && data[i].key.user < data[m.value].key.user
  }

  function PendingAfter(data: seq<Entry>, s: SequenceNumber, i: nat, m: Option<nat>): Option<nat>
    requires i < |data|
  {
    if data[i].key.sequence > s then m else if data[i].key.kind.Put? then Some(i) else None
  }

  lemma BackPasses(data: seq<Entry>, s: SequenceNumber, b: Ceiling, i: nat, m: Option<nat>)
    requires Sorted(data) && SeqUnique(ToSet(data)) && Backing(data, s, b, i, m) && !Closes(data, s, i, m)
    ensures Backing(data, s, b, i - 1, PendingAfter(data, s, i, m))
  {
    var n := PendingAfter(data, s, i, m);
    if m.Some? {
      UsersAscend(data, i, m.value);
    }
    forall k | Live(data, s, k) && AtMost(b, k) ensures Pending(data, n, k) || ToCome(data, s, i - 1, k) {
      var j := LiveHasValue(data, s, k);
      if j <= i - 1 {
      } else if ToCome(data, s, i, k) {
        assert j == i;
        assert SeenAt(data, s, i);
      } else {
        assert Pending(data, m, k);
        assert !SeenAt(data, s, i);
      }
    }
    assert SeenAt(data, s, i) <==> data[i].key.sequence <= s;
  }

  /** When the scan stops, the pending key is the greatest live one, and only invisible entries lie
      between the stopping point and its entries. */
  lemma BackFinds(data: seq<Entry>, s: SequenceNumber, b: Ceiling, i: int, m: Option<nat>)
    requires Sorted(data) && SeqUnique(ToSet(data)) && Backing(data, s, b, i, m)
    requires i == -1 || Closes(data, s, i, m)
    ensures m.None? ==> GreatestLive(data, s, b, None)
    ensures m.Some? ==>
              var e := data[m.value];
              && GreatestLive(data, s, b, Some(e.key.user))
              && Read(ToSet(data), e.key.user, s) == Some(e.value)
              && JustBefore(data, s, i, e.key.user)
  {
    if m.None? {
      assert forall k :: Live(data, s, k) && AtMost(b, k) ==> ToCome(data, s, i, k);
    } else {
      var u := data[m.value].key.user;
      forall j | SeenAt(data, s, j) ensures j < m.value ==> data[j].key.user < u {
        if j <= i {
          UsersAscend(data, j, i);
        }
      }
      FirstSeenIsNewest(data, s, m.value);
      forall k | Live(data, s, k) && AtMost(b, k) ensures k <= u {
        if !Pending(data, m, k) {
          assert ToCome(data, s, i, k);
          var j :| j <= i && SeenAt(data, s, j) && data[j].key.user == k;
          UsersAscend(data, j, i);
        }
      }
      forall j | SeenAt(data, s, j) && data[j].key.user < u ensures j <= i {
        if m.value <= j {
          UsersAscend(data, m.value, j);
        }
      }
    }
  }

  /** Position i lies before the entries of `k`, with nothing visible in between. */
  ghost predicate JustBefore(data: seq<Entry>, s: SequenceNumber, i: int, k: UserKey) {
    && -1 <= i < |data| && (0 <= i ==> data[i].key.user < k)
    && forall j {:trigger SeenAt(data, s, j)} :: SeenAt(data, s, j) && data[j].key.user < k ==> j <= i
  }


  class DbIter {
    const sequence: SequenceNumber
    /** The entries of the internal iterator; it never changes which. */
    ghost const data: seq<Entry>
    /** iter_ */
    const inner: M.MergingIterator
    var savedKey: Option<UserKey>
    var savedValue: Value
    var direction: M.Direction
    var valid: bool

    constructor (inner: M.MergingIterator, sequence: SequenceNumber)
      requires inner.Inv() && SeqUnique(ToSet(inner.merged))
      ensures Inv() && data == inner.merged && this.sequence == sequence && !valid && this.inner == inner
    {
      this.inner, this.sequence, data := inner, sequence, inner.merged;
      savedKey, savedValue, direction, valid := None, "", M.Forward, false;
    }

    ghost predicate Inv()
      reads this, inner
    {
      && inner.Inv() && inner.merged == data && SeqUnique(ToSet(data))
      && (valid ==> Standing())
    }

    /** The internal iterator as the one cursor over all entries that it stands for. */
    ghost function Iter(): (c: Cursor)
      requires inner.Inv()
      reads inner
      ensures c.Ok() && c.data == inner.merged
    {
      inner.View()
    }

    ghost function Index(): int
      requires inner.Inv()
      reads inner
    {
      if Iter().pos.Some? then Iter().pos.value else -1
    }

    /** How the state represents the current key and value, by direction. */
    ghost predicate Standing()
      requires inner.Inv()
      reads this, inner
    {
      if direction.Forward? then
        Iter().Valid() && Newest(ToSet(data), Iter().Key().user, sequence, Iter().Entry()) && Iter().Key().kind.Put?
      else
        savedKey.Some? && Read(ToSet(data), savedKey.value, sequence) == Some(savedValue)
        && JustBefore(data, sequence, Index(), savedKey.value)
    }

    /** key() */
    function Key(): UserKey
      requires Inv() && valid
      reads this, inner
    {
      if direction.Forward? then inner.Entry().key.user else savedKey.value
    }

    /** value() */
    function CurrentValue(): Value
      requires Inv() && valid
      reads this, inner
    {
      if direction.Forward? then inner.Entry().value else savedValue
    }

    /** The key the iterator stands on; None if it is not valid. */
    ghost function Current(): Option<UserKey>
      requires Inv()
      reads this, inner
    {
      if valid then Some(Key()) else None
    }

    /** What a caller sees: at a live key, the value is the one a Get at this sequence number reads. */
    lemma ValueIsRead()
      requires Inv() && valid
      ensures Read(ToSet(data), Key(), sequence) == Some(CurrentValue())
    {
      if direction.Forward? {
        ReadIsNewest(ToSet(data), Iter().Key().user, sequence, Iter().Entry());
      }
    }

    method FindNextUserEntry(skipping: Option<UserKey>, ghost b: Floor)
      requires inner.Inv() && inner.merged == data && SeqUnique(ToSet(data)) && direction.Forward?
      requires inner.IsValid() && Scanning(data, sequence, b, Iter().pos.value, skipping)
      modifies inner, this`savedKey, this`valid
      ensures Inv() && LeastLive(data, sequence, b, Current())
    {
      hide Scanning, Read, Newest, SeqUnique, Sorted, ToSet, LeastLive, M.MergingIterator.Inv, M.MergingIterator.View;
      var skip := skipping;
      while inner.IsValid()
        invariant inner.Inv() && inner.merged == data && direction.Forward?
        invariant if inner.IsValid() then Scanning(data, sequence, b, Iter().pos.value, skip)
                  else LeastLive(data, sequence, b, None)
        decreases |data| - (if inner.IsValid() then Iter().pos.value else |data|)
      {
        ghost var i := Iter().pos.value;
        var e := inner.Entry();
        if Takes(e, sequence, skip) {
          ScanFinds(data, sequence, b, i, skip);
          valid := true;
          savedKey := None;
          return;
        }
        ScanPasses(data, sequence, b, i, skip);
        skip := SkipPast(e, sequence, skip);
        inner.Next();
      }
      savedKey := None;
      valid := false;
    }

    method FindPrevUserEntry(ghost b: Ceiling)
      requires inner.Inv() && inner.merged == data && SeqUnique(ToSet(data)) && direction.Reverse?
      requires Backing(data, sequence, b, Index(), None)
      modifies inner, this`savedKey, this`savedValue, this`valid, this`direction
      ensures Inv() && GreatestLive(data, sequence, b, Current())
    {
      hide Backing, Read, Newest, SeqUnique, Sorted, ToSet, GreatestLive, JustBefore, M.MergingIterator.Inv, M.MergingIterator.View;
      var valueType := Deletion;
      ghost var m: Option<nat> := None;
      while inner.IsValid()
        invariant inner.Inv() && inner.merged == data && direction.Reverse?
        invariant Backing(data, sequence, b, Index(), m)
        invariant valueType.Put? <==> m.Some?
        invariant m.Some? ==> m.value < |data| && savedKey == Some(data[m.value].key.user) && savedValue == data[m.value].value
        decreases Index() + 1
      {
        ghost var i := Iter().pos.value;
        var e := inner.Entry();
        if e.key.sequence <= sequence {
          if valueType.Put? && e.key.user < savedKey.value {
            break;
          }
          valueType := e.key.kind;
          if valueType.Deletion? {
            savedKey, savedValue := None, "";
          } else {
            savedKey, savedValue := Some(e.key.user), e.value;
          }
        }
        BackPasses(data, sequence, b, i, m);
        m := PendingAfter(data, sequence, i, m);
        inner.Prev();
      }
      BackFinds(data, sequence, b, Index(), m);
      if valueType.Deletion? {
        valid := false;
        savedKey, savedValue := None, "";
        direction := M.Forward;
      } else {
        valid := true;
      }
    }

    /** Move to the least live key after the current one. */
    method Next()
      requires Inv() && valid
      modifies inner, this`savedKey, this`valid, this`direction
      ensures Inv() && LeastLive(data, sequence, BeyondKey(old(Key())), Current())
    {
      hide Read, SeqUnique, ToSet, LeastLive, Scanning;
      ghost var k := Key();
      if direction == M.Reverse {
        direction := M.Forward;
        EntriesAhead(data, sequence, Index(), savedKey.value);
        if !inner.IsValid() {
          inner.SeekToFirst();
        } else {
          inner.Next();
        }
        ScanAfterTurn(data, sequence, Iter().pos.value, savedKey.value);
      } else {
        savedKey := Some(inner.Entry().key.user);
        ScanFromCurrent(data, sequence, Iter().pos.value);
      }
      FindNextUserEntry(savedKey, BeyondKey(k));
    }

    /** Move to the greatest live key before the current one. */
    method Prev()
      requires Inv() && valid
      modifies inner, this`savedKey, this`savedValue, this`valid, this`direction
      ensures Inv() && GreatestLive(data, sequence, BelowKey(old(Key())), Current())
    {
      hide Read, SeqUnique, ToSet, GreatestLive, Backing, JustBefore, M.MergingIterator.Inv, M.MergingIterator.View;
      ghost var k := Key();
      if direction == M.Forward {
        savedKey := Some(inner.Entry().key.user);
        ghost var start := Iter().pos.value;
        while true
          invariant inner.Inv() && inner.merged == data && inner.IsValid() && Iter().pos.value <= start
          invariant inner.Entry().key.user == k && savedKey == Some(k)
          decreases Iter().pos.value
        {
          ghost var i := Iter().pos.value;
          inner.Prev();
          if !inner.IsValid() {
            NothingBelow(data, sequence, k);
            valid := false;
            savedKey, savedValue := None, "";
            return;
          }
          UsersAscend(data, i - 1, i);
          if inner.Entry().key.user < savedKey.value {
            break;
          }
        }
        LastBelow(data, sequence, Iter().pos.value, k);
        direction := M.Reverse;
      }
      BackFromBefore(data, sequence, Index(), k);
      FindPrevUserEntry(BelowKey(k));
    }

    /** Move to the least live key at or after the target. */
    method Seek(target: UserKey)
      requires Inv()
      modifies inner, this`savedKey, this`savedValue, this`valid, this`direction
      ensures Inv() && LeastLive(data, sequence, FromKey(target), Current())
    {
      hide Read, SeqUnique, ToSet;
      direction := M.Forward;
      savedKey, savedValue := None, "";
      inner.Seek(LookupKey(target, sequence));
      ScanFromSeek(data, sequence, target);
      if inner.IsValid() {
        FindNextUserEntry(None, FromKey(target));
      } else {
        valid := false;
      }
    }

    method SeekToFirst()
      requires Inv()
      modifies inner, this`savedKey, this`savedValue, this`valid, this`direction
      ensures Inv() && LeastLive(data, sequence, Lowest, Current())
    {
      hide Read, SeqUnique, ToSet;
      direction := M.Forward;
      savedValue := "";
      inner.SeekToFirst();
      if inner.IsValid() {
        FindNextUserEntry(None, Lowest);
      } else {
        valid := false;
        NothingInEmpty(data, sequence);
      }
    }

    method SeekToLast()
      requires Inv()
      modifies inner, this`savedKey, this`savedValue, this`valid, this`direction
      ensures Inv() && GreatestLive(data, sequence, Highest, Current())
    {
      hide Read, SeqUnique, ToSet;
      direction := M.Reverse;
      savedValue := "";
      inner.SeekToLast();
      BackFromLast(data, sequence);
      FindPrevUserEntry(Highest);
    }

    /** The cursor over the live entries that this iterator stands for. */
    ghost function View(): Cursor
      requires Inv()
      reads this, inner
    {
      var live := LiveEntries(data, ToSet(data), sequence);
      Cursor(live, PositionOf(live, Current()))
    }

    /** Any run of calls, with any changes of direction, ends where the same run of calls on a cursor over
        the sorted live entries ends. */
    method Perform(ops: seq<Op>)
      requires Inv() && LegalRun(View(), UserOps(ops))
      modifies inner, this`savedKey, this`savedValue, this`valid, this`direction
      ensures Inv() && View() == ApplyAll(old(View()), UserOps(ops))
    {
      hide Read, Sorted, SeqUnique, ToSet, LiveEntries, LeastLive, GreatestLive, Standing;
      ghost var goal := ApplyAll(View(), UserOps(ops));
      for i := 0 to |ops|
        invariant Inv() && LegalRun(View(), UserOps(ops)[i..]) && ApplyAll(View(), UserOps(ops)[i..]) == goal
      {
        assert UserOps(ops)[i..][0] == UserOp(ops[i]) && UserOps(ops)[i..][1..] == UserOps(ops)[i + 1..];
        ghost var before := Current();
        LiveInOrder(data, sequence);
        match ops[i]
        case SeekToFirst =>
          SeekToFirst();
          EndPositions(data, sequence, 0.0, Current());
        case SeekToLast =>
          SeekToLast();
          EndPositions(data, sequence, 0.0, Current());
        case Seek(target) =>
          Seek(target.user);
          EndPositions(data, sequence, target.user, Current());
        case Next =>
          CurrentIsLive();
          Next();
          NextPosition(data, sequence, before.value, Current());
        case Prev =>
          CurrentIsLive();
          Prev();
          PrevPosition(data, sequence, before.value, Current());
      }
    }

    lemma CurrentIsLive()
      requires Inv() && valid
      ensures Live(data, sequence, Key())
    {
      ValueIsRead();
    }
  }

  /** A user seeks to a user key: the same place as its internal key with the greatest tag. */
  function UserOp(op: Op): Op {
    if op.Seek? then Op.Seek(LookupKey(op.target.user, MAX_SEQUENCE)) else op
  }

  function UserOps(ops: seq<Op>): (r: seq<Op>)
    ensures |r| == |ops| && forall i :: 0 <= i < |ops| ==> r[i] == UserOp(ops[i])
  {
    seq(|ops|, i requires 0 <= i < |ops| => UserOp(ops[i]))
  }

  // ----- The live entries as one sorted sequence -----

  ghost predicate IsLiveEntry(all: set<Entry>, s: SequenceNumber, e: Entry) {
    Newest(all, e.key.user, s, e) && e.key.kind.Put?
  }

  /** The map the user iterates over: for each live key, the entry a Get would find, in key order. */
  ghost function LiveEntries(data: seq<Entry>, all: set<Entry>, s: SequenceNumber): seq<Entry> {
    if data == [] then [] else
      var n := |data| - 1;
      LiveEntries(data[..n], all, s) + (if IsLiveEntry(all, s, data[n]) then [data[n]] else [])
  }

  lemma {:induction false} LiveMembers(data: seq<Entry>, all: set<Entry>, s: SequenceNumber)
    ensures forall e :: e in LiveEntries(data, all, s) <==> e in data && IsLiveEntry(all, s, e)
    decreases data
  {
    if data != [] {
      var n := |data| - 1;
      assert data == data[..n] + [data[n]];
      LiveMembers(data[..n], all, s);
    }
  }

  lemma {:induction false} LiveSorted(data: seq<Entry>, all: set<Entry>, s: SequenceNumber)
    requires Sorted(data)
    ensures Sorted(LiveEntries(data, all, s))
    decreases data
  {
    if data != [] {
      var n := |data| - 1;
      LiveSorted(data[..n], all, s);
      LiveMembers(data[..n], all, s);
      var live := LiveEntries(data[..n], all, s);
      forall i | 0 <= i < |live| ensures Less(live[i].key, data[n].key) {
        assert live[i] in data[..n];
      }
    }
  }

  ghost predicate OnePerKey(live: seq<Entry>) {
    forall i, j :: 0 <= i < j < |live| ==> live[i].key.user < live[j].key.user
  }

  /** `live` lists the live keys in order, one entry each. */
  ghost predicate LiveList(live: seq<Entry>, data: seq<Entry>, s: SequenceNumber) {
    && OnePerKey(live)
    && (forall k :: Live(data, s, k) ==> HasUser(live, k))
    && (forall i :: 0 <= i < |live| ==> Live(data, s, live[i].key.user))
  }

  ghost predicate HasUser(live: seq<Entry>, k: UserKey) {
    exists i :: 0 <= i < |live| && live[i].key.user == k
  }

  lemma LiveInOrder(data: seq<Entry>, s: SequenceNumber)
    requires Sorted(data) && SeqUnique(ToSet(data))
    ensures LiveList(LiveEntries(data, ToSet(data), s), data, s)
  {
    var all := ToSet(data);
    var live := LiveEntries(data, all, s);
    LiveMembers(data, all, s);
    LiveSorted(data, all, s);
    forall i, j | 0 <= i < j < |live| ensures live[i].key.user < live[j].key.user {
      assert live[i] in live && live[j] in live;
      assert Less(live[i].key, live[j].key);
    }
    forall i | 0 <= i < |live| ensures Live(data, s, live[i].key.user) {
      assert live[i] in live;
      ReadIsNewest(all, live[i].key.user, s, live[i]);
    }
    forall k | Live(data, s, k) ensures HasUser(live, k) {
      if NoneVisible(all, k, s) {
        ReadOfNothing(all, k, s);
      }
      var e := NewestExists(all, k, s);
      ReadIsNewest(all, k, s, e);
      assert e in live;
    }
  }

  ghost function PositionOf(live: seq<Entry>, k: Option<UserKey>): Option<nat> {
    if k.Some? then Some(LowerBound(live, LookupKey(k.value, MAX_SEQUENCE))) else None
  }

  lemma UserPosition(live: seq<Entry>, k: UserKey)
    requires OnePerKey(live)
    ensures var n := LowerBound(live, LookupKey(k, MAX_SEQUENCE));
            && (forall i :: 0 <= i < |live| ==> (i < n <==> live[i].key.user < k))
            && (HasUser(live, k) ==> n < |live| && live[n].key.user == k)
  {
  }

  lemma EndPositions(data: seq<Entry>, s: SequenceNumber, target: UserKey, r: Option<UserKey>)
    requires LiveList(LiveEntries(data, ToSet(data), s), data, s)
    ensures var live := LiveEntries(data, ToSet(data), s);
            && (LeastLive(data, s, Lowest, r) ==> PositionOf(live, r) == Cursor(live, None).SeekToFirst().pos)
            && (LeastLive(data, s, FromKey(target), r) ==>
                  PositionOf(live, r) == Cursor(live, None).Seek(LookupKey(target, MAX_SEQUENCE)).pos)
            && (GreatestLive(data, s, Highest, r) ==> PositionOf(live, r) == Cursor(live, None).SeekToLast().pos)
  {
    hide LiveEntries, Live, Sorted, ToSet;
    var live := LiveEntries(data, ToSet(data), s);
    UserPosition(live, target);
    if r.Some? {
      UserPosition(live, r.value);
    }
    var n := LowerBound(live, LookupKey(target, MAX_SEQUENCE));
    if n < |live| {
      assert Live(data, s, live[n].key.user);
    }
    if live != [] {
      assert Live(data, s, live[0].key.user) && Live(data, s, live[|live| - 1].key.user);
    }
  }

  lemma NextPosition(data: seq<Entry>, s: SequenceNumber, k: UserKey, r: Option<UserKey>)
    requires LiveList(LiveEntries(data, ToSet(data), s), data, s) && Live(data, s, k) && LeastLive(data, s, BeyondKey(k), r)
    ensures var live := LiveEntries(data, ToSet(data), s);
            PositionOf(live, r) == Cursor(live, PositionOf(live, Some(k))).At(PositionOf(live, Some(k)).value + 1).pos
  {
    hide LiveEntries, Live, Sorted, ToSet;
    var live := LiveEntries(data, ToSet(data), s);
    UserPosition(live, k);
    if r.Some? {
      UserPosition(live, r.value);
    }
    var n := LowerBound(live, LookupKey(k, MAX_SEQUENCE));
    if n + 1 < |live| {
      assert Live(data, s, live[n + 1].key.user);
    }
  }

  lemma PrevPosition(data: seq<Entry>, s: SequenceNumber, k: UserKey, r: Option<UserKey>)
    requires LiveList(LiveEntries(data, ToSet(data), s), data, s) && Live(data, s, k) && GreatestLive(data, s, BelowKey(k), r)
    ensures var live := LiveEntries(data, ToSet(data), s);
            PositionOf(live, r) == Cursor(live, PositionOf(live, Some(k))).At(PositionOf(live, Some(k)).value - 1).pos
  {
    hide LiveEntries, Live, Sorted, ToSet;
    var live := LiveEntries(data, ToSet(data), s);
    UserPosition(live, k);
    if r.Some? {
      UserPosition(live, r.value);
    }
    var n := LowerBound(live, LookupKey(k, MAX_SEQUENCE));
    if 0 < n {
      assert Live(data, s, live[n - 1].key.user);
    }
  }

  // ----- Where each call starts scanning -----

  /** A live key has entries after the point just before it. */
  lemma EntriesAhead(data: seq<Entry>, s: SequenceNumber, i: int, k: UserKey)
    requires Sorted(data) && SeqUnique(ToSet(data)) && Live(data, s, k) && JustBefore(data, s, i, k)
    ensures i + 1 < |data|
  {
    hide Read, Newest, SeqUnique, ToSet, Sorted;
    var j := LiveHasValue(data, s, k);
    if j <= i {
      UsersAscend(data, j, i);
    }
  }

  lemma ScanAfterTurn(data: seq<Entry>, s: SequenceNumber, i: nat, k: UserKey)
    requires Sorted(data) && i < |data| && JustBefore(data, s, i - 1, k)
    ensures Scanning(data, s, BeyondKey(k), i, Some(k))
  {
    hide Read, Sorted, ToSet;
    forall j | SeenAt(data, s, j) ensures j < i ==> data[j].key.user < k {
      if j < i {
        UsersAscend(data, j, i - 1);
      }
    }
  }

  lemma ScanFromCurrent(data: seq<Entry>, s: SequenceNumber, i: nat)
    requires Sorted(data) && i < |data|
    ensures Scanning(data, s, BeyondKey(data[i].key.user), i, Some(data[i].key.user))
  {
    hide Read, Sorted, ToSet;
    forall j | SeenAt(data, s, j)
      ensures j < i ==> data[j].key.user <= data[i].key.user
      ensures i <= j ==> data[i].key.user <= data[j].key.user
    {
      if j < i {
        UsersAscend(data, j, i);
      } else {
        UsersAscend(data, i, j);
      }
    }
  }

  lemma ScanFromSeek(data: seq<Entry>, s: SequenceNumber, target: UserKey)
    requires Sorted(data) && SeqUnique(ToSet(data))
    ensures var i := LowerBound(data, LookupKey(target, s));
            if i < |data| then Scanning(data, s, FromKey(target), i, None) else LeastLive(data, s, FromKey(target), None)
  {
    hide Read, SeqUnique, ToSet;
    var i := LowerBound(data, LookupKey(target, s));
    LowerBoundSplits(data, LookupKey(target, s));
    assert forall j {:trigger SeenAt(data, s, j)} :: SeenAt(data, s, j) && j < i ==> data[j].key.user < target;
    if i == |data| {
      forall k | Live(data, s, k) ensures k < target {
        var j := LiveHasValue(data, s, k);
      }
    }
  }

  lemma NothingInEmpty(data: seq<Entry>, s: SequenceNumber)
    requires data == []
    ensures LeastLive(data, s, Lowest, None)
  {
    forall k ensures !Live(data, s, k) {
      ReadOfNothing(ToSet(data), k, s);
    }
  }

  /** No entry before the first one means no live key below it. */
  lemma NothingBelow(data: seq<Entry>, s: SequenceNumber, k: UserKey)
    requires Sorted(data) && SeqUnique(ToSet(data)) && data != [] && k <= data[0].key.user
    ensures GreatestLive(data, s, BelowKey(k), None)
  {
    hide Read, Newest, SeqUnique, ToSet, Sorted;
    forall j | Live(data, s, j) ensures k <= j {
      var i := LiveHasValue(data, s, j);
      UsersAscend(data, 0, i);
    }
  }

  lemma LastBelow(data: seq<Entry>, s: SequenceNumber, i: nat, k: UserKey)
    requires Sorted(data) && i + 1 < |data| && data[i].key.user < k <= data[i + 1].key.user
    ensures JustBefore(data, s, i, k)
  {
    hide Sorted;
    forall j | SeenAt(data, s, j) && data[j].key.user < k ensures j <= i {
      if i < j {
        UsersAscend(data, i + 1, j);
      }
    }
  }

  lemma BackFromBefore(data: seq<Entry>, s: SequenceNumber, i: int, k: UserKey)
    requires Sorted(data) && SeqUnique(ToSet(data)) && JustBefore(data, s, i, k)
    ensures Backing(data, s, BelowKey(k), i, None)
  {
    hide Read, Newest, SeqUnique, ToSet, Sorted;
    forall j | 0 <= j <= i ensures data[j].key.user < k {
      UsersAscend(data, j, i);
    }
    forall u | Live(data, s, u) && u < k ensures ToCome(data, s, i, u) {
      var j := LiveHasValue(data, s, u);
    }
  }

  lemma BackFromLast(data: seq<Entry>, s: SequenceNumber)
    requires Sorted(data) && SeqUnique(ToSet(data))
    ensures Backing(data, s, Highest, |data| - 1, None)
  {
    hide Read, Newest, SeqUnique, ToSet, Sorted;
    forall u | Live(data, s, u) ensures ToCome(data, s, |data| - 1, u) {
      var j := LiveHasValue(data, s, u);
    }
  }
}
