/** The bytewise comparator, separators and successors (util/comparator.cc), and the same on
    encoded internal keys (db/dbformat.cc). */
module BytewiseComparator {
  import opened DbFormat
  import opened Coding
  import F = DbFormat

  /** Slice::compare as a strict order: the first different byte decides, else the shorter is less. */
  predicate Precedes(a: Bytes, b: Bytes) {
    b != [] && (a == [] || a[0] < b[0] || (a[0] == b[0] && Precedes(a[1..], b[1..])))
  }

  /** The rank of a byte string among all byte strings. */
  function Rank(b: Bytes): (r: real)
    ensures 0.0 <= r < 1.0
    ensures r == 0.0 <==> b == []
  {
    if b == [] then 0.0 else (1.0 + b[0] as real + Rank(b[1..])) / 257.0
  }

  /** Ranks order as the comparator does, so distinct keys have distinct ranks. */
  lemma {:induction false} RankKeepsOrder(a: Bytes, b: Bytes)
    ensures Precedes(a, b) <==> Rank(a) < Rank(b)
    ensures a == b <==> Rank(a) == Rank(b)
  {
    if a != [] && b != [] {
      RankKeepsOrder(a[1..], b[1..]);
      var x, y := 1.0 + a[0] as real + Rank(a[1..]), 1.0 + b[0] as real + Rank(b[1..]);
      assert Rank(a) < Rank(b) <==> x < y;
      assert Rank(a) == Rank(b) <==> x == y;
      if a[0] == b[0] {
        assert a == [a[0]] + a[1..] && b == [b[0]] + b[1..];
      } else {
        assert a[0] < b[0] ==> a[0] as real + 1.0 <= b[0] as real;
        assert b[0] < a[0] ==> b[0] as real + 1.0 <= a[0] as real;
      }
    }
  }

  /** Keys with a common front differ where they first differ. */
  lemma {:induction false} FirstDifferenceDecides(a: Bytes, b: Bytes, n: nat)
    requires n < |a| && n < |b| && a[..n] == b[..n] && a[n] != b[n]
    ensures Precedes(a, b) <==> a[n] < b[n]
  {
    if n > 0 {
      assert a[0] == a[..n][0] == b[..n][0] == b[0];
      assert a[1..][..n - 1] == a[..n][1..] == b[..n][1..] == b[1..][..n - 1];
      FirstDifferenceDecides(a[1..], b[1..], n - 1);
    }
  }

  /** The keys first differ at byte `n`. */
  ghost predicate DifferAt(a: Bytes, b: Bytes, n: nat) {
    n < |a| && n < |b| && a[..n] == b[..n] && a[n] != b[n]
  }

  /** There is room for a byte between those at which the keys first differ, at byte `n`. */
  ghost predicate RoomAt(start: Bytes, limit: Bytes, n: nat) {
    DifferAt(start, limit, n) && (start[n] as int) + 1 < limit[n]
  }

  lemma FirstDifferenceIsOne(a: Bytes, b: Bytes, diff: nat, n: nat)
    requires diff <= |a| && diff <= |b| && a[..diff] == b[..diff]
    requires diff < |a| && diff < |b| ==> a[diff] != b[diff]
    requires DifferAt(a, b, n)
    ensures n == diff
  {
    if n < diff {
      SameFront(a, b, diff, n);
    } else if diff < n {
      SameFront(a, b, n, diff);
    }
  }

  lemma SameFront(a: Bytes, b: Bytes, n: nat, i: nat)
    requires i < n <= |a| && n <= |b| && a[..n] == b[..n]
    ensures a[i] == b[i]
  {
    assert a[..n][i] == b[..n][i];
  }

  /** `start` is kept, or replaced by a shorter or equally long key at or after it and before `limit`; it is replaced exactly if
      there is room where the keys first differ. */
  method FindShortestSeparator(start: Bytes, limit: Bytes) returns (r: Bytes)
    ensures r == start || (Precedes(start, r) && Precedes(r, limit) && |r| <= |start|)
    ensures r != start <==> exists n: nat :: RoomAt(start, limit, n)
    ensures forall n: nat :: RoomAt(start, limit, n) ==> r == start[..n] + [start[n] + 1]
  {
    r := start;
    var minLength := if |start| < |limit| then |start| else |limit|;
    var diff := 0;
    while diff < minLength && start[diff] == limit[diff]
      invariant diff <= minLength && start[..diff] == limit[..diff]
    {
      diff := diff + 1;
    }
    forall n: nat | RoomAt(start, limit, n) ensures n == diff {
      FirstDifferenceIsOne(start, limit, diff, n);
    }
    if diff < minLength {
      var byte := start[diff];
      if byte < 0xff && byte + 1 < limit[diff] {
        assert RoomAt(start, limit, diff);
        r := start[..diff] + [byte + 1];
        FirstDifferenceDecides(start, r, diff);
        FirstDifferenceDecides(r, limit, diff);
      }
    }
  }

  /** Byte `n` is the first one that is not 0xff. */
  ghost predicate FirstBelow(key: Bytes, n: nat) {
    n < |key| && key[n] != 0xff && forall i :: 0 <= i < n ==> key[i] == 0xff
  }

  /** No key shorter than the result is at or after `key`; a run of 0xff bytes is left alone. */
  method FindShortSuccessor(key: Bytes) returns (r: Bytes)
    ensures r == key || Precedes(key, r)
    ensures r == key <==> forall i :: 0 <= i < |key| ==> key[i] == 0xff
    ensures r != key ==> exists n: nat :: FirstBelow(key, n)
    ensures forall n: nat :: FirstBelow(key, n) ==> r == key[..n] + [key[n] + 1]
    ensures forall other: Bytes :: |other| < |r| ==> Precedes(other, key)
  {
    var i := 0;
    while i < |key|
      invariant i <= |key| && forall j :: 0 <= j < i ==> key[j] == 0xff
    {
      if key[i] != 0xff {
        assert FirstBelow(key, i);
        r := key[..i] + [key[i] + 1];
        FirstDifferenceDecides(key, r, i);
        forall other: Bytes | |other| < |r|
          ensures Precedes(other, key)
        {
          RunIsGreatest(other, key, i);
        }
        return;
      }
      i := i + 1;
    }
    r := key;
    forall other: Bytes | |other| < |r|
      ensures Precedes(other, key)
    {
      RunIsGreatest(other, key, |key| - 1);
    }
  }

  /** A key that goes on after `n` bytes 0xff is after every key of at most `n` bytes. */
  lemma {:induction false} RunIsGreatest(other: Bytes, key: Bytes, n: nat)
    requires |other| <= n < |key|
    requires forall j :: 0 <= j < n ==> key[j] == 0xff
    ensures Precedes(other, key)
  {
    if other != [] {
      RunIsGreatest(other[1..], key[1..], n - 1);
    }
  }

  /** An internal key as the tables hold it: the user key's bytes, then the tag. */
  datatype EncodedKey = EncodedKey(user: Bytes, tag: Word64)

  /** InternalKeyComparator::Compare. */
  predicate KeyPrecedes(a: EncodedKey, b: EncodedKey) {
    Precedes(a.user, b.user) || (a.user == b.user && a.tag > b.tag)
  }

  function Encoded(user: Bytes, sequence: SequenceNumber, kind: ValueType): EncodedKey {
    EncodedKey(user, F.InternalKey(Rank(user), sequence, kind).Tag())
  }

  /** ParseInternalKey on the trailing word of a key: none for an unknown type. */
  function ParseTag(tag: Word64): Option<(SequenceNumber, ValueType)> {
    if tag % 256 > 1 then None
    else Some((tag / 256, if tag % 256 == 1 then Put else Deletion))
  }

  /** A tag is parsed exactly into the number and the type it was packed from. */
  lemma TagIsParsed(tag: Word64, user: F.UserKey, sequence: SequenceNumber, kind: ValueType)
    ensures ParseTag(tag) == Some((sequence, kind)) <==> tag == F.InternalKey(user, sequence, kind).Tag()
  {
  }

  /** The order of encoded keys is the order the rest of the model uses on ranks. */
  lemma EncodedOrderIsLess(a: Bytes, m: SequenceNumber, s: ValueType, b: Bytes, n: SequenceNumber, t: ValueType)
    ensures KeyPrecedes(Encoded(a, m, s), Encoded(b, n, t))
       <==> Less(F.InternalKey(Rank(a), m, s), F.InternalKey(Rank(b), n, t))
  {
    RankKeepsOrder(a, b);
  }

  /** A well-formed tag is at most the one a separator gets. */
  const MAX_TAG: nat := MAX_SEQUENCE * 256 + 1

  /** InternalKeyComparator::FindShortestSeparator: never before `start`, and before `limit` if `start` is. */
  method FindShortestKeySeparator(start: EncodedKey, limit: EncodedKey) returns (r: EncodedKey)
    ensures r == start || (KeyPrecedes(start, r) && KeyPrecedes(r, limit))
    ensures r != start ==> r.tag == MAX_TAG && |r.user| < |start.user|
    ensures r != start ==> Precedes(start.user, r.user) && Precedes(r.user, limit.user)
    ensures r != start <==> exists n: nat :: RoomAt(start.user, limit.user, n) && n + 1 < |start.user|
    ensures forall n: nat :: RoomAt(start.user, limit.user, n) && n + 1 < |start.user| ==> r.user == start.user[..n] + [start.user[n] + 1]
  {
    r := start;
    var tmp := FindShortestSeparator(start.user, limit.user);
    if |tmp| < |start.user| && Precedes(start.user, tmp) {
      r := EncodedKey(tmp, MAX_TAG);
    }
  }

  /** InternalKeyComparator::FindShortSuccessor. */
  method FindShortKeySuccessor(key: EncodedKey) returns (r: EncodedKey)
    ensures r == key || KeyPrecedes(key, r)
    ensures r != key ==> r.tag == MAX_TAG && |r.user| < |key.user| && Precedes(key.user, r.user)
    ensures r != key <==> exists n: nat :: FirstBelow(key.user, n) && n + 1 < |key.user|
    ensures forall n: nat :: FirstBelow(key.user, n) && n + 1 < |key.user| ==> r.user == key.user[..n] + [key.user[n] + 1]
  {
    r := key;
    var tmp := FindShortSuccessor(key.user);
    if |tmp| < |key.user| && Precedes(key.user, tmp) {
      r := EncodedKey(tmp, MAX_TAG);
    }
  }
}
