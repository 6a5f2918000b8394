/** The cache's chained hash table (HandleTable in util/cache.cc). */
module HandleTables {
  import opened Coding

  /** LRUHandle: an entry, and the links of the lists it is on. */
  class Handle {
    const key: Bytes
    const hash: nat
    const charge: nat
    var next: Handle?
    var prev: Handle?
    var nextHash: Handle?
    var inCache: bool
    var refs: nat
    /** Calls of the entry's deleter. */
    ghost var deletions: nat

    constructor (key: Bytes, hash: nat, charge: nat)
      ensures this.key == key && this.hash == hash && this.charge == charge
      ensures !inCache && refs == 1 && deletions == 0
    {
      this.key, this.hash, this.charge := key, hash, charge;
      next, prev, nextHash := null, null, null;
      inCache, refs, deletions := false, 1, 0;
    }
  }

  predicate Matches(h: Handle, key: Bytes, hash: nat) {
    h.hash == hash && h.key == key
  }

  /** Element `j` of a bucket, or null past its end. */
  function HandleAt(b: seq<Handle>, j: nat): Handle? {
    if j < |b| then b[j] else null
  }

  function Members(b: seq<Handle>): set<Handle> {
    set h | h in b
  }

  type Links = map<Handle, Handle?>

  ghost function LinksOf(handles: set<Handle>): Links
    reads handles`nextHash
  {
    map h | h in handles :: h.nextHash
  }

  /** From `first` the links lead through `b`. */
  ghost predicate Chain(links: Links, first: Handle?, b: seq<Handle>) {
    first == HandleAt(b, 0) && forall j :: 0 <= j < |b| ==> LinkAt(links, b, j)
  }

  ghost predicate LinkAt(links: Links, b: seq<Handle>, j: nat)
    requires j < |b|
  {
    b[j] in links && links[b[j]] == HandleAt(b, j + 1)
  }

  /** No key twice, and every hash falls into bucket `i` of `length`. */
  ghost predicate IsBucket(b: seq<Handle>, i: nat, length: nat)
    requires length > 0
  {
    && (forall j :: 0 <= j < |b| ==> b[j].hash % length == i)
    && forall j, k :: 0 <= j < k < |b| ==> !Matches(b[j], b[k].key, b[k].hash)
  }

  ghost function All(buckets: seq<seq<Handle>>): set<Handle> {
    set i, h | 0 <= i < |buckets| && h in buckets[i] :: h
  }

  function Count(buckets: seq<seq<Handle>>): nat {
    if buckets == [] then 0 else Count(buckets[..|buckets| - 1]) + |buckets[|buckets| - 1]|
  }

  lemma {:induction false} CountUpdate(buckets: seq<seq<Handle>>, i: nat, b: seq<Handle>)
    requires i < |buckets|
    ensures Count(buckets[i := b]) == Count(buckets) - |buckets[i]| + |b|
  {
    var n := |buckets| - 1;
    if i < n {
      CountUpdate(buckets[..n], i, b);
      assert buckets[i := b][..n] == buckets[..n][i := b];
    } else {
      assert buckets[i := b][..n] == buckets[..n];
    }
  }

  lemma {:induction false} CountOfEmpty(buckets: seq<seq<Handle>>)
    requires forall i :: 0 <= i < |buckets| ==> buckets[i] == []
    ensures Count(buckets) == 0 && All(buckets) == {}
  {
    if buckets != [] {
      CountOfEmpty(buckets[..|buckets| - 1]);
    }
  }

  /** Every handle is in the bucket of its hash. */
  ghost predicate Spread(buckets: seq<seq<Handle>>) {
    forall i :: 0 <= i < |buckets| ==> IsBucket(buckets[i], i, |buckets|)
  }

  /** Each slot leads through its bucket. */
  ghost predicate Chains(links: Links, list: seq<Handle?>, buckets: seq<seq<Handle>>) {
    |list| == |buckets| && forall i :: 0 <= i < |list| ==> Chain(links, list[i], buckets[i])
  }

  /** The slots and chains hold `buckets`. */
  ghost predicate Holds(list: seq<Handle?>, buckets: seq<seq<Handle>>)
    reads All(buckets)`nextHash
  {
    Spread(buckets) && Chains(LinksOf(All(buckets)), list, buckets)
  }

  /** The links in memory after some were changed. */
  ghost predicate Now(links: Links, changed: Links, handles: set<Handle>)
    reads handles`nextHash
  {
    forall h :: h in handles ==>
      (h in changed ==> h.nextHash == changed[h]) && (h in links && h !in changed ==> h.nextHash == links[h])
  }

  /** Chains depend only on the links of their members. */
  lemma ChainsAgree(links: Links, changed: Links, list: seq<Handle?>, buckets: seq<seq<Handle>>)
    requires Chains(links + changed, list, buckets) && Now(links, changed, All(buckets))
    ensures Chains(LinksOf(All(buckets)), list, buckets)
  {
    var other := LinksOf(All(buckets));
    forall i | 0 <= i < |list| ensures Chain(other, list[i], buckets[i]) {
      assert Chain(links + changed, list[i], buckets[i]);
      BucketMembers(buckets, i);
      forall j | 0 <= j < |buckets[i]| ensures LinkAt(other, buckets[i], j) {
        assert LinkAt(links + changed, buckets[i], j) && buckets[i][j] in All(buckets);
      }
    }
  }

  /** Writing links of one bucket leaves the others, and the bucket's own new chain completes the table. */
  lemma BucketChanged(links: Links, list: seq<Handle?>, buckets: seq<seq<Handle>>, i: nat, more: seq<Handle>,
                      changed: Links, first: Handle?)
    requires Chains(links, list, buckets) && i < |buckets|
    requires changed.Keys * links.Keys <= Members(buckets[i])
    requires forall m :: 0 <= m < |buckets| && m != i ==> changed.Keys !! Members(buckets[m])
    requires Chain(links + changed, first, more)
    ensures Chains(links + changed, list[i := first], buckets[i := more])
  {
    forall m | 0 <= m < |buckets| && m != i ensures Chain(links + changed, list[m], buckets[m]) {
      assert Chain(links, list[m], buckets[m]);
      forall j | 0 <= j < |buckets[m]| ensures LinkAt(links + changed, buckets[m], j) {
        assert LinkAt(links, buckets[m], j) && buckets[m][j] in Members(buckets[m]);
      }
    }
  }

  /** The links after the slot before element `j` is made to point to `h`. */
  function SlotSet(b: seq<Handle>, j: nat, h: Handle?): Links
    requires j <= |b|
  {
    if j == 0 then map[] else map[b[j - 1] := h]
  }

  /** The slot before element `j` of a chain now points to `h`, which goes on where element `j` did. */
  lemma ChainReplaced(links: Links, first: Handle?, b: seq<Handle>, j: nat, h: Handle)
    requires Chain(links, first, b) && j <= |b| && h !in b
    requires forall x, y :: 0 <= x < y < |b| ==> b[x] != b[y]
    ensures Chain(links + PutLinks(b, j, h), if j == 0 then h else first, Put(b, j, h))
  {
    var changed := PutLinks(b, j, h);
    var more := Put(b, j, h);
    forall k | 0 <= k < |more| ensures LinkAt(links + changed, more, k) {
      if k < |b| {
        assert LinkAt(links, b, k);
      }
    }
  }

  /** The slot before element `j` of a chain now points past it. */
  lemma ChainShortened(links: Links, first: Handle?, b: seq<Handle>, j: nat)
    requires Chain(links, first, b) && j < |b|
    requires forall x, y :: 0 <= x < y < |b| ==> b[x] != b[y]
    ensures Chain(links + SlotSet(b, j, HandleAt(b, j + 1)), if j == 0 then HandleAt(b, 1) else first, b[..j] + b[j + 1..])
  {
    var less := b[..j] + b[j + 1..];
    var after := links + SlotSet(b, j, HandleAt(b, j + 1));
    forall k | 0 <= k < |less| ensures LinkAt(after, less, k) {
      assert LinkAt(links, b, if k < j then k else k + 1);
    }
  }

  lemma SpreadUpdate(buckets: seq<seq<Handle>>, i: nat, more: seq<Handle>)
    requires Spread(buckets) && i < |buckets| && IsBucket(more, i, |buckets|)
    ensures Spread(buckets[i := more])
  {
  }

  lemma BucketOf(buckets: seq<seq<Handle>>, i: nat)
    requires Spread(buckets) && i < |buckets|
    ensures IsBucket(buckets[i], i, |buckets|)
  {
  }

  lemma BucketDistinct(b: seq<Handle>, i: nat, length: nat)
    requires length > 0 && IsBucket(b, i, length)
    ensures forall x, y :: 0 <= x < y < |b| ==> b[x] != b[y]
  {
  }

  /** Handles of different buckets differ. */
  lemma BucketsAreApart(buckets: seq<seq<Handle>>, i: nat)
    requires Spread(buckets) && i < |buckets|
    ensures forall m :: 0 <= m < |buckets| && m != i ==> Members(buckets[i]) !! Members(buckets[m])
  {
    forall m, h | 0 <= m < |buckets| && m != i && h in buckets[i] ensures h !in buckets[m] {
      assert IsBucket(buckets[i], i, |buckets|) && IsBucket(buckets[m], m, |buckets|);
    }
  }

  ghost predicate KeysUnique(handles: set<Handle>) {
    forall g, h :: g in handles && h in handles && Matches(g, h.key, h.hash) ==> g == h
  }

  /** The table maps keys to handles: no two have the same key. */
  lemma SpreadIsAMap(buckets: seq<seq<Handle>>)
    requires Spread(buckets)
    ensures KeysUnique(All(buckets))
  {
    forall g, h | g in All(buckets) && h in All(buckets) && Matches(g, h.key, h.hash) ensures g == h {
      var i :| 0 <= i < |buckets| && g in buckets[i];
      var j :| 0 <= j < |buckets| && h in buckets[j];
      assert IsBucket(buckets[i], i, |buckets|) && IsBucket(buckets[j], j, |buckets|);
      var x :| 0 <= x < |buckets[i]| && buckets[i][x] == g;
      var y :| 0 <= y < |buckets[j]| && buckets[j][y] == h;
    }
  }

  lemma ReplacedMembers(buckets: seq<seq<Handle>>, i: nat, b: seq<Handle>, gone: set<Handle>, come: set<Handle>)
    requires i < |buckets| && Members(b) == Members(buckets[i]) - gone + come && gone <= Members(buckets[i])
    requires forall m :: 0 <= m < |buckets| && m != i ==> Members(buckets[i]) !! Members(buckets[m])
    ensures All(buckets[i := b]) == All(buckets) - gone + come
  {
    var after := buckets[i := b];
    forall h | h in All(after) ensures h in All(buckets) - gone + come {
      var m :| 0 <= m < |after| && h in after[m];
      assert h in Members(after[m]);
      assert h in Members(buckets[m]) || h in come;
    }
    forall h | h in All(buckets) - gone + come ensures h in All(after) {
      if h in Members(b) {
        assert h in after[i];
      } else {
        assert h !in come;
        var m :| 0 <= m < |buckets| && h in buckets[m];
        assert h in Members(buckets[m]);
        assert after[m] == buckets[m];
      }
    }
  }

  /** Bucket counts are powers of two, so that masking a hash is taking it modulo the count. */
  ghost predicate PowerOfTwo(n: nat) {
    n == 1 || (n > 1 && n % 2 == 0 && PowerOfTwo(n / 2))
  }

  lemma FourIsPower()
    ensures PowerOfTwo(4)
  {
    assert PowerOfTwo(2);
  }

  lemma DoublePower(n: nat)
    requires PowerOfTwo(n)
    ensures PowerOfTwo(n * 2)
  {
  }

  function Only(h: Handle?): set<Handle> {
    if h == null then {} else {h}
  }

  lemma BucketMembers(buckets: seq<seq<Handle>>, i: nat)
    requires i < |buckets|
    ensures Members(buckets[i]) <= All(buckets) && forall j :: 0 <= j < |buckets[i]| ==> buckets[i][j] in All(buckets)
  {
  }

  lemma NoneElsewhere(buckets: seq<seq<Handle>>, key: Bytes, hash: nat)
    requires Spread(buckets) && buckets != []
    requires forall j :: 0 <= j < |buckets[hash % |buckets|]| ==> !Matches(buckets[hash % |buckets|][j], key, hash)
    ensures forall h :: h in All(buckets) ==> !Matches(h, key, hash)
  {
    forall h | h in All(buckets) ensures !Matches(h, key, hash) {
      var m :| 0 <= m < |buckets| && h in buckets[m];
      assert IsBucket(buckets[m], m, |buckets|);
    }
  }

  lemma OnlyMatch(b: seq<Handle>, i: nat, length: nat, j: nat, key: Bytes, hash: nat)
    requires length > 0 && IsBucket(b, i, length) && j < |b| && Matches(b[j], key, hash)
    ensures forall k :: 0 <= k < |b| && k != j ==> !Matches(b[k], key, hash)
  {
  }

  lemma ChainOf(links: Links, list: seq<Handle?>, buckets: seq<seq<Handle>>, i: nat)
    requires Chains(links, list, buckets) && i < |buckets|
    ensures |list| == |buckets| && Chain(links, list[i], buckets[i])
  {
  }

  lemma SameLength(links: Links, list: seq<Handle?>, buckets: seq<seq<Handle>>)
    requires Chains(links, list, buckets)
    ensures |list| == |buckets|
  {
  }

  lemma NextOf(links: Links, first: Handle?, b: seq<Handle>, j: nat)
    requires Chain(links, first, b) && j < |b|
    ensures b[j] in links && links[b[j]] == HandleAt(b, j + 1)
  {
    assert LinkAt(links, b, j);
  }

  lemma HandleIsApart(buckets: seq<seq<Handle>>, h: Handle)
    requires h !in All(buckets)
    ensures forall m :: 0 <= m < |buckets| ==> h !in Members(buckets[m])
  {
  }

  /** A bucket after its element `j` is replaced, or one is appended. */
  lemma NewBucket(b: seq<Handle>, i: nat, length: nat, j: nat, h: Handle)
    requires length > 0 && IsBucket(b, i, length) && h.hash % length == i && j <= |b|
    requires forall k :: 0 <= k < |b| && k != j ==> !Matches(b[k], h.key, h.hash)
    ensures IsBucket(Put(b, j, h), i, length) && Members(Put(b, j, h)) == Members(b) - Only(HandleAt(b, j)) + {h}
  {
    var more := Put(b, j, h);
    if j < |b| {
      assert b == b[..j] + [b[j]] + b[j + 1..] && more == b[..j] + [h] + b[j + 1..];
    }
  }

  lemma LessBucket(b: seq<Handle>, i: nat, length: nat, j: nat)
    requires length > 0 && IsBucket(b, i, length) && j < |b|
    ensures var less := b[..j] + b[j + 1..]; IsBucket(less, i, length) && Members(less) == Members(b) - {b[j]}
  {
    var less := b[..j] + b[j + 1..];
    assert b == b[..j] + [b[j]] + b[j + 1..];
  }

  lemma HoldsParts(list: seq<Handle?>, buckets: seq<seq<Handle>>)
    requires Holds(list, buckets)
    ensures Spread(buckets) && Chains(LinksOf(All(buckets)), list, buckets)
  {
  }

  lemma HoldsFrom(list: seq<Handle?>, buckets: seq<seq<Handle>>)
    requires Spread(buckets) && Chains(LinksOf(All(buckets)), list, buckets)
    ensures Holds(list, buckets)
  {
  }

  /** A bucket with `h` at `j`, after its end or in place of what is there. */
  function Put(b: seq<Handle>, j: nat, h: Handle): seq<Handle>
    requires j <= |b|
  {
    if j == |b| then b + [h] else b[j := h]
  }

  function PutLinks(b: seq<Handle>, j: nat, h: Handle): Links
    requires j <= |b|
  {
    map[h := HandleAt(b, j + 1)] + SlotSet(b, j, h)
  }

  /** What the two writes of Insert make of the table. */
  lemma LinkPlan(links: Links, list: seq<Handle?>, buckets: seq<seq<Handle>>, i: nat, j: nat, h: Handle)
    requires Spread(buckets) && Chains(links, list, buckets) && links.Keys == All(buckets)
    requires h !in All(buckets) && i < |buckets| && j <= |buckets[i]| && h.hash % |buckets| == i
    requires forall k :: 0 <= k < |buckets[i]| && k != j ==> !Matches(buckets[i][k], h.key, h.hash)
    ensures var b := buckets[i];
      var after := buckets[i := Put(b, j, h)];
      && Spread(after) && All(after) == All(buckets) - Only(HandleAt(b, j)) + {h}
      && Count(after) == Count(buckets) + (if j == |b| then 1 else 0)
      && i < |list| && Chains(links + PutLinks(b, j, h), list[i := if j == 0 then h else list[i]], after)
    ensures j < |buckets[i]| ==> buckets[i][j] in links && links[buckets[i][j]] == HandleAt(buckets[i], j + 1)
  {
    hide All, Count, Spread, Chains, Chain, IsBucket;
    var b := buckets[i];
    var more := Put(b, j, h);
    ChainOf(links, list, buckets, i);
    BucketsAreApart(buckets, i);
    BucketMembers(buckets, i);
    HandleIsApart(buckets, h);
    BucketOf(buckets, i);
    NewBucket(b, i, |buckets|, j, h);
    BucketDistinct(b, i, |buckets|);
    ChainReplaced(links, list[i], b, j, h);
    BucketChanged(links, list, buckets, i, more, PutLinks(b, j, h), if j == 0 then h else list[i]);
    CountUpdate(buckets, i, more);
    SpreadUpdate(buckets, i, more);
    ReplacedMembers(buckets, i, more, Only(HandleAt(b, j)), {h});
    if j < |b| {
      NextOf(links, list[i], b, j);
    }
  }

  /** What the write of Remove makes of the table. */
  lemma RemovePlan(links: Links, list: seq<Handle?>, buckets: seq<seq<Handle>>, i: nat, j: nat)
    requires Spread(buckets) && Chains(links, list, buckets) && links.Keys == All(buckets)
    requires i < |buckets| && j < |buckets[i]|
    ensures var b := buckets[i];
      var after := buckets[i := b[..j] + b[j + 1..]];
      && Spread(after) && All(after) == All(buckets) - {b[j]} && Count(after) == Count(buckets) - 1
      && i < |list| && Chains(links + SlotSet(b, j, HandleAt(b, j + 1)), list[i := if j == 0 then HandleAt(b, 1) else list[i]], after)
      && b[j] in links && links[b[j]] == HandleAt(b, j + 1)
  {
    hide All, Count, Spread, Chains, Chain, IsBucket;
    var b := buckets[i];
    var less := b[..j] + b[j + 1..];
    ChainOf(links, list, buckets, i);
    BucketsAreApart(buckets, i);
    BucketMembers(buckets, i);
    BucketOf(buckets, i);
    LessBucket(b, i, |buckets|, j);
    BucketDistinct(b, i, |buckets|);
    ChainShortened(links, list[i], b, j);
    BucketChanged(links, list, buckets, i, less, SlotSet(b, j, HandleAt(b, j + 1)), if j == 0 then HandleAt(b, 1) else list[i]);
    CountUpdate(buckets, i, less);
    SpreadUpdate(buckets, i, less);
    ReplacedMembers(buckets, i, less, {b[j]}, {});
    NextOf(links, list[i], b, j);
  }

  class HandleTable {
    var list: array<Handle?>
    var elems: nat
    ghost var buckets: seq<seq<Handle>>

    ghost predicate Valid()
      reads this, list, All(buckets)`nextHash
    {
      Holds(list[..], buckets) && elems == Count(buckets) && PowerOfTwo(list.Length)
    }

    lemma SomeBucket()
      requires Valid()
      ensures list.Length > 0 && list.Length == |buckets|
    {
    }

    /** Two handles in the table never have the same key. */
    lemma IsAMap()
      requires Valid()
      ensures KeysUnique(Contents())
    {
      SpreadIsAMap(buckets);
    }

    ghost function Contents(): set<Handle>
      reads this`buckets
    {
      All(buckets)
    }

    constructor ()
      ensures Valid() && Contents() == {} && fresh(list)
    {
      list := new Handle?[4](_ => null);
      elems := 0;
      buckets := seq(4, _ => []);
      new;
      CountOfEmpty(buckets);
    }

    /** The slot for a key: bucket `i`, behind `pred` (null for the bucket's head); `found` is what it points to, a handle
        with that key or null at the end of the chain. */
    method FindPointer(key: Bytes, hash: nat) returns (i: nat, pred: Handle?, found: Handle?, ghost j: nat)
      requires Valid()
      ensures Valid() && i < list.Length && i < |buckets| && i == hash % list.Length && j <= |buckets[i]|
      ensures pred == (if j == 0 then null else buckets[i][j - 1]) && found == HandleAt(buckets[i], j)
      ensures found != null ==> Matches(found, key, hash)
      ensures forall k :: 0 <= k < |buckets[i]| && k != j ==> !Matches(buckets[i][k], key, hash)
      ensures found == null ==> forall h :: h in Contents() ==> !Matches(h, key, hash)
    {
      hide All, IsBucket, Count, PowerOfTwo, Spread, Chains;
      SomeBucket();
      i := hash % list.Length;
      pred, found := null, list[i];
      ghost var b := buckets[i];
      ghost var links := LinksOf(All(buckets));
      ChainOf(links, list[..], buckets, i);
      BucketMembers(buckets, i);
      j := 0;
      while found != null && !(found.hash == hash && found.key == key)
        invariant j <= |b| && pred == (if j == 0 then null else b[j - 1]) && found == HandleAt(b, j)
        invariant forall k :: 0 <= k < j ==> !Matches(b[k], key, hash)
        decreases |b| - j
      {
        assert LinkAt(links, b, j);
        pred, found := found, found.nextHash;
        j := j + 1;
      }
      BucketOf(buckets, i);
      if found == null {
        NoneElsewhere(buckets, key, hash);
      } else {
        OnlyMatch(b, i, |buckets|, j, key, hash);
      }
    }

    /** The handle with this key, if the table has one. */
    method Lookup(key: Bytes, hash: nat) returns (h: Handle?)
      requires Valid()
      ensures h != null ==> h in Contents() && Matches(h, key, hash)
      ensures h == null ==> forall g :: g in Contents() ==> !Matches(g, key, hash)
    {
      var i, _, found, j := FindPointer(key, hash);
      h := found;
      BucketMembers(buckets, i);
    }

    /** Write a slot. */
    method SetPointer(i: nat, pred: Handle?, h: Handle?)
      requires i < list.Length
      modifies list, Only(pred)`nextHash
      ensures pred == null ==> list[..] == old(list[..])[i := h]
      ensures pred != null ==> list[..] == old(list[..]) && pred.nextHash == h
    {
      if pred == null {
        list[i] := h;
      } else {
        pred.nextHash := h;
      }
    }

    /** Put `h` in its slot; the handle with the same key, if any, leaves the table. */
    method Insert(h: Handle) returns (displaced: Handle?)
      requires Valid() && h !in Contents()
      modifies this, list, Contents()`nextHash, h`nextHash
      ensures Valid() && (list == old(list) || fresh(list))
      ensures displaced != null ==> displaced in old(Contents()) && Matches(displaced, h.key, h.hash)
      ensures displaced == null ==> forall g :: g in old(Contents()) ==> !Matches(g, h.key, h.hash)
      ensures Contents() == (if displaced == null then old(Contents()) else old(Contents()) - {displaced}) + {h}
    {
      hide All, Count, PowerOfTwo, Holds;
      displaced := Link(h);
      if displaced == null {
        if elems > list.Length {
          Resize();
        }
      }
    }

    method Link(h: Handle) returns (found: Handle?)
      requires Valid() && h !in Contents()
      modifies this, list, Contents()`nextHash, h`nextHash
      ensures Valid() && list == old(list)
      ensures found != null ==> found in old(Contents()) && Matches(found, h.key, h.hash)
      ensures found == null ==> forall g :: g in old(Contents()) ==> !Matches(g, h.key, h.hash)
      ensures Contents() == old(Contents()) - Only(found) + {h}
    {
      hide All, Count, PowerOfTwo, Spread, Chains, Holds, IsBucket;
      var i, pred;
      ghost var j;
      i, pred, found, j := FindPointer(h.key, h.hash);
      HoldsParts(list[..], buckets);
      BucketMembers(buckets, i);
      ghost var links := LinksOf(All(buckets));
      LinkPlan(links, list[..], buckets, i, j, h);
      ghost var slots := list[..][i := if j == 0 then h else list[i]];
      h.nextHash := if found == null then null else found.nextHash;
      SetPointer(i, pred, h);
      assert list[..] == slots;
      ghost var before := buckets;
      buckets := buckets[i := Put(buckets[i], j, h)];
      ChainsAgree(links, PutLinks(before[i], j, h), slots, buckets);
      HoldsFrom(slots, buckets);
      assert Holds(list[..], buckets);
      if found == null {
        elems := elems + 1;
      }
      assert elems == Count(buckets);
    }

    /** Take the handle with this key out of the table. */
    method Remove(key: Bytes, hash: nat) returns (h: Handle?)
      requires Valid()
      modifies this, list, Contents()`nextHash
      ensures Valid() && list == old(list)
      ensures h != null ==> h in old(Contents()) && Matches(h, key, hash) && Contents() == old(Contents()) - {h}
      ensures h == null ==> Contents() == old(Contents()) && forall g :: g in Contents() ==> !Matches(g, key, hash)
    {
      hide All, Count, PowerOfTwo, Spread, Chains, Holds, IsBucket;
      var i, pred, found, j := FindPointer(key, hash);
      h := found;
      if found != null {
        HoldsParts(list[..], buckets);
        BucketMembers(buckets, i);
        ghost var links := LinksOf(All(buckets));
        RemovePlan(links, list[..], buckets, i, j);
        ghost var slots := list[..][i := if j == 0 then HandleAt(buckets[i], 1) else list[i]];
        SetPointer(i, pred, found.nextHash);
        assert list[..] == slots;
        ghost var before := buckets;
        buckets := buckets[i := buckets[i][..j] + buckets[i][j + 1..]];
        ChainsAgree(links, SlotSet(before[i], j, HandleAt(before[i], j + 1)), slots, buckets);
        HoldsFrom(slots, buckets);
        assert Holds(list[..], buckets);
        elems := elems - 1;
        assert elems == Count(buckets);
      }
    }

    /** Rebuild with as many buckets as handles, moving every handle to the head of its new chain. */
    method Resize()
      requires Valid()
      modifies this, Contents()`nextHash
      ensures Valid() && Contents() == old(Contents()) && fresh(list)
    {
      hide All, Count, Holds, Spread, Chains, KeysUnique, IsBucket, PowerOfTwo;
      HoldsParts(list[..], buckets);
      SpreadIsAMap(buckets);
      ghost var all, before, slots := Contents(), buckets, list[..];
      ghost var links := LinksOf(all);
      var newLength := BucketsFor(elems);
      var newList := new Handle?[newLength](_ => null);
      ghost var after: seq<seq<Handle>> := seq(newLength, _ => []);
      CountOfEmpty(after);
      EmptyHolds(newList[..], after);
      NothingMoved(before);
      for i := 0 to list.Length
        invariant buckets == before && list == old(list) && list[..] == slots && elems == old(elems)
        invariant fresh(newList) && newList.Length == newLength && Holds(newList[..], after)
        invariant All(after) == All(before[..i]) && Count(after) == Count(before[..i])
        invariant forall g :: g in all && g !in All(after) ==> g.nextHash == links[g]
      {
        PrefixGrows(before, i);
        after := MoveChain(newList, after, list[i], links, slots, before, i, all);
      }
      assert before[..|before|] == before;
      list, buckets := newList, after;
    }
  }

  /** The inner loop of Resize: move a whole chain, following the links as they were. */
  method MoveChain(newList: array<Handle?>, ghost after: seq<seq<Handle>>, first: Handle?, ghost links: Links,
                   ghost slots: seq<Handle?>, ghost before: seq<seq<Handle>>, ghost i: nat, ghost all: set<Handle>)
    returns (ghost more: seq<seq<Handle>>)
    requires Spread(before) && Chains(links, slots, before) && i < |slots| == |before| && first == slots[i]
    requires all == All(before) && links.Keys == all && KeysUnique(all)
    requires newList.Length > 0 && Holds(newList[..], after) && All(after) == All(before[..i])
    requires forall g :: g in all && g !in All(after) ==> g.nextHash == links[g]
    modifies newList, all`nextHash
    ensures Holds(newList[..], more)
    ensures All(more) == All(before[..i]) + Members(before[i]) && Count(more) == Count(after) + |before[i]|
    ensures forall g :: g in all && g !in All(more) ==> g.nextHash == links[g]
  {
    hide All, Count, Holds, Spread, Chains, KeysUnique, IsBucket;
    var h := first;
    ghost var b, j := before[i], 0;
    more := after;
    ChainOf(links, slots, before, i);
    assert b[..0] == [];
    while h != null
      invariant Holds(newList[..], more) && j <= |b| && h == HandleAt(b, j)
      invariant All(more) == All(before[..i]) + Members(b[..j]) && Count(more) == Count(after) + j
      invariant forall g :: g in all && g !in All(more) ==> g.nextHash == links[g]
      decreases |b| - j
    {
      NotYetMoved(before, i, j);
      NextOf(links, first, b, j);
      var next := h.nextHash;
      more := MoveToHead(newList, more, h, all);
      MembersGrow(b, j);
      h := next;
      j := j + 1;
    }
    assert b[..|b|] == b;
  }

  /** A power of two, at least four, with room for `elems`. */
  method BucketsFor(elems: nat) returns (length: nat)
    ensures length >= 4 && length >= elems && PowerOfTwo(length)
    ensures length > 4 ==> length / 2 < elems
  {
    hide PowerOfTwo;
    length := 4;
    FourIsPower();
    while length < elems
      invariant length >= 4 && PowerOfTwo(length) && (length > 4 ==> length / 2 < elems)
      decreases elems - length
    {
      DoublePower(length);
      length := length * 2;
    }
  }

  /** Put a handle in front of its chain of the new array. */
  method MoveToHead(list: array<Handle?>, ghost buckets: seq<seq<Handle>>, h: Handle, ghost all: set<Handle>)
    returns (ghost more: seq<seq<Handle>>)
    requires list.Length > 0 && Holds(list[..], buckets) && h !in All(buckets)
    requires KeysUnique(all) && h in all && All(buckets) <= all
    modifies list, h`nextHash
    ensures Holds(list[..], more) && All(more) == All(buckets) + {h} && Count(more) == Count(buckets) + 1
  {
    hide All, Count, Spread, Chains, Chain, IsBucket, KeysUnique;
    var k := h.hash % list.Length;
    ghost var links := LinksOf(All(buckets));
    SameLength(links, list[..], buckets);
    ghost var b := buckets[k];
    ChainOf(links, list[..], buckets, k);
    BucketOf(buckets, k);
    BucketsAreApart(buckets, k);
    HandleIsApart(buckets, h);
    BucketMembers(buckets, k);
    InFront(links, list[k], b, h);
    FrontOfBucket(b, k, |buckets|, h, all);
    ghost var changed := map[h := list[k]];
    BucketChanged(links, list[..], buckets, k, [h] + b, changed, h);
    h.nextHash := list[k];
    list[k] := h;
    more := buckets[k := [h] + b];
    CountUpdate(buckets, k, [h] + b);
    SpreadUpdate(buckets, k, [h] + b);
    ReplacedMembers(buckets, k, [h] + b, {}, {h});
    ChainsAgree(links, changed, list[..], more);
  }

  lemma InFront(links: Links, first: Handle?, b: seq<Handle>, h: Handle)
    requires Chain(links, first, b) && h !in b
    ensures Chain(links + map[h := first], h, [h] + b)
  {
    forall j | 0 <= j < |b| + 1 ensures LinkAt(links + map[h := first], [h] + b, j) {
      if j > 0 {
        assert LinkAt(links, b, j - 1);
      }
    }
  }

  lemma FrontOfBucket(b: seq<Handle>, i: nat, length: nat, h: Handle, all: set<Handle>)
    requires length > 0 && IsBucket(b, i, length) && h.hash % length == i && h !in b
    requires KeysUnique(all) && h in all && Members(b) <= all
    ensures IsBucket([h] + b, i, length) && Members([h] + b) == Members(b) + {h}
  {
    assert forall g :: g in b ==> g in Members(b);
  }

  lemma EmptyHolds(list: seq<Handle?>, buckets: seq<seq<Handle>>)
    requires |list| == |buckets|
    requires forall i :: 0 <= i < |list| ==> list[i] == null && buckets[i] == []
    ensures Holds(list, buckets)
  {
  }

  lemma NothingMoved(buckets: seq<seq<Handle>>)
    ensures All(buckets[..0]) == {} && Count(buckets[..0]) == 0
  {
  }

  lemma NotYetMoved(buckets: seq<seq<Handle>>, i: nat, j: nat)
    requires Spread(buckets) && i < |buckets| && j < |buckets[i]|
    ensures All(buckets[..i]) + Members(buckets[i][..j]) <= All(buckets)
    ensures buckets[i][j] in All(buckets) && buckets[i][j] !in All(buckets[..i]) + Members(buckets[i][..j])
  {
    BucketsAreApart(buckets, i);
    assert IsBucket(buckets[i], i, |buckets|);
    var h := buckets[i][j];
    assert h in Members(buckets[i]);
    forall g | g in All(buckets[..i]) ensures g in All(buckets) {
      var m :| 0 <= m < i && g in buckets[..i][m];
      assert g in buckets[m];
    }
    forall g | g in Members(buckets[i][..j]) ensures g in All(buckets) {
      assert g in buckets[i];
    }
    assert forall m :: 0 <= m < i ==> h !in Members(buckets[m]);
  }

  lemma MembersGrow(b: seq<Handle>, j: nat)
    requires j < |b|
    ensures Members(b[..j + 1]) == Members(b[..j]) + {b[j]}
  {
    assert b[..j + 1] == b[..j] + [b[j]];
  }

  lemma PrefixGrows(buckets: seq<seq<Handle>>, i: nat)
    requires i < |buckets|
    ensures All(buckets[..i + 1]) == All(buckets[..i]) + Members(buckets[i])
    ensures Count(buckets[..i + 1]) == Count(buckets[..i]) + |buckets[i]|
  {
    assert buckets[..i + 1][..i] == buckets[..i];
    assert buckets[..i + 1] == buckets[..i] + [buckets[i]];
  }
}
