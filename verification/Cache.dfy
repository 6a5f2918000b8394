/** One shard of the cache (LRUCache in util/cache.cc): two intrusive lists, a hash table and reference counts. */
module LruCaches {
  import opened Coding
  import opened HandleTables

  /** `nodes` is a circular doubly linked list; its first node is the list's head. */
  ghost predicate Ring(nodes: seq<Handle>)
    reads Members(nodes)`next, Members(nodes)`prev
  {
    nodes != [] && forall i :: 0 <= i < |nodes| ==> Linked(nodes, i)
  }

  ghost predicate Linked(nodes: seq<Handle>, i: nat)
    requires i < |nodes|
    reads Members(nodes)`next, Members(nodes)`prev
  {
    var after := nodes[if i + 1 < |nodes| then i + 1 else 0];
    nodes[i].next == after && after.prev == nodes[i]
  }

  predicate Distinct(nodes: seq<Handle>) {
    forall i, j :: 0 <= i < j < |nodes| ==> nodes[i] != nodes[j]
  }

  function Charge(s: seq<Handle>): nat {
    if s == [] then 0 else s[0].charge + Charge(s[1..])
  }

  /** A list without `e`. */
  function Minus(s: seq<Handle>, e: Handle): seq<Handle> {
    if s == [] then [] else if s[0] == e then s[1..] else [s[0]] + Minus(s[1..], e)
  }

  lemma {:induction false} MinusAt(s: seq<Handle>, k: nat)
    requires Distinct(s) && k < |s|
    ensures Minus(s, s[k]) == s[..k] + s[k + 1..]
    ensures Charge(Minus(s, s[k])) == Charge(s) - s[k].charge
  {
    if k > 0 {
      MinusAt(s[1..], k - 1);
      assert s[1..][..k - 1] == s[..k][1..];
      assert s[..k] == [s[0]] + s[1..k];
    }
  }

  lemma {:induction false} MinusAbsent(s: seq<Handle>, e: Handle)
    requires e !in s
    ensures Minus(s, e) == s
  {
    if s != [] {
      MinusAbsent(s[1..], e);
    }
  }

  lemma {:induction false} MinusFacts(s: seq<Handle>, e: Handle)
    requires Distinct(s)
    ensures Members(Minus(s, e)) == Members(s) - {e} && Distinct(Minus(s, e))
    ensures Charge(Minus(s, e)) == Charge(s) - (if e in s then e.charge else 0)
  {
    if s != [] {
      var rest := s[1..];
      assert s == [s[0]] + rest;
      assert Members(s) == {s[0]} + Members(rest) && s[0] !in rest;
      if s[0] == e {
        assert Minus(s, e) == rest;
      } else {
        MinusFacts(rest, e);
        PrependDistinct(s[0], Minus(rest, e));
      }
    }
  }

  lemma PrependDistinct(h: Handle, s: seq<Handle>)
    requires Distinct(s) && h !in Members(s)
    ensures Distinct([h] + s) && Members([h] + s) == {h} + Members(s)
  {
    assert forall i :: 0 <= i < |s| ==> s[i] in Members(s);
  }

  lemma {:induction false} ChargeAppend(s: seq<Handle>, e: Handle)
    ensures Charge(s + [e]) == Charge(s) + e.charge
  {
    if s == [] {
      assert [e][1..] == [];
    } else {
      ChargeAppend(s[1..], e);
      assert (s + [e])[1..] == s[1..] + [e];
    }
  }

  /** LRU_Remove: unlink `e`, which stands at `k`. */
  method LruRemove(e: Handle, ghost nodes: seq<Handle>, ghost k: nat)
    requires Ring(nodes) && Distinct(nodes) && 0 < k < |nodes| && nodes[k] == e
    modifies Members(nodes)`next, Members(nodes)`prev
    ensures Ring(nodes[..k] + nodes[k + 1..])
  {
    assert Linked(nodes, k) && Linked(nodes, k - 1);
    ghost var n := |nodes|;
    assert e.next == nodes[if k + 1 < n then k + 1 else 0] && e.prev == nodes[k - 1];
    e.next.prev := e.prev;
    e.prev.next := e.next;
    ghost var rest := nodes[..k] + nodes[k + 1..];
    forall i | 0 <= i < |rest| ensures Linked(rest, i) {
      var j := if i < k then i else i + 1;
      assert old(Linked(nodes, j));
    }
  }

  /** LRU_Append: link `e` in just before the head. */
  method LruAppend(list: Handle, e: Handle, ghost nodes: seq<Handle>)
    requires Ring(nodes) && Distinct(nodes) && nodes[0] == list && e !in nodes
    modifies Members(nodes)`next, Members(nodes)`prev, e`next, e`prev
    ensures Ring(nodes + [e])
  {
    ghost var n := |nodes|;
    assert Linked(nodes, n - 1);
    e.next := list;
    e.prev := list.prev;
    e.prev.next := e;
    e.next.prev := e;
    ghost var more := nodes + [e];
    forall i | 0 <= i < |more| ensures Linked(more, i) {
      if i < n {
        assert old(Linked(nodes, i));
      }
    }
  }

  lemma {:induction false} OtherStays(s: seq<Handle>, d: Handle, e: Handle)
    requires e in s && e != d
    ensures e in Minus(s, d)
  {
    if s[0] != d && s[0] != e {
      OtherStays(s[1..], d, e);
    }
  }

  /** A ring of a head and a list, its element `e` and where it stands. */
  lemma RingParts(head: Handle, s: seq<Handle>, e: Handle) returns (k: nat)
    requires Distinct(s) && head !in Members(s) && e in s
    ensures k < |s| && ([head] + s)[k + 1] == e && Distinct([head] + s)
    ensures ([head] + s)[..k + 1] + ([head] + s)[k + 2..] == [head] + Minus(s, e)
  {
    k :| 0 <= k < |s| && s[k] == e;
    MinusAt(s, k);
    PrependDistinct(head, s);
  }

  /** Take an element off a list, through the ring. */
  method RingRemove(ghost head: Handle, e: Handle, ghost s: seq<Handle>)
    requires Ring([head] + s) && Distinct(s) && head !in Members(s) && e in s
    modifies Members([head] + s)`next, Members([head] + s)`prev
    ensures Ring([head] + Minus(s, e))
  {
    hide Ring, Distinct, Minus;
    ghost var k := RingParts(head, s, e);
    LruRemove(e, [head] + s, k + 1);
  }

  /** Put an element at the end of a list, through the ring. */
  method RingAppend(head: Handle, e: Handle, ghost s: seq<Handle>)
    requires Ring([head] + s) && Distinct([head] + s) && e !in [head] + s
    modifies Members([head] + s)`next, Members([head] + s)`prev, e`next, e`prev
    ensures Ring([head] + (s + [e]))
  {
    hide Ring, Distinct;
    LruAppend(head, e, [head] + s);
    assert [head] + s + [e] == [head] + (s + [e]);
  }

  lemma AppendDistinct(s: seq<Handle>, e: Handle)
    requires Distinct(s) && e !in Members(s)
    ensures Distinct(s + [e]) && Members(s + [e]) == Members(s) + {e}
  {
    assert forall i :: 0 <= i < |s| ==> s[i] in Members(s);
  }

  class LRUCache {
    const capacity: nat
    const lru: Handle
    const inUse: Handle
    const table: HandleTable
    var usage: nat
    /** Cached entries no client holds, oldest first, and those some client holds. */
    ghost var lruList: seq<Handle>
    ghost var inUseList: seq<Handle>
    /** The handles clients hold, and every entry ever made. */
    ghost var clients: multiset<Handle>
    ghost var handles: set<Handle>

    ghost function Cached(): set<Handle>
      reads `lruList, `inUseList
    {
      Members(lruList) + Members(inUseList)
    }

    /** The objects whose links the two lists use. */
    ghost predicate Lists()
      reads `lruList, `inUseList, Members([lru] + lruList)`next, Members([lru] + lruList)`prev
      reads Members([inUse] + inUseList)`next, Members([inUse] + inUseList)`prev
    {
      Ring([lru] + lruList) && Ring([inUse] + inUseList)
    }

    ghost predicate Layout()
      reads `lruList, `inUseList, `handles, `clients
    {
      && Distinct(lruList) && Distinct(inUseList) && Members(lruList) !! Members(inUseList)
      && lru != inUse && lru !in handles && inUse !in handles && Cached() <= handles
      && forall h :: h in clients ==> h in handles
    }

    /** References are clients' plus the cache's own; `extra` has those about to be dropped. An entry without references
        has been deleted, once. */
    ghost predicate Counts(extra: multiset<Handle>, cached: set<Handle>)
      reads `handles, `clients, handles`refs, handles`inCache, handles`deletions
    {
      (forall h :: h in extra ==> h in handles) && forall h :: h in handles ==> Counted(h, extra, cached)
    }

    ghost predicate Counted(h: Handle, extra: multiset<Handle>, cached: set<Handle>)
      reads `clients, h`refs, h`inCache, h`deletions
    {
      && (h.inCache <==> h in cached)
      && h.refs == clients[h] + extra[h] + (if h.inCache then 1 else 0)
      && h.deletions == (if h.refs == 0 then 1 else 0)
    }

    /** Only the cache refers to what is on the LRU list; someone else does to what is in use. */
    ghost predicate ListRefs(idle: set<Handle>, busy: set<Handle>)
      reads idle`refs, busy`refs
    {
      (forall h :: h in idle ==> h.refs == 1) && forall h :: h in busy ==> h.refs >= 2
    }

    /** `gone` has left the table but not yet the lists. */
    ghost predicate InTable(gone: set<Handle>)
      reads `lruList, `inUseList, table, table.list, table.Contents()`nextHash
    {
      table.Valid() && gone <= Cached() && table.Contents() == Cached() - gone
    }

    ghost predicate State(extra: multiset<Handle>, gone: set<Handle>)
      reads this, table, table.list, table.Contents()`nextHash, handles`refs, handles`inCache, handles`deletions
      reads Members([lru] + lruList)`next, Members([lru] + lruList)`prev
      reads Members([inUse] + inUseList)`next, Members([inUse] + inUseList)`prev
    {
      && Layout() && Lists() && Counts(extra, Cached()) && ListRefs(Members(lruList), Members(inUseList))
      && InTable(gone) && usage == Charge(lruList) + Charge(inUseList)
    }

    /** What holds between calls. */
    ghost predicate Valid()
      reads this, table, table.list, table.Contents()`nextHash, handles`refs, handles`inCache, handles`deletions
      reads Members([lru] + lruList)`next, Members([lru] + lruList)`prev
      reads Members([inUse] + inUseList)`next, Members([inUse] + inUseList)`prev
    {
      State(multiset{}, {})
    }

    constructor (capacity: nat)
      ensures Valid() && this.capacity == capacity && lruList == [] && inUseList == [] && clients == multiset{} && handles == {}
      ensures fresh(table) && fresh(table.list) && fresh(lru) && fresh(inUse)
    {
      this.capacity := capacity;
      var a := new Handle([], 0, 0);
      var b := new Handle([], 0, 0);
      a.next, a.prev, b.next, b.prev := a, a, b, b;
      lru, inUse := a, b;
      table := new HandleTable();
      usage, lruList, inUseList, clients, handles := 0, [], [], multiset{}, {};
      new;
      assert [lru] + lruList == [lru] && [inUse] + inUseList == [inUse];
      assert Linked([lru], 0) && Linked([inUse], 0);
      assert Members(lruList) == {} && Members(inUseList) == {} && Cached() - {} == {};
      assert InTable({});
    }

    /** Move an entry from the LRU list to the end of the in-use list. */
    method MoveToInUse(e: Handle)
      requires Layout() && Lists() && e in lruList
      modifies this`lruList, this`inUseList, handles`next, handles`prev, lru`next, lru`prev, inUse`next, inUse`prev
      ensures Layout() && Lists()
      ensures lruList == Minus(old(lruList), e) && inUseList == old(inUseList) + [e] && Cached() == old(Cached())
      ensures Members(lruList) == Members(old(lruList)) - {e} && Members(inUseList) == Members(old(inUseList)) + {e}
    {
      hide Ring, Minus, Distinct, Members;
      ListsApart(e);
      RingRemove(lru, e, lruList);
      assert Ring([inUse] + inUseList);
      RingAppend(inUse, e, inUseList);
      assert Ring([lru] + Minus(lruList, e));
      lruList, inUseList := Minus(lruList, e), inUseList + [e];
    }

    /** Move an entry from the in-use list to the end of the LRU list: it is now the newest there. */
    method MoveToLru(e: Handle)
      requires Layout() && Lists() && e in inUseList
      modifies this`lruList, this`inUseList, handles`next, handles`prev, lru`next, lru`prev, inUse`next, inUse`prev
      ensures Layout() && Lists()
      ensures inUseList == Minus(old(inUseList), e) && lruList == old(lruList) + [e] && Cached() == old(Cached())
      ensures Members(inUseList) == Members(old(inUseList)) - {e} && Members(lruList) == Members(old(lruList)) + {e}
    {
      hide Ring, Minus, Distinct, Members;
      ListsApart(e);
      RingRemove(inUse, e, inUseList);
      assert Ring([lru] + lruList);
      RingAppend(lru, e, lruList);
      assert Ring([inUse] + Minus(inUseList, e));
      inUseList, lruList := Minus(inUseList, e), lruList + [e];
    }

    lemma NodesAreHandles()
      requires Layout()
      ensures lru != inUse && lru !in handles && inUse !in handles && Cached() <= handles
      ensures Members([lru] + lruList) <= {lru} + handles && Members([inUse] + inUseList) <= {inUse} + handles
    {
      assert forall h :: h in lruList || h in inUseList ==> h in Cached();
    }

    /** The lists share no node, and stay distinct when `e` leaves one or joins the other. */
    lemma ListsApart(e: Handle)
      requires Layout() && (e in lruList || e in inUseList)
      ensures e in handles && (e in lruList ==> e in Members(lruList)) && (e in inUseList ==> e in Members(inUseList))
      ensures Members([lru] + lruList) == {lru} + Members(lruList) && Members([inUse] + inUseList) == {inUse} + Members(inUseList)
      ensures Distinct([lru] + lruList) && Distinct([inUse] + inUseList)
      ensures Distinct(Minus(lruList, e)) && Members(Minus(lruList, e)) == Members(lruList) - {e}
      ensures Distinct(Minus(inUseList, e)) && Members(Minus(inUseList, e)) == Members(inUseList) - {e}
      ensures e !in Minus(lruList, e) && e !in Minus(inUseList, e)
      ensures Members([lru] + Minus(lruList, e)) == {lru} + Members(lruList) - {e}
      ensures Members([inUse] + Minus(inUseList, e)) == {inUse} + Members(inUseList) - {e}
      ensures e in lruList ==> e !in [inUse] + inUseList && Distinct(inUseList + [e]) && Members(inUseList + [e]) == Members(inUseList) + {e}
      ensures e in inUseList ==> e !in [lru] + lruList && Distinct(lruList + [e]) && Members(lruList + [e]) == Members(lruList) + {e}
    {
      assert e in Cached();
      MinusFacts(lruList, e);
      MinusFacts(inUseList, e);
      PrependDistinct(lru, lruList);
      PrependDistinct(inUse, inUseList);
      assert e !in Members(Minus(lruList, e)) && e !in Members(Minus(inUseList, e));
      PrependDistinct(lru, Minus(lruList, e));
      PrependDistinct(inUse, Minus(inUseList, e));
      assert forall h :: h in lruList ==> h in Members(lruList);
      assert forall h :: h in inUseList ==> h in Members(inUseList);
      if e in lruList {
        AppendDistinct(inUseList, e);
      } else {
        AppendDistinct(lruList, e);
      }
    }

    /** A client's reference is counted. */
    method Increment(e: Handle, ghost cached: set<Handle>, ghost idle: set<Handle>, ghost busy: set<Handle>)
      requires Layout() && Counts(multiset{}, cached) && e in handles && e.refs > 0
      requires ListRefs(idle, busy - {e}) && e !in idle
      modifies e`refs, `clients
      ensures Layout() && Counts(multiset{}, cached) && clients == old(clients) + multiset{e} && e.refs == old(e.refs) + 1
      ensures ListRefs(idle, busy)
    {
      assert Counted(e, multiset{}, cached);
      e.refs := e.refs + 1;
      clients := clients + multiset{e};
      forall h | h in handles ensures Counted(h, multiset{}, cached) {
        assert old(Counted(h, multiset{}, cached));
      }
    }

    /** The reference that was about to be dropped is; the last one deletes the entry. */
    method Decrement(e: Handle, ghost cached: set<Handle>)
      requires Counts(multiset{e}, cached) && e in handles
      modifies e`refs, e`deletions
      ensures Counts(multiset{}, cached) && e.refs == old(e.refs) - 1
      ensures e.refs == 0 ==> !e.inCache && e.deletions == old(e.deletions) + 1
    {
      assert Counted(e, multiset{e}, cached);
      e.refs := e.refs - 1;
      if e.refs == 0 {
        e.deletions := e.deletions + 1;
      }
      forall h | h in handles ensures Counted(h, multiset{}, cached) {
        assert old(Counted(h, multiset{e}, cached));
      }
    }

    /** The cache's own reference is about to be dropped. */
    method Uncache(e: Handle, ghost cached: set<Handle>)
      requires Counts(multiset{}, cached) && e in handles && e in cached
      modifies e`inCache
      ensures Counts(multiset{e}, cached - {e}) && !e.inCache
    {
      assert Counted(e, multiset{}, cached);
      e.inCache := false;
      forall h | h in handles ensures Counted(h, multiset{e}, cached - {e}) {
        assert old(Counted(h, multiset{}, cached));
      }
    }

    /** Which list an entry is on shows in its references. */
    lemma OnLruList(extra: multiset<Handle>, e: Handle)
      requires Layout() && Counts(extra, Cached()) && ListRefs(Members(lruList), Members(inUseList)) && e in handles
      ensures e.refs == 1 && e.inCache <==> e in lruList
      ensures e.inCache && e.refs >= 2 <==> e in inUseList
      ensures e.inCache <==> e in Cached()
      ensures e in lruList <==> e in Members(lruList)
      ensures e in inUseList <==> e in Members(inUseList)
      ensures e.refs >= extra[e]
    {
      assert Counted(e, extra, Cached());
    }

    lemma MovedCharge(e: Handle)
      requires Layout() && (e in lruList || e in inUseList)
      ensures Charge(Minus(lruList, e)) + Charge(Minus(inUseList, e)) == Charge(lruList) + Charge(inUseList) - e.charge
      ensures Charge(lruList + [e]) == Charge(lruList) + e.charge && Charge(inUseList + [e]) == Charge(inUseList) + e.charge
      ensures e in lruList ==> Minus(inUseList, e) == inUseList
      ensures e in inUseList ==> Minus(lruList, e) == lruList
    {
      MinusFacts(lruList, e);
      MinusFacts(inUseList, e);
      ChargeAppend(lruList, e);
      ChargeAppend(inUseList, e);
      assert e in lruList ==> e in Members(lruList);
      assert e in inUseList ==> e in Members(inUseList);
      if e in lruList {
        MinusAbsent(inUseList, e);
      } else {
        MinusAbsent(lruList, e);
      }
    }

    /** Take one more reference for a client. */
    method Ref(e: Handle)
      requires Valid() && e in handles && e.refs > 0
      modifies this`lruList, this`inUseList, this`clients, handles`next, handles`prev, lru`next, lru`prev, inUse`next, inUse`prev, e`refs
      ensures Valid() && clients == old(clients) + multiset{e}
      ensures lruList == Minus(old(lruList), e)
      ensures inUseList == if e in old(lruList) then old(inUseList) + [e] else old(inUseList)
      ensures Cached() == old(Cached())
    {
      hide Lists, Ring, HandleTable.Valid, Minus, Charge, Distinct, Counts, Members, ListRefs;
      MakeBusy(e);
      NodesAreHandles();
      Increment(e, Cached(), Members(lruList), Members(inUseList));
    }

    /** An idle entry about to be used goes to the in-use list. */
    method MakeBusy(e: Handle)
      requires Valid() && e in handles && e.refs > 0
      modifies this`lruList, this`inUseList, handles`next, handles`prev, lru`next, lru`prev, inUse`next, inUse`prev
      ensures Layout() && Lists() && Counts(multiset{}, Cached()) && ListRefs(Members(lruList), Members(inUseList) - {e})
      ensures InTable({}) && usage == Charge(lruList) + Charge(inUseList)
      ensures lruList == Minus(old(lruList), e) && e !in Members(lruList)
      ensures inUseList == if e in old(lruList) then old(inUseList) + [e] else old(inUseList)
      ensures Cached() == old(Cached())
    {
      hide Layout, Lists, Ring, HandleTable.Valid, Minus, Charge, Distinct, Counts, Members, ListRefs;
      OnLruList(multiset{}, e);
      RefsOfFewer(e);
      NodesAreHandles();
      if e.refs == 1 && e.inCache {
        MovedCharge(e);
        MoveToInUse(e);
        assert table.Valid() && table.Contents() == old(table.Contents());
        assert Members(inUseList) - {e} == old(Members(inUseList)) - {e};
        assert ListRefs(Members(lruList), Members(inUseList) - {e});
      } else {
        MinusAbsent(lruList, e);
        RefsWithout(e);
      }
    }

    lemma RefsWithout(e: Handle)
      requires ListRefs(Members(lruList), Members(inUseList))
      ensures ListRefs(Members(lruList), Members(inUseList) - {e})
    {
    }

    /** Drop one reference; the last one deletes the entry, and the last but the cache's own makes it evictable. */
    method Unref(e: Handle)
      requires State(multiset{e}, {}) && e in handles
      modifies this`lruList, this`inUseList, handles`next, handles`prev, lru`next, lru`prev, inUse`next, inUse`prev, e`refs, e`deletions
      ensures Valid()
      ensures if e in old(inUseList) && e.refs == 1 then inUseList == Minus(old(inUseList), e) && lruList == old(lruList) + [e]
              else inUseList == old(inUseList) && lruList == old(lruList)
      ensures e.refs == old(e.refs) - 1 && Cached() == old(Cached())
    {
      hide Layout, Lists, Ring, HandleTable.Valid, Minus, Charge, Distinct, Counts, Members;
      OnLruList(multiset{e}, e);
      NotIdle(e);
      NodesAreHandles();
      Decrement(e, Cached());
      assert table.Valid() && table.Contents() == old(table.Contents());
      if e.refs != 0 && e.inCache && e.refs == 1 {
        MovedCharge(e);
        MoveToLru(e);
        assert table.Valid() && table.Contents() == old(table.Contents());
      }
    }

    lemma NotIdle(e: Handle)
      requires State(multiset{e}, {}) && e in handles
      ensures e !in lruList
    {
      assert Counted(e, multiset{e}, Cached());
      assert e in lruList ==> e in Members(lruList);
    }

    /** Finish taking an entry out of the cache; it has left the table already. */
    method FinishErase(e: Handle?)
      requires if e == null then Valid() else State(multiset{}, {e})
      modifies this`usage, this`lruList, this`inUseList, handles`next, handles`prev, lru`next, lru`prev, inUse`next, inUse`prev,
               handles`refs, handles`deletions, handles`inCache
      ensures Valid()
      ensures e == null ==> lruList == old(lruList) && inUseList == old(inUseList) && usage == old(usage)
      ensures e != null ==> lruList == Minus(old(lruList), e) && inUseList == Minus(old(inUseList), e)
      ensures e != null ==> !e.inCache && usage == old(usage) - e.charge
      ensures Cached() == old(Cached()) - Only(e)
    {
      hide Ring, HandleTable.Valid, Minus, Charge, Distinct, Counts, Members;
      if e != null {
        Detach(e);
        Unref(e);
      }
    }

    /** Off its list, out of the usage, and with the cache's reference about to be dropped. */
    method Detach(e: Handle)
      requires State(multiset{}, {e})
      modifies this`usage, this`lruList, this`inUseList, handles`next, handles`prev, lru`next, lru`prev, inUse`next, inUse`prev, e`inCache
      ensures State(multiset{e}, {}) && e in handles && !e.inCache && usage == old(usage) - e.charge
      ensures lruList == Minus(old(lruList), e) && inUseList == Minus(old(inUseList), e) && e !in inUseList
      ensures Cached() == old(Cached()) - {e}
    {
      hide Layout, Lists, Ring, HandleTable.Valid, Minus, Charge, Distinct, Counts, Members, ListRefs;
      ghost var cached := Cached();
      OnSomeList(e);
      TakeOff(e);
      NodesAreHandles();
      Uncache(e, cached);
      assert Cached() - {} == cached - {e};
      assert table.Valid() && table.Contents() == cached - {e};
    }

    /** Off its list and out of the usage. */
    method TakeOff(e: Handle)
      requires State(multiset{}, {e})
      modifies this`usage, this`lruList, this`inUseList, handles`next, handles`prev, lru`next, lru`prev, inUse`next, inUse`prev
      ensures Layout() && Lists() && Counts(multiset{}, old(Cached())) && ListRefs(Members(lruList), Members(inUseList))
      ensures table.Valid() && table.Contents() == old(table.Contents()) && usage == Charge(lruList) + Charge(inUseList)
      ensures lruList == Minus(old(lruList), e) && inUseList == Minus(old(inUseList), e) && e !in inUseList
      ensures Cached() == old(Cached()) - {e} && usage == old(usage) - e.charge
    {
      hide Layout, Lists, Ring, HandleTable.Valid, Minus, Charge, Distinct, Counts, Members, ListRefs;
      OnSomeList(e);
      MovedCharge(e);
      RefsOfFewer(e);
      NodesAreHandles();
      Unlink(e);
      assert table.Valid() && table.Contents() == old(table.Contents());
      usage := usage - e.charge;
    }

    lemma OnSomeList(e: Handle)
      requires Layout() && e in Cached()
      ensures e in handles && (e in lruList || e in inUseList)
    {
    }

    lemma RefsOfFewer(e: Handle)
      requires ListRefs(Members(lruList), Members(inUseList))
      ensures ListRefs(Members(lruList) - {e}, Members(inUseList) - {e})
    {
    }

    /** Take an entry off the list it is on. */
    method Unlink(e: Handle)
      requires Layout() && Lists() && (e in lruList || e in inUseList)
      modifies this`lruList, this`inUseList, handles`next, handles`prev, lru`next, lru`prev, inUse`next, inUse`prev
      ensures Layout() && Lists()
      ensures lruList == Minus(old(lruList), e) && inUseList == Minus(old(inUseList), e) && Cached() == old(Cached()) - {e}
      ensures Members(lruList) == Members(old(lruList)) - {e} && Members(inUseList) == Members(old(inUseList)) - {e}
      ensures e !in lruList && e !in inUseList
    {
      hide Ring, Minus, Distinct, Members;
      ListsApart(e);
      MovedCharge(e);
      RingRemove(if e in lruList then lru else inUse, e, if e in lruList then lruList else inUseList);
      assert if e in lruList then Ring([inUse] + inUseList) else Ring([lru] + lruList);
      lruList, inUseList := Minus(lruList, e), Minus(inUseList, e);
    }

    // ----- The cache's operations -----

    /** A handle with this key if the cache has one, now held by one more client. */
    method Lookup(key: Bytes, hash: nat) returns (h: Handle?)
      requires Valid()
      modifies this, handles, lru, inUse
      ensures Valid() && Cached() == old(Cached()) && handles == old(handles)
      ensures h == null ==> lruList == old(lruList) && inUseList == old(inUseList)
      ensures h == null ==> clients == old(clients) && forall g :: g in Cached() ==> !Matches(g, key, hash)
      ensures h != null ==> h in Cached() && Matches(h, key, hash) && clients == old(clients) + multiset{h}
      ensures h != null ==> lruList == Minus(old(lruList), h) && h.deletions == 0
    {
      hide Ring, HandleTable.Valid, Minus, Charge, Distinct, Counts, ListRefs, Members;
      NodesAreHandles();
      h := table.Lookup(key, hash);
      if h != null {
        CachedIsCounted(h);
        Ref(h);
        CachedIsCounted(h);
      }
    }

    lemma CachedIsCounted(e: Handle)
      requires Valid() && e in Cached()
      ensures e in handles && e.refs > 0 && e.deletions == 0
    {
      assert Counted(e, multiset{}, Cached());
    }

    /** A client gives a handle back; a cached entry that no client holds any more becomes the newest idle one. */
    method Release(h: Handle)
      requires Valid() && h in clients
      modifies this, handles, lru, inUse
      ensures Valid() && clients == old(clients) - multiset{h} && Cached() == old(Cached()) && handles == old(handles)
      ensures h.deletions == 1 <==> h !in Cached() && h !in clients
      ensures if h in old(inUseList) && h !in clients then inUseList == Minus(old(inUseList), h) && lruList == old(lruList) + [h]
              else inUseList == old(inUseList) && lruList == old(lruList)
    {
      hide Ring, HandleTable.Valid, Minus, Charge, Distinct, Counts, ListRefs, Members;
      NodesAreHandles();
      HeldIsAlive(h);
      OnLruList(multiset{}, h);
      GiveUp(h);
      Unref(h);
      CachedRefs(h);
      DeletedOnceUnreferenced(h);
    }

    lemma CachedRefs(h: Handle)
      requires Valid() && h in handles
      ensures h in Cached() ==> (h.refs == 1 <==> h !in clients)
    {
      assert Counted(h, multiset{}, Cached());
    }

    /** From a client's reference to one about to be dropped. */
    ghost method GiveUp(h: Handle)
      requires Layout() && Counts(multiset{}, Cached()) && h in clients
      modifies `clients
      ensures Layout() && Counts(multiset{h}, Cached()) && clients == old(clients) - multiset{h}
    {
      clients := clients - multiset{h};
      forall g | g in handles ensures Counted(g, multiset{h}, Cached()) {
        assert old(Counted(g, multiset{}, Cached()));
      }
    }

    /** A handle a client holds has not been deleted. */
    lemma HeldIsAlive(h: Handle)
      requires Valid() && h in clients
      ensures h in handles && h.refs > 0 && h.deletions == 0
    {
      assert Counted(h, multiset{}, Cached());
    }

    /** Every entry ever made is deleted at most once: exactly when neither the cache nor a client refers to it. */
    lemma DeletedOnceUnreferenced(h: Handle)
      requires Valid() && h in handles
      ensures h.deletions <= 1
      ensures h.deletions == 1 <==> h !in Cached() && h !in clients
    {
      assert Counted(h, multiset{}, Cached());
    }

    lemma FirstIdle()
      requires Layout() && Lists()
      ensures lru.next == lru <==> lruList == []
      ensures lruList != [] ==> lru.next == lruList[0] && lruList[0] in Cached()
    {
      var nodes := [lru] + lruList;
      assert Linked(nodes, 0);
      if lruList != [] {
        assert nodes[1] == lruList[0];
        assert lruList[0] in Cached();
      }
    }

    /** Evict the entry that has been idle longest. */
    method EvictOldest()
      requires Valid() && lruList != []
      modifies this, table, table.list, handles, lru, inUse
      ensures Valid() && lruList == old(lruList)[1..] && inUseList == old(inUseList)
      ensures clients == old(clients) && handles == old(handles) && table.list == old(table.list)
      ensures usage == old(usage) - old(lruList)[0].charge
    {
      hide Lists, HandleTable.Valid, Minus, Charge, Distinct, Counts, ListRefs, Members;
      FirstIdle();
      var oldest := lru.next;
      assert oldest == lruList[0];
      table.IsAMap();
      WithoutFirst(oldest);
      NodesAreHandles();
      var found := table.Remove(oldest.key, oldest.hash);
      assert found == oldest;
      FinishErase(found);
    }

    lemma WithoutFirst(e: Handle)
      requires Layout() && lruList != [] && lruList[0] == e
      ensures Minus(lruList, e) == lruList[1..] && Minus(inUseList, e) == inUseList && e in Cached()
    {
      assert e in Members(lruList);
      MinusAbsent(inUseList, e);
    }

    /** Take a new entry in, held by the cache and by the client that made it. */
    method Adopt(e: Handle)
      requires Valid() && e !in handles && e != lru && e != inUse
      requires e.refs == 1 && !e.inCache && e.deletions == 0
      modifies this`usage, this`inUseList, this`clients, this`handles, handles`next, handles`prev, inUse`next, inUse`prev, e
      ensures Layout() && Lists() && Counts(multiset{}, Cached()) && ListRefs(Members(lruList), Members(inUseList))
      ensures usage == Charge(lruList) + Charge(inUseList) && inUseList == old(inUseList) + [e]
      ensures clients == old(clients) + multiset{e} && handles == old(handles) + {e} && Cached() == old(Cached()) + {e}
    {
      hide Ring, HandleTable.Valid, Minus, Charge, Distinct, Counts, Members, ListRefs;
      NewIsApart(e);
      NodesAreHandles();
      ghost var more, idle, busy := Cached() + {e}, Members(lruList), Members(inUseList);
      e.refs := e.refs + 1;
      e.inCache := true;
      RefsOfMore(idle, busy, e);
      CountNew(e, Cached(), more);
      LinkInUse(e);
      usage := usage + e.charge;
      assert Cached() == more;
    }

    lemma RefsOfMore(idle: set<Handle>, busy: set<Handle>, e: Handle)
      requires ListRefs(idle, busy) && e.refs >= 2
      ensures ListRefs(idle, busy + {e})
    {
    }

    /** Put a new entry at the end of the in-use list. */
    method LinkInUse(e: Handle)
      requires Lists() && e != inUse && e !in [inUse] + inUseList && e !in Members([lru] + lruList)
      requires Distinct([inUse] + inUseList) && Members([lru] + lruList) !! Members([inUse] + inUseList)
      modifies this`inUseList, Members([inUse] + inUseList)`next, Members([inUse] + inUseList)`prev, e`next, e`prev
      ensures Lists() && inUseList == old(inUseList) + [e]
    {
      hide Distinct;
      ghost var idle, busy := [lru] + lruList, [inUse] + inUseList;
      assert forall h :: h in Members(idle) ==> h !in Members(busy) && h != e;
      LruAppend(inUse, e, busy);
      assert Ring(idle);
      assert busy + [e] == [inUse] + (inUseList + [e]);
      inUseList := inUseList + [e];
    }

    lemma NewIsApart(e: Handle)
      requires Layout() && e !in handles && e != inUse
      ensures e !in Cached() && e !in [inUse] + inUseList && e !in Members(lruList) && e !in Members(inUseList)
      ensures Members([lru] + lruList) !! Members([inUse] + inUseList) && (e != lru ==> e !in Members([lru] + lruList))
      ensures Distinct([inUse] + inUseList) && Distinct(inUseList + [e]) && Members(inUseList + [e]) == Members(inUseList) + {e}
      ensures Charge(inUseList + [e]) == Charge(inUseList) + e.charge
    {
      assert forall h :: h in inUseList || h in lruList ==> h in Cached();
      PrependDistinct(inUse, inUseList);
      PrependDistinct(lru, lruList);
      AppendDistinct(inUseList, e);
      ChargeAppend(inUseList, e);
    }

    /** A new entry is counted with its client's reference, and the cache's if it is cached. */
    ghost method CountNew(e: Handle, cached: set<Handle>, more: set<Handle>)
      requires Counts(multiset{}, cached) && e !in handles && e !in cached && more - {e} == cached
      requires e !in clients && e.deletions == 0
      requires (e.inCache <==> e in more) && e.refs == 1 + (if e.inCache then 1 else 0)
      modifies `clients, `handles
      ensures Counts(multiset{}, more) && clients == old(clients) + multiset{e} && handles == old(handles) + {e}
    {
      clients, handles := clients + multiset{e}, handles + {e};
      forall h | h in handles ensures Counted(h, multiset{}, more) {
        if h != e {
          assert old(Counted(h, multiset{}, cached));
        }
      }
    }

    /** A new entry for the key. It takes the place of one with the same key, and idle entries are evicted, oldest first and no
        more of them than needed, until the cache fits or none is left. */
    method Insert(key: Bytes, hash: nat, charge: nat) returns (h: Handle, ghost displaced: Handle?, ghost evicted: nat)
      requires Valid()
      modifies this, table, table.list, handles, lru, inUse
      ensures Valid() && fresh(h) && h.key == key && h.hash == hash && h.charge == charge
      ensures clients == old(clients) + multiset{h} && handles == old(handles) + {h}
      ensures usage <= capacity || lruList == []
      ensures displaced != null ==> displaced in old(Cached()) && Matches(displaced, key, hash) && capacity > 0
      ensures var idle := if displaced == null then old(lruList) else Minus(old(lruList), displaced);
        && evicted <= |idle| && lruList == idle[evicted..]
        && (evicted > 0 ==> usage + idle[evicted - 1].charge > capacity)
      ensures inUseList == if capacity == 0 then old(inUseList)
                           else if displaced == null then old(inUseList) + [h]
                           else Minus(old(inUseList) + [h], displaced)
      ensures capacity > 0 ==> h in Cached() && forall g :: g in Cached() && Matches(g, key, hash) ==> g == h
    {
      hide Ring, HandleTable.Valid, Minus, Charge, Distinct, Counts, Members, ListRefs;
      NodesAreHandles();
      h := new Handle(key, hash, charge);
      displaced := null;
      if capacity > 0 {
        displaced := Cache(h);
      } else {
        h.next := null;
        CountNew(h, Cached(), Cached());
      }
      evicted := Evict();
      CachedIsAMap();
      BusyIsCached();
    }

    /** Insert's last part: evict idle entries while the cache is too full. */
    method Evict() returns (ghost evicted: nat)
      requires Valid()
      modifies this, table, table.list, handles, lru, inUse
      ensures Valid() && inUseList == old(inUseList) && clients == old(clients) && handles == old(handles)
      ensures usage <= capacity || lruList == []
      ensures evicted <= |old(lruList)| && lruList == old(lruList)[evicted..]
      ensures evicted > 0 ==> usage + old(lruList)[evicted - 1].charge > capacity
    {
      hide Ring, HandleTable.Valid, Minus, Charge, Distinct, Counts, Members, ListRefs;
      ghost var idle := lruList;
      evicted := 0;
      assert lruList == idle[0..];
      FirstIdle();
      while usage > capacity && lru.next != lru
        invariant Valid() && inUseList == old(inUseList) && clients == old(clients) && handles == old(handles)
        invariant evicted <= |idle| && lruList == idle[evicted..]
        invariant table.list == old(table.list)
        invariant lru.next == lru <==> lruList == []
        invariant evicted > 0 ==> usage + idle[evicted - 1].charge > capacity
        decreases |idle| - evicted
      {
        EvictOldest();
        evicted := evicted + 1;
        FirstIdle();
      }
    }

    lemma BusyIsCached()
      ensures forall g :: g in inUseList ==> g in Cached()
    {
    }

    /** Insert's first part, with caching on. */
    method Cache(e: Handle) returns (displaced: Handle?)
      requires Valid() && e !in handles && e != lru && e != inUse
      requires e.refs == 1 && !e.inCache && e.deletions == 0
      modifies this, table, table.list, handles, lru, inUse, e
      ensures Valid() && (table.list == old(table.list) || fresh(table.list))
      ensures clients == old(clients) + multiset{e} && handles == old(handles) + {e}
      ensures displaced != null ==> displaced in old(Cached()) && Matches(displaced, e.key, e.hash)
      ensures e in inUseList
      ensures lruList == if displaced == null then old(lruList) else Minus(old(lruList), displaced)
      ensures inUseList == if displaced == null then old(inUseList) + [e] else Minus(old(inUseList) + [e], displaced)
    {
      hide Ring, HandleTable.Valid, Minus, Charge, Distinct, Counts, Members, ListRefs;
      displaced := Enter(e);
      if displaced != null {
        OtherStays(inUseList, displaced, e);
      }
      FinishErase(displaced);
    }

    /** Put a new entry on the in-use list and into the table; one with the same key has then left the table. */
    method Enter(e: Handle) returns (displaced: Handle?)
      requires Valid() && e !in handles && e != lru && e != inUse
      requires e.refs == 1 && !e.inCache && e.deletions == 0
      modifies this, table, table.list, handles, lru, inUse, e
      ensures if displaced == null then Valid() else State(multiset{}, {displaced})
      ensures table.list == old(table.list) || fresh(table.list)
      ensures clients == old(clients) + multiset{e} && handles == old(handles) + {e}
      ensures displaced != null ==> displaced in old(Cached()) && Matches(displaced, e.key, e.hash)
      ensures lruList == old(lruList) && inUseList == old(inUseList) + [e]
      ensures lru !in handles && inUse !in handles
    {
      hide Ring, HandleTable.Valid, Minus, Charge, Distinct, Counts, Members, ListRefs;
      NodesAreHandles();
      ghost var cached := Cached();
      assert cached - {} == cached;
      Adopt(e);
      assert table.Valid() && table.Contents() == cached;
      NodesAreHandles();
      displaced := table.Insert(e);
      assert Cached() - Only(displaced) == cached - Only(displaced) + {e};
    }

    lemma CachedIsAMap()
      requires Valid()
      ensures KeysUnique(Cached())
    {
      table.IsAMap();
      assert Cached() - {} == Cached();
    }

    /** Forget a key: its entry lives on while clients hold it. */
    method Erase(key: Bytes, hash: nat)
      requires Valid()
      modifies this, table, table.list, handles, lru, inUse
      ensures Valid() && clients == old(clients) && handles == old(handles)
      ensures forall g :: g in Cached() <==> g in old(Cached()) && !Matches(g, key, hash)
    {
      hide Ring, HandleTable.Valid, Minus, Charge, Distinct, Counts, Members, ListRefs;
      NodesAreHandles();
      table.IsAMap();
      ghost var before := Cached();
      var found := table.Remove(key, hash);
      FinishErase(found);
      assert forall g :: g in before && Matches(g, key, hash) ==> g == found;
    }

    /** Evict everything idle. */
    method Prune()
      requires Valid()
      modifies this, table, table.list, handles, lru, inUse
      ensures Valid() && lruList == [] && inUseList == old(inUseList) && clients == old(clients) && handles == old(handles)
    {
      hide Ring, HandleTable.Valid, Minus, Charge, Distinct, Counts, Members, ListRefs;
      FirstIdle();
      while lru.next != lru
        invariant Valid() && inUseList == old(inUseList) && clients == old(clients) && handles == old(handles)
        invariant table.list == old(table.list)
        invariant lru.next == lru <==> lruList == []
        decreases |lruList|
      {
        EvictOldest();
        FirstIdle();
      }
    }
  }

  /** An entry that a client holds while a new one takes its key lives on until its last client gives it back. */
  method ReplaceWhileHeld(cache: LRUCache, key: Bytes, hash: nat, charge: nat) returns (held: Handle?)
    requires cache.Valid() && cache.capacity > 0
    modifies cache, cache.table, cache.table.list, cache.handles, cache.lru, cache.inUse
    ensures cache.Valid()
    ensures held != null ==> held in old(cache.Cached()) && Matches(held, key, hash) && held !in cache.Cached()
    ensures held != null ==> held.deletions == (if held in old(cache.clients) then 0 else 1)
  {
    held := cache.Lookup(key, hash);
    if held != null {
      var h, _, _ := cache.Insert(key, hash, charge);
      cache.HeldIsAlive(held);
      assert held.deletions == 0;
      cache.Release(held);
      cache.DeletedOnceUnreferenced(held);
    }
  }
}
