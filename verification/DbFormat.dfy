/** Internal keys, entries and their order (db/dbformat.h, db/dbformat.cc).

    A user key is modelled by its rank: module BytewiseComparator maps every byte
    string to a real number and proves that the map preserves the comparator's order
    both ways, so a statement about all reals covers all byte strings. */
module DbFormat {

  type UserKey = real
  type Value = string

  datatype Option<+T> = None | Some(value: T)

  const NUM_LEVELS := 7
  const MAX_MEM_COMPACT_LEVEL := 2
  const MAX_SEQUENCE: nat := 0xff_ffff_ffff_ffff // 2^56 - 1

  type SequenceNumber = n: nat | n <= MAX_SEQUENCE

  datatype ValueType = Deletion | Put

  datatype InternalKey = InternalKey(user: UserKey, sequence: SequenceNumber, kind: ValueType) {
    /** The trailing 64-bit word of an encoded internal key. */
    function Tag(): nat {
      sequence * 256 + (if kind.Put? then 1 else 0)
    }
  }

  datatype Entry = Entry(key: InternalKey, value: Value)

  /** InternalKeyComparator: user keys ascend; among equal user keys, tags descend. */
  predicate Less(a: InternalKey, b: InternalKey) {
    a.user < b.user || (a.user == b.user && a.Tag() > b.Tag())
  }

  /** The key a lookup of `user` at sequence `s` seeks to. */
  function LookupKey(user: UserKey, s: SequenceNumber): InternalKey {
    InternalKey(user, s, Put)
  }

  ghost predicate Sorted(es: seq<Entry>) {
    forall i, j :: 0 <= i < j < |es| ==> Less(es[i].key, es[j].key)
  }

  ghost function ToSet(es: seq<Entry>): set<Entry> {
    set e | e in es
  }

  /** Number of leading entries below `target`: where Iterator::Seek lands in sorted data. */
  function LowerBound(es: seq<Entry>, target: InternalKey): (n: nat)
    ensures n <= |es|
    ensures forall i :: 0 <= i < n ==> Less(es[i].key, target)
    ensures n < |es| ==> !Less(es[n].key, target)
  {
    if es == [] || !Less(es[0].key, target) then 0 else 1 + LowerBound(es[1..], target)
  }

  /** In sorted data everything from the lower bound on is at or after the target. */
  lemma LowerBoundSplits(es: seq<Entry>, target: InternalKey)
    requires Sorted(es)
    ensures forall i :: LowerBound(es, target) <= i < |es| ==> !Less(es[i].key, target)
  {
    var n := LowerBound(es, target);
    forall i | n <= i < |es|
      ensures !Less(es[i].key, target)
    {
      if i != n {
        assert Less(es[n].key, es[i].key);
      }
    }
  }
}
