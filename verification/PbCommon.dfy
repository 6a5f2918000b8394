/** Walking over the fields of a message type (nanopb/pb_common.c). */
module PbCommon {
  import opened DbFormat
  import opened PbFormat
  import opened PbParse

  class FieldIter {
    const fields: seq<Field>
    var pos: nat
    var requiredIndex: nat

    ghost predicate Valid()
      reads this
    {
      && (if fields == [] then pos == 0 else pos < |fields|)
      && requiredIndex == RequiredBefore(fields, pos)
    }

    /** pb_field_iter_begin. */
    constructor (fields: seq<Field>)
      ensures Valid() && this.fields == fields && pos == 0
    {
      this.fields := fields;
      pos, requiredIndex := 0, 0;
    }

    /** Advance, or wrap around to the first field. */
    method Next() returns (more: bool)
      requires Valid()
      modifies this
      ensures Valid() && more == (old(pos) + 1 < |fields|)
      ensures pos == if more then old(pos) + 1 else 0
    {
      if fields == [] {
        return false;
      }
      var prev := fields[pos];
      pos := pos + 1;
      if pos == |fields| {
        pos, requiredIndex := 0, 0;
        return false;
      }
      if prev.rule.Required? {
        requiredIndex := requiredIndex + 1;
      }
      return true;
    }

    /** Search from here all the way round. A message type without fields takes its end mark for tag 0. */
    method Find(tag: nat) returns (found: bool)
      requires Valid()
      modifies this
      ensures Valid()
      ensures fields == [] ==> (found <==> tag == 0)
      ensures fields != [] ==> (found <==> exists i :: 0 <= i < |fields| && fields[i].tag == tag)
      ensures fields != [] && found ==> fields[pos].tag == tag
    {
      var start := pos;
      ghost var n := 0;
      while true
        invariant Valid() && n <= |fields| && (fields == [] ==> n == 0)
        invariant if start + n < |fields| then pos == start + n else fields == [] || pos == start + n - |fields|
        invariant fields != [] ==> n < |fields|
        invariant forall j :: start <= j < start + n && j < |fields| ==> fields[j].tag != tag
        invariant forall j :: 0 <= j < start + n - |fields| ==> fields[j].tag != tag
        decreases |fields| - n
      {
        if (if fields == [] then 0 else fields[pos].tag) == tag {
          return true;
        }
        var more := Next();
        if pos == start {
          return false;
        }
        n := n + 1;
      }
    }
  }
}
