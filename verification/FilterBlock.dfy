/** One filter for every two kilobytes of a table file (table/filter_block.cc). */
module FilterBlocks {
  import opened DbFormat
  import opened Coding
  import opened Bits
  import opened BlockFormat

  const BASE_LG: nat := 11
  const BASE: nat := 2048

  /** A filter policy: make a filter for some keys, and ask it about one. */
  type Create = seq<Bytes> -> Bytes
  type Match = (Bytes, Bytes) -> bool

  /** A policy never forgets a key. */
  ghost predicate Sound(create: Create, match_: Match) {
    forall keys: seq<Bytes>, key: Bytes :: key in keys ==> match_(key, create(keys))
  }

  function Join(keys: seq<Bytes>): Bytes {
    if keys == [] then [] else Join(keys[..|keys| - 1]) + keys[|keys| - 1]
  }

  /** No filter is made for no keys. */
  function FilterOf(create: Create, keys: seq<Bytes>): Bytes {
    if keys == [] then [] else create(keys)
  }

  /** The filters of all key lists, end to end. */
  function Filters(create: Create, lists: seq<seq<Bytes>>): Bytes {
    if lists == [] then [] else Filters(create, lists[..|lists| - 1]) + FilterOf(create, lists[|lists| - 1])
  }

  function FilterOffsets(create: Create, lists: seq<seq<Bytes>>): seq<nat> {
    if lists == [] then [] else FilterOffsets(create, lists[..|lists| - 1]) + [|Filters(create, lists[..|lists| - 1])|]
  }

  lemma {:induction false} OffsetsAt(create: Create, lists: seq<seq<Bytes>>, i: nat)
    requires i < |lists|
    ensures |FilterOffsets(create, lists)| == |lists|
    ensures FilterOffsets(create, lists)[i] == |Filters(create, lists[..i])| <= |Filters(create, lists)|
    decreases |lists|
  {
    OffsetCount(create, lists);
    var n := |lists| - 1;
    if i < n {
      OffsetsAt(create, lists[..n], i);
      assert lists[..n][..i] == lists[..i];
    }
  }

  lemma {:induction false} OffsetCount(create: Create, lists: seq<seq<Bytes>>)
    ensures |FilterOffsets(create, lists)| == |lists|
    decreases |lists|
  {
    if lists != [] {
      OffsetCount(create, lists[..|lists| - 1]);
    }
  }

  /** Filter `i` is where its offset says. */
  lemma {:induction false} FilterInFilters(create: Create, lists: seq<seq<Bytes>>, i: nat)
    requires i < |lists|
    ensures var a, b := |Filters(create, lists[..i])|, |Filters(create, lists[..i + 1])|;
      a <= b <= |Filters(create, lists)| && Filters(create, lists)[a..b] == FilterOf(create, lists[i])
    decreases |lists|
  {
    hide FilterOf;
    var n := |lists| - 1;
    assert lists[..i + 1][..i] == lists[..i];
    if i < n {
      FilterInFilters(create, lists[..n], i);
      assert lists[..n][..i] == lists[..i] && lists[..n][..i + 1] == lists[..i + 1];
      PrefixSlice(Filters(create, lists[..n]), FilterOf(create, lists[n]), |Filters(create, lists[..i])|, |Filters(create, lists[..i + 1])|);
    } else {
      assert lists[..i + 1] == lists;
    }
  }

  predicate AllWords(offsets: seq<nat>) {
    forall i :: 0 <= i < |offsets| ==> offsets[i] < TWO32
  }

  /** An offset as the 32-bit word it is stored in. */
  function WordAt(offsets: seq<nat>, i: nat): Word32
    requires i < |offsets|
  {
    offsets[i] % TWO32
  }

  function Words(offsets: seq<nat>): (r: seq<Word32>)
    ensures |r| == |offsets|
  {
    seq(|offsets|, i requires 0 <= i < |offsets| => WordAt(offsets, i))
  }

  ghost predicate FiltersFit(create: Create, lists: seq<seq<Bytes>>) {
    |Filters(create, lists)| < TWO32 && AllWords(FilterOffsets(create, lists))
  }

  /** A finished filter block: filters, their offsets, where the offsets start, and the base. */
  ghost function FinishedFilters(create: Create, lists: seq<seq<Bytes>>): Bytes {
    Filters(create, lists) + FixedAll(Words(FilterOffsets(create, lists))) + EncodeFixed32(|Filters(create, lists)| % TWO32) + [BASE_LG]
  }

  class FilterBlockBuilder {
    const create: Create
    var keys: Bytes
    var start: seq<nat>
    var result: Bytes
    var filterOffsets: seq<nat>
    /** The keys waiting for a filter, and the key lists of the filters made. */
    ghost var pending: seq<Bytes>
    ghost var lists: seq<seq<Bytes>>

    ghost predicate Valid()
      reads this
    {
      && keys == Join(pending) && |start| == |pending|
      && (forall i :: 0 <= i < |start| ==> start[i] == |Join(pending[..i])|)
      && result == Filters(create, lists) && filterOffsets == FilterOffsets(create, lists)
    }

    constructor (create: Create)
      ensures Valid() && this.create == create && pending == [] && lists == []
    {
      this.create := create;
      keys, start, result, filterOffsets, pending, lists := [], [], [], [], [], [];
    }

    method AddKey(key: Bytes)
      requires Valid()
      modifies this
      ensures Valid() && pending == old(pending) + [key] && lists == old(lists)
    {
      start := start + [|keys|];
      keys := keys + key;
      ghost var more := pending + [key];
      assert more[..|pending|] == pending;
      forall i | 0 <= i < |start| ensures start[i] == |Join(more[..i])| {
        assert i <= |pending| && more[..i] == pending[..i];
      }
      pending := more;
    }

    method GenerateFilter()
      requires Valid()
      modifies this
      ensures Valid() && pending == [] && lists == old(lists) + [old(pending)]
    {
      ghost var more := lists + [pending];
      assert more[..|lists|] == lists;
      OffsetCount(create, lists);
      if start == [] {
        filterOffsets := filterOffsets + [|result|];
      } else {
        var tmpKeys := SplitKeys();
        filterOffsets := filterOffsets + [|result|];
        result := result + create(tmpKeys);
        keys, start := [], [];
      }
      lists, pending := more, [];
    }

    /** The keys again, from the flattened string. */
    method SplitKeys() returns (tmpKeys: seq<Bytes>)
      requires Valid()
      ensures tmpKeys == pending
    {
      var ends := start + [|keys|];
      assert pending[..|pending|] == pending;
      tmpKeys := [];
      for i := 0 to |start|
        invariant tmpKeys == pending[..i]
      {
        KeyInJoin(pending, i);
        assert ends[i + 1] == |Join(pending[..i + 1])|;
        tmpKeys := tmpKeys + [keys[ends[i]..ends[i + 1]]];
      }
    }

    /** Close the filters before the one that `blockOffset` falls into. */
    method StartBlock(blockOffset: nat)
      requires Valid() && |lists| <= blockOffset / BASE
      modifies this
      ensures Valid() && |lists| == blockOffset / BASE
      ensures if old(|lists|) == blockOffset / BASE then lists == old(lists) && pending == old(pending)
              else pending == [] && old(lists) + [old(pending)] <= lists
    {
      var filterIndex := blockOffset / BASE;
      ghost var first := lists + [pending];
      OffsetCount(create, lists);
      while filterIndex > |filterOffsets|
        invariant Valid() && |filterOffsets| == |lists| <= filterIndex
        invariant if |lists| == old(|lists|) then lists == old(lists) && pending == old(pending)
                  else pending == [] && first <= lists
        decreases filterIndex - |filterOffsets|
      {
        GenerateFilter();
        OffsetCount(create, lists);
      }
    }

    method Finish() returns (contents: Bytes)
      requires Valid()
      modifies this
      ensures lists == (if old(pending) == [] then old(lists) else old(lists) + [old(pending)])
      ensures contents == FinishedFilters(create, lists)
    {
      hide EncodeFixed32, Filters, FilterOffsets, Join, FixedAll, Words;
      if start != [] {
        GenerateFilter();
      }
      var arrayOffset := |result|;
      ghost var words, filters := Words(FilterOffsets(create, lists)), result;
      NoWords();
      assert words[..0] == [];
      for i := 0 to |filterOffsets|
        invariant result == filters + FixedAll(words[..i])
        invariant filterOffsets == FilterOffsets(create, lists) && |filters| == arrayOffset
        invariant lists == (if old(pending) == [] then old(lists) else old(lists) + [old(pending)])
      {
        NextWord(filterOffsets, i);
        result := result + EncodeFixed32(filterOffsets[i] % TWO32);
      }
      assert words[..|words|] == words;
      result := result + EncodeFixed32(arrayOffset % TWO32) + [BASE_LG];
      contents := result;
    }
  }

  lemma NoWords()
    ensures FixedAll([]) == []
  {
  }

  lemma NextWord(offsets: seq<nat>, i: nat)
    requires i < |offsets|
    ensures FixedAll(Words(offsets)[..i + 1]) == FixedAll(Words(offsets)[..i]) + EncodeFixed32(offsets[i] % TWO32)
  {
    hide EncodeFixed32;
    assert Words(offsets)[..i + 1][..i] == Words(offsets)[..i];
  }

  /** Two neighbouring words of the offset array; the one after the last offset says where the array starts. */
  lemma OffsetPair(offsets: seq<nat>, at: Word32, i: nat)
    requires i < |offsets| && AllWords(offsets)
    ensures var table := FixedAll(Words(offsets)) + (EncodeFixed32(at) + [BASE_LG]);
      && |table| == 4 * |offsets| + 5
      && DecodeFixed32(table[4 * i..]) == offsets[i]
      && DecodeFixed32(table[4 * i + 4..]) == (if i + 1 < |offsets| then offsets[i + 1] else at)
      && DecodeFixed32(table[|table| - 5..]) == at && table[|table| - 1] == BASE_LG
  {
    hide EncodeFixed32, DecodeFixed32;
    var words, last := Words(offsets), EncodeFixed32(at) + [BASE_LG];
    var table := FixedAll(words) + last;
    FixedLength(words);
    FixedAt(words, last, i);
    assert table[|table| - 5..] == last;
    Fixed32RoundTrip(at, [BASE_LG]);
    if i + 1 < |offsets| {
      FixedAt(words, last, i + 1);
    } else {
      assert table[4 * i + 4..] == last;
    }
  }

  lemma TailOf(a: Bytes, b: Bytes, i: nat)
    requires i <= |b|
    ensures (a + b)[|a| + i..] == b[i..]
  {
  }

  lemma {:induction false} KeyInJoin(keys: seq<Bytes>, i: nat)
    requires i < |keys|
    ensures |Join(keys[..i])| <= |Join(keys[..i + 1])| <= |Join(keys)|
    ensures Join(keys)[|Join(keys[..i])|..|Join(keys[..i + 1])|] == keys[i]
    decreases |keys|
  {
    var n := |keys| - 1;
    assert keys[..i + 1][..i] == keys[..i];
    if i < n {
      KeyInJoin(keys[..n], i);
      assert keys[..n][..i] == keys[..i] && keys[..n][..i + 1] == keys[..i + 1];
      PrefixSlice(Join(keys[..n]), keys[n], |Join(keys[..i])|, |Join(keys[..i + 1])|);
    } else {
      assert keys[..i + 1] == keys;
    }
  }

  /** FilterBlockReader's fields: where the offsets are, how many, and the base. */
  datatype Reader = NoFilters | Reader(offsetsAt: nat, num: nat, baseLg: nat)

  function OpenFilters(contents: Bytes): (r: Reader)
    ensures r.Reader? ==> r.offsetsAt + 4 * r.num + 5 <= |contents|
  {
    var n := |contents|;
    if n < 5 then NoFilters else
      var lastWord: nat := DecodeFixed32(contents[n - 5..]);
      if lastWord > n - 5 then NoFilters else Reader(lastWord, (n - 5 - lastWord) / 4, contents[n - 1] as nat)
  }

  /** The bytes of filter `index`: from its offset to the next one. */
  function FilterRange(contents: Bytes, at: nat): (nat, nat)
    requires at + 8 <= |contents|
  {
    (DecodeFixed32(contents[at..]), DecodeFixed32(contents[at + 4..]))
  }

  /** Which filter a block's offset falls into. */
  function FilterIndex(baseLg: nat, blockOffset: nat): nat {
    if baseLg == BASE_LG then blockOffset / BASE else Quotient(blockOffset, Power2(baseLg))
  }

  function Quotient(n: nat, p: nat): nat
    requires p > 0
  {
    n / p
  }

  /** FilterBlockReader::KeyMayMatch; whatever does not parse may match. */
  function KeyMayMatch(match_: Match, contents: Bytes, blockOffset: nat, key: Bytes): bool {
    match OpenFilters(contents)
    case NoFilters => true
    case Reader(at, num, baseLg) =>
      var index := FilterIndex(baseLg, blockOffset);
      if index < num then
        var (start, limit) := FilterRange(contents, at + 4 * index);
        if start <= limit && limit <= at then match_(key, contents[start..limit]) else start != limit
      else true
  }

  /** A finished filter block is the filters and a table of their offsets. */
  ghost function OffsetTable(create: Create, lists: seq<seq<Bytes>>): Bytes {
    FixedAll(Words(FilterOffsets(create, lists))) + (EncodeFixed32(|Filters(create, lists)| % TWO32) + [BASE_LG])
  }

  lemma FiltersThenTable(create: Create, lists: seq<seq<Bytes>>)
    ensures FinishedFilters(create, lists) == Filters(create, lists) + OffsetTable(create, lists)
  {
  }

  lemma OpensFinished(create: Create, lists: seq<seq<Bytes>>)
    requires FiltersFit(create, lists) && lists != []
    ensures OpenFilters(FinishedFilters(create, lists)) == Reader(|Filters(create, lists)|, |lists|, BASE_LG)
  {
    hide EncodeFixed32, DecodeFixed32, Filters, FilterOffsets, FilterOf, Words, FixedAll, FinishedFilters;
    var filters := Filters(create, lists);
    var table := OffsetTable(create, lists);
    OffsetCount(create, lists);
    OffsetPair(FilterOffsets(create, lists), |filters|, 0);
    FiltersThenTable(create, lists);
    TailOf(filters, table, |table| - 5);
  }

  /** The words that bound filter `i`. */
  lemma WordsOfRange(create: Create, lists: seq<seq<Bytes>>, i: nat)
    requires FiltersFit(create, lists) && i < |lists|
    ensures var contents := FinishedFilters(create, lists);
      var at := |Filters(create, lists)| + 4 * i;
      && at + 8 <= |contents|
      && FilterRange(contents, at) == (|Filters(create, lists[..i])|, |Filters(create, lists[..i + 1])|)
  {
    hide EncodeFixed32, DecodeFixed32, Filters, FilterOffsets, FilterOf, Words, FixedAll, FinishedFilters;
    var filters := Filters(create, lists);
    var table := OffsetTable(create, lists);
    OffsetCount(create, lists);
    OffsetPair(FilterOffsets(create, lists), |filters|, i);
    FiltersThenTable(create, lists);
    TailOf(filters, table, 4 * i);
    TailOf(filters, table, 4 * i + 4);
    OffsetsAt(create, lists, i);
    if i + 1 < |lists| {
      OffsetsAt(create, lists, i + 1);
    } else {
      assert lists[..i + 1] == lists;
    }
  }

  lemma RangeInFinished(create: Create, lists: seq<seq<Bytes>>, i: nat)
    requires FiltersFit(create, lists) && i < |lists|
    ensures var contents := FinishedFilters(create, lists);
      var at := |Filters(create, lists)| + 4 * i;
      && at + 8 <= |contents|
      && var (a, b) := FilterRange(contents, at);
         a <= b <= |Filters(create, lists)| && contents[a..b] == FilterOf(create, lists[i])
  {
    hide FilterRange, Filters, FilterOffsets, FilterOf, Words, FixedAll, FinishedFilters;
    WordsOfRange(create, lists, i);
    FiltersThenTable(create, lists);
    FilterInFilters(create, lists, i);
    PrefixSlice(Filters(create, lists), OffsetTable(create, lists), |Filters(create, lists[..i])|, |Filters(create, lists[..i + 1])|);
  }

  /** Asking about a key in the filter that a block's offset falls into. */
  lemma ReadsItsFilter(create: Create, match_: Match, lists: seq<seq<Bytes>>, blockOffset: nat, key: Bytes)
    requires FiltersFit(create, lists) && blockOffset / BASE < |lists|
    ensures KeyMayMatch(match_, FinishedFilters(create, lists), blockOffset, key)
         == match_(key, FilterOf(create, lists[blockOffset / BASE]))
  {
    hide FinishedFilters, OpenFilters, FilterRange, Filters, FilterOf, FilterOffsets;
    OpensFinished(create, lists);
    RangeInFinished(create, lists, blockOffset / BASE);
  }

  /** A key given to the builder while a block was being written is found through that block's offset. */
  lemma KeyIsFound(create: Create, match_: Match, lists: seq<seq<Bytes>>, blockOffset: nat, key: Bytes)
    requires Sound(create, match_) && FiltersFit(create, lists)
    requires blockOffset / BASE < |lists| && key in lists[blockOffset / BASE]
    ensures KeyMayMatch(match_, FinishedFilters(create, lists), blockOffset, key)
  {
    ReadsItsFilter(create, match_, lists, blockOffset, key);
  }

  /** In any contents: filter `i` is the one for blocks at this offset, its bounds are `start` and `limit`, and the filters end
      at `at`. */
  ghost predicate BoundsAt(contents: Bytes, blockOffset: nat, at: nat, i: nat, start: nat, limit: nat) {
    var n := |contents|;
    && n >= 5 && at == DecodeFixed32(contents[n - 5..])
    && i * Power2(contents[n - 1] as nat) <= blockOffset < (i + 1) * Power2(contents[n - 1] as nat)
    && at + 4 * (i + 1) + 5 <= n
    && start == DecodeFixed32(contents[at + 4 * i..]) && limit == DecodeFixed32(contents[at + 4 * i + 4..])
  }

  lemma IndexIs(blockOffset: nat, i: nat, p: nat)
    requires p > 0
    ensures i * p <= blockOffset < (i + 1) * p <==> i == blockOffset / p
  {
    assert blockOffset == blockOffset / p * p + blockOffset % p;
    if i * p <= blockOffset < (i + 1) * p {
      assert blockOffset == i * p + (blockOffset - i * p) && (i + 1) * p == i * p + p;
      DivisionIsUnique(blockOffset, i, blockOffset - i * p, p);
    }
    if i == blockOffset / p {
      assert (i + 1) * p == i * p + p;
    }
  }

  lemma BaseIsPower()
    ensures Power2(BASE_LG) == BASE
  {
    ByteSize();
    PowersAdd(8, 3);
    assert Power2(3) == 8;
  }

  /** A key is denied exactly if there is a filter for the block and it denies the key, or an empty range past the filters; in
      everything else, whatever its bytes, the key may be. */
  lemma DeniedExactly(match_: Match, contents: Bytes, blockOffset: nat, key: Bytes)
    ensures !KeyMayMatch(match_, contents, blockOffset, key) <==>
            exists at: nat, i: nat, start: nat, limit: nat :: BoundsAt(contents, blockOffset, at, i, start, limit) &&
              if start <= limit <= at then !match_(key, contents[start..limit]) else start == limit
  {
    hide DecodeFixed32, Power2;
    var n := |contents|;
    if n >= 5 {
      var at: nat := DecodeFixed32(contents[n - 5..]);
      var p := Power2(contents[n - 1] as nat);
      BaseIsPower();
      forall i: nat ensures i * p <= blockOffset < (i + 1) * p <==> i == blockOffset / p {
        IndexIs(blockOffset, i, p);
      }
      var i := blockOffset / p;
      if at + 4 * (i + 1) + 5 <= n {
        var start, limit := DecodeFixed32(contents[at + 4 * i..]), DecodeFixed32(contents[at + 4 * i + 4..]);
        assert BoundsAt(contents, blockOffset, at, i, start, limit);
      }
    }
  }
}
