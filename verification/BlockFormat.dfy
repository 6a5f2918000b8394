/** The format of a table's block: prefix-compressed entries and restart points (table/block_builder.cc). */
module BlockFormat {
  import opened DbFormat
  import opened Coding

  datatype Pair = Pair(key: Bytes, value: Bytes)

  function CommonPrefix(a: Bytes, b: Bytes): (n: nat)
    ensures n <= |a| && n <= |b| && a[..n] == b[..n]
    ensures n < |a| && n < |b| ==> a[n] != b[n]
  {
    if a == [] || b == [] || a[0] != b[0] then 0 else
      var n := 1 + CommonPrefix(a[1..], b[1..]);
      assert a[..n] == [a[0]] + a[1..][..n - 1] && b[..n] == [b[0]] + b[1..][..n - 1];
      n
  }

  /** How much of entry `i`'s key is left out: every `interval` entries, nothing. */
  function Shared(es: seq<Pair>, interval: nat, i: nat): (n: nat)
    requires interval > 0 && i < |es|
    ensures n <= |es[i].key|
    ensures i > 0 ==> n <= |es[i - 1].key| && es[i].key[..n] == es[i - 1].key[..n]
    ensures i % interval == 0 ==> n == 0
  {
    if i % interval == 0 then 0 else CommonPrefix(es[i - 1].key, es[i].key)
  }

  /** One entry's bytes. */
  function Encode(shared: nat, delta: Bytes, value: Bytes): (r: Bytes)
    ensures |r| >= 3
  {
    EncodeVarint(shared) + EncodeVarint(|delta|) + EncodeVarint(|value|) + delta + value
  }

  function EntryBytes(es: seq<Pair>, interval: nat, i: nat): (r: Bytes)
    requires interval > 0 && i < |es|
    ensures |r| >= 3
  {
    var shared := Shared(es, interval, i);
    Encode(shared, es[i].key[shared..], es[i].value)
  }

  /** The first `n` entries. */
  function Data(es: seq<Pair>, interval: nat, n: nat): Bytes
    requires interval > 0 && n <= |es|
  {
    if n == 0 then [] else Data(es, interval, n - 1) + EntryBytes(es, interval, n - 1)
  }

  /** Where entry `i` starts. */
  function Offset(es: seq<Pair>, interval: nat, i: nat): nat
    requires interval > 0 && i <= |es|
  {
    |Data(es, interval, i)|
  }

  lemma {:induction false} OffsetsGrow(es: seq<Pair>, interval: nat, i: nat, j: nat)
    requires interval > 0 && i < j <= |es|
    ensures Offset(es, interval, i) < Offset(es, interval, j)
  {
    if i < j - 1 {
      OffsetsGrow(es, interval, i, j - 1);
    }
  }

  /** Entry `i`'s bytes are where its offset says, in any longer run of entries. */
  lemma {:induction false} EntryInData(es: seq<Pair>, interval: nat, i: nat, n: nat)
    requires interval > 0 && i < n <= |es|
    ensures Offset(es, interval, i) + |EntryBytes(es, interval, i)| == Offset(es, interval, i + 1) <= Offset(es, interval, n)
    ensures Data(es, interval, n)[Offset(es, interval, i)..Offset(es, interval, i + 1)] == EntryBytes(es, interval, i)
  {
    hide EntryBytes;
    if i < n - 1 {
      EntryInData(es, interval, i, n - 1);
      PrefixSlice(Data(es, interval, n - 1), EntryBytes(es, interval, n - 1), Offset(es, interval, i), Offset(es, interval, i + 1));
    }
  }

  lemma PrefixSlice(a: Bytes, b: Bytes, i: nat, j: nat)
    requires i <= j <= |a|
    ensures (a + b)[i..j] == a[i..j]
  {
  }

  lemma SliceOfSlice(data: Bytes, p: nat, q: nat, a: nat, b: nat)
    requires p <= q <= |data| && a <= b <= q - p
    ensures data[p..q][a..b] == data[p + a..p + b]
  {
    forall k | 0 <= k < b - a ensures data[p..q][a..b][k] == data[p + a..p + b][k] {
      assert data[p..q][a + k] == data[p + a + k];
    }
  }

  /** Number of restart points for `n` entries. */
  function RestartCount(interval: nat, n: nat): (r: nat)
    requires interval > 0
    ensures r >= 1
  {
    if n == 0 then 1 else (n - 1) / interval + 1
  }

  /** Offsets, lengths and the number of restart points fit 32 bits. */
  ghost predicate Fits(es: seq<Pair>, interval: nat) {
    interval > 0 && Offset(es, interval, |es|) < TWO32 && |es| < TWO32
    && forall i :: 0 <= i < |es| ==> |es[i].key| < TWO32 && |es[i].value| < TWO32
  }

  /** The entry a restart point stands at. */
  function RestartEntry(interval: nat, n: nat, r: nat): (i: nat)
    requires interval > 0 && r < RestartCount(interval, n)
    ensures i <= n && (n > 0 ==> i < n)
  {
    assert r <= (if n == 0 then 0 else (n - 1) / interval);
    Multiples(interval, n, r);
    r * interval
  }

  lemma Multiples(interval: nat, n: nat, r: nat)
    requires interval > 0 && r < RestartCount(interval, n)
    ensures r * interval <= n && (n > 0 ==> r * interval < n)
  {
    if r > 0 {
      assert r * interval <= (n - 1) / interval * interval <= n - 1;
    }
  }

  ghost function RestartAt(es: seq<Pair>, interval: nat, r: nat): Word32
    requires Fits(es, interval) && r < RestartCount(interval, |es|)
  {
    var i := RestartEntry(interval, |es|, r);
    OffsetAtMost(es, interval, i);
    Offset(es, interval, i)
  }

  lemma OffsetAtMost(es: seq<Pair>, interval: nat, i: nat)
    requires interval > 0 && i <= |es|
    ensures Offset(es, interval, i) <= Offset(es, interval, |es|)
  {
    if i < |es| {
      OffsetsGrow(es, interval, i, |es|);
    }
  }

  /** Restart point `r` is the offset of entry `r` times the interval. */
  ghost function Restarts(es: seq<Pair>, interval: nat): (r: seq<Word32>)
    requires Fits(es, interval)
    ensures |r| == RestartCount(interval, |es|)
  {
    seq(RestartCount(interval, |es|), r requires 0 <= r < RestartCount(interval, |es|) => RestartAt(es, interval, r))
  }

  function FixedAll(offsets: seq<Word32>): Bytes
  {
    if offsets == [] then [] else FixedAll(offsets[..|offsets| - 1]) + EncodeFixed32(offsets[|offsets| - 1])
  }

  lemma {:induction false} FixedAt(offsets: seq<Word32>, rest: Bytes, i: nat)
    requires i < |offsets|
    ensures |FixedAll(offsets)| == 4 * |offsets|
    ensures DecodeFixed32((FixedAll(offsets) + rest)[4 * i..]) == offsets[i]
    decreases |offsets|
  {
    hide EncodeFixed32, DecodeFixed32;
    var n := |offsets| - 1;
    var last := EncodeFixed32(offsets[n]);
    assert FixedAll(offsets) + rest == FixedAll(offsets[..n]) + (last + rest);
    FixedLength(offsets[..n]);
    if i < n {
      FixedAt(offsets[..n], last + rest, i);
    } else {
      assert (FixedAll(offsets[..n]) + (last + rest))[4 * i..] == last + rest;
      Fixed32RoundTrip(offsets[n], rest);
    }
  }

  lemma {:induction false} FixedLength(offsets: seq<Word32>)
    ensures |FixedAll(offsets)| == 4 * |offsets|
    decreases |offsets|
  {
    if offsets != [] {
      FixedLength(offsets[..|offsets| - 1]);
    }
  }

  lemma FewRestarts(interval: nat, n: nat)
    requires interval > 0 && n < TWO32
    ensures RestartCount(interval, n) < TWO32
  {
    assert n > 0 ==> (n - 1) / interval <= n - 1;
  }

  /** A finished block. */
  ghost function Finished(es: seq<Pair>, interval: nat): Bytes
    requires Fits(es, interval)
  {
    FewRestarts(interval, |es|);
    Data(es, interval, |es|) + FixedAll(Restarts(es, interval)) + EncodeFixed32(RestartCount(interval, |es|))
  }

  // ----- Decoding -----

  datatype Decoded = Decoded(shared: nat, nonShared: nat, valueLength: nat, start: nat)

  function Number(data: Bytes, p: nat, limit: nat): (r: Option<(nat, nat)>)
    requires p <= limit <= |data|
    ensures r.Some? ==> p < r.value.1 <= limit
  {
    match DecodeVarint(data[p..limit], 5)
    case None => None
    case Some((v, n)) => Some((v % TWO32, p + n))
  }

  /** DecodeEntry's slow path: three numbers, then room for the key delta and the value. */
  function ThreeNumbers(data: Bytes, p: nat, limit: nat): (r: Option<Decoded>)
    requires p <= limit <= |data|
    ensures r.Some? ==> p < r.value.start <= limit
  {
    match Number(data, p, limit)
    case None => None
    case Some((shared, p1)) =>
      match Number(data, p1, limit)
      case None => None
      case Some((nonShared, p2)) =>
        match Number(data, p2, limit)
        case None => None
        case Some((valueLength, p3)) => Some(Decoded(shared, nonShared, valueLength, p3))
  }

  /** DecodeEntry: the sum of the two lengths is taken modulo 2^32. */
  function DecodeEntry(data: Bytes, p: nat, limit: nat): Option<Decoded>
    requires p <= limit <= |data|
  {
    if limit - p < 3 then None else
      match ThreeNumbers(data, p, limit)
      case None => None
      case Some(d) => if limit - d.start < (d.nonShared + d.valueLength) % TWO32 then None else Some(d)
  }

  /** The one-byte fast path reads what the slow path would. */
  lemma FastPath(data: Bytes, p: nat, limit: nat)
    requires p + 3 <= limit <= |data|
    requires data[p] < 128 && data[p + 1] < 128 && data[p + 2] < 128
    ensures ThreeNumbers(data, p, limit) == Some(Decoded(data[p] as nat, data[p + 1] as nat, data[p + 2] as nat, p + 3))
  {
    assert data[p..limit][0] == data[p] && data[p + 1..limit][0] == data[p + 1] && data[p + 2..limit][0] == data[p + 2];
  }

  lemma NumberReads(data: Bytes, p: nat, limit: nat, v: nat)
    requires p <= limit <= |data| && v < TWO32
    requires var e := EncodeVarint(v); p + |e| <= limit && data[p..p + |e|] == e
    ensures Number(data, p, limit) == Some((v, p + |EncodeVarint(v)|))
  {
    var e := EncodeVarint(v);
    assert data[p..limit] == e + data[p + |e|..limit];
    FivePower();
    VarintRoundTrip(v, 5, data[p + |e|..limit]);
  }

  lemma FivePower()
    ensures Power128(5) == 128 * (128 * (128 * (128 * 128)))
  {
    assert Power128(1) == 128 && Power128(2) == 128 * 128 && Power128(3) == 128 * (128 * 128);
  }

  /** Where the parts of an encoded entry are. */
  lemma EncodeParts(shared: nat, delta: Bytes, value: Bytes)
    ensures var e := Encode(shared, delta, value);
      var a := |EncodeVarint(shared)|;
      var b := a + |EncodeVarint(|delta|)|;
      var c := b + |EncodeVarint(|value|)|;
      && |e| == c + |delta| + |value|
      && e[0..a] == EncodeVarint(shared) && e[a..b] == EncodeVarint(|delta|) && e[b..c] == EncodeVarint(|value|)
      && e[c..c + |delta|] == delta && e[c + |delta|..|e|] == value
  {
    hide EncodeVarint;
    var x, y, z := EncodeVarint(shared), EncodeVarint(|delta|), EncodeVarint(|value|);
    FivePieces(x, y, z, delta, value);
  }

  lemma FivePieces(x: Bytes, y: Bytes, z: Bytes, d: Bytes, v: Bytes)
    ensures var e := x + y + z + d + v;
      var a := |x|;
      var b := a + |y|;
      var c := b + |z|;
      && e[0..a] == x && e[a..b] == y && e[b..c] == z && e[c..c + |d|] == d && e[c + |d|..|e|] == v
  {
    var a := |x|;
    var b := a + |y|;
    var c := b + |z|;
    PrefixSlice(x + y + z + d, v, 0, a);
    PrefixSlice(x + y + z + d, v, a, b);
    PrefixSlice(x + y + z + d, v, b, c);
    PrefixSlice(x + y + z + d, v, c, c + |d|);
    PrefixSlice(x + y + z, d, 0, a);
    PrefixSlice(x + y + z, d, a, b);
    PrefixSlice(x + y + z, d, b, c);
    PrefixSlice(x + y, z, 0, a);
    PrefixSlice(x + y, z, a, b);
  }

  /** What stands at `p` decodes as what was encoded there. */
  lemma EntryDecodes(data: Bytes, p: nat, limit: nat, shared: nat, delta: Bytes, value: Bytes)
    requires shared < TWO32 && |delta| < TWO32 && |value| < TWO32
    requires var e := Encode(shared, delta, value); p + |e| <= limit <= |data| && |e| < TWO32 && data[p..p + |e|] == e
    ensures var d := DecodeEntry(data, p, limit);
      && d.Some? && d.value.shared == shared && d.value.nonShared == |delta| && d.value.valueLength == |value|
      && d.value.start + |delta| + |value| == p + |Encode(shared, delta, value)|
      && data[d.value.start..d.value.start + |delta|] == delta
      && data[d.value.start + |delta|..d.value.start + |delta| + |value|] == value
  {
    hide EncodeVarint, Number, Encode;
    var e := Encode(shared, delta, value);
    var n := |e|;
    var a := |EncodeVarint(shared)|;
    var b := a + |EncodeVarint(|delta|)|;
    var c := b + |EncodeVarint(|value|)|;
    EncodeParts(shared, delta, value);
    SliceOfSlice(data, p, p + n, 0, a);
    SliceOfSlice(data, p, p + n, a, b);
    SliceOfSlice(data, p, p + n, b, c);
    SliceOfSlice(data, p, p + n, c, c + |delta|);
    SliceOfSlice(data, p, p + n, c + |delta|, n);
    NumberReads(data, p, limit, shared);
    NumberReads(data, p + a, limit, |delta|);
    NumberReads(data, p + b, limit, |value|);
  }
}
