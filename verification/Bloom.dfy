/** Bloom filters (util/bloom.cc): whatever was put in is always found. */
module Bloom {
  import opened DbFormat
  import opened Coding
  import opened Bits

  /** Any hash function; the code uses a variant of murmur. */
  type HashFunction = Bytes -> Word32

  predicate BitAt(bits: Bytes, pos: nat)
    requires pos < 8 * |bits|
  {
    Bit(bits[pos / 8] as nat, pos % 8)
  }

  function SetBitAt(bits: Bytes, pos: nat): (r: Bytes)
    requires pos < 8 * |bits|
    ensures |r| == |bits|
  {
    ByteSize();
    bits[pos / 8 := WithBit(bits[pos / 8] as nat, pos % 8, 8)]
  }

  lemma OneBitAt(bits: Bytes, pos: nat, other: nat)
    requires pos < 8 * |bits| && other < 8 * |bits|
    ensures BitAt(SetBitAt(bits, pos), other) <==> other == pos || BitAt(bits, other)
  {
    if other / 8 == pos / 8 {
      ByteSize();
      OneBit(bits[pos / 8] as nat, pos % 8, 8, other % 8);
    }
  }

  /** Rotate right by 17 bits. */
  function Delta(h: Word32): Word32 {
    h / 0x2_0000 + h % 0x2_0000 * 0x8000
  }

  /** The hash after `j` steps of double hashing. */
  function Probe(h: Word32, delta: Word32, j: nat): Word32 {
    if j == 0 then h else (Probe(h, delta, j - 1) + delta) % TWO32
  }

  function AddProbes(bits: Bytes, h: Word32, delta: Word32, j: nat): (r: Bytes)
    requires bits != []
    ensures |r| == |bits|
  {
    if j == 0 then bits else SetBitAt(AddProbes(bits, h, delta, j - 1), Probe(h, delta, j - 1) % (8 * |bits|))
  }

  function AddKeys(hash: HashFunction, bits: Bytes, keys: seq<Bytes>, k: nat): (r: Bytes)
    requires bits != []
    ensures |r| == |bits|
  {
    if keys == [] then bits else
      var h := hash(keys[|keys| - 1]);
      AddProbes(AddKeys(hash, bits, keys[..|keys| - 1], k), h, Delta(h), k)
  }

  /** Length of the bit array in bytes, at least eight. */
  function ArrayBytes(count: nat, bitsPerKey: nat): (n: nat)
    ensures n >= 8
  {
    var wanted := count * bitsPerKey;
    ((if wanted < 64 then 64 else wanted) + 7) / 8
  }

  function Create(hash: HashFunction, bitsPerKey: nat, k: nat, keys: seq<Bytes>): Bytes
    requires k < 256
  {
    AddKeys(hash, seq(ArrayBytes(|keys|, bitsPerKey), _ => 0), keys, k) + [k]
  }

  predicate AllProbes(bits: Bytes, h: Word32, delta: Word32, k: nat)
    requires bits != []
  {
    forall j :: 0 <= j < k ==> BitAt(bits, Probe(h, delta, j) % (8 * |bits|))
  }

  /** More than thirty probes is reserved and matches everything; a byte over 127 is one, too. */
  predicate MayMatch(hash: HashFunction, key: Bytes, filter: Bytes) {
    |filter| >= 2 &&
    var bits, k := filter[..|filter| - 1], filter[|filter| - 1];
    (k > 30 || AllProbes(bits, hash(key), Delta(hash(key)), k))
  }

  lemma {:induction false} ProbesStay(bits: Bytes, h: Word32, delta: Word32, k: nat, pos: nat)
    requires pos < 8 * |bits| && BitAt(bits, pos)
    ensures BitAt(AddProbes(bits, h, delta, k), pos)
  {
    if k > 0 {
      ProbesStay(bits, h, delta, k - 1, pos);
      OneBitAt(AddProbes(bits, h, delta, k - 1), Probe(h, delta, k - 1) % (8 * |bits|), pos);
    }
  }

  lemma {:induction false} ProbesSet(bits: Bytes, h: Word32, delta: Word32, k: nat)
    requires bits != []
    ensures AllProbes(AddProbes(bits, h, delta, k), h, delta, k)
  {
    if k > 0 {
      ProbesSet(bits, h, delta, k - 1);
      var before := AddProbes(bits, h, delta, k - 1);
      forall j | 0 <= j < k ensures BitAt(AddProbes(bits, h, delta, k), Probe(h, delta, j) % (8 * |bits|)) {
        OneBitAt(before, Probe(h, delta, k - 1) % (8 * |bits|), Probe(h, delta, j) % (8 * |bits|));
      }
    }
  }

  lemma {:induction false} KeyIsIn(hash: HashFunction, bits: Bytes, keys: seq<Bytes>, k: nat, key: Bytes)
    requires bits != [] && key in keys
    ensures AllProbes(AddKeys(hash, bits, keys, k), hash(key), Delta(hash(key)), k)
  {
    var n := |keys| - 1;
    var before := AddKeys(hash, bits, keys[..n], k);
    var h := hash(keys[n]);
    if keys[n] == key {
      ProbesSet(before, h, Delta(h), k);
    } else {
      KeyIsIn(hash, bits, keys[..n], k, key);
      forall j | 0 <= j < k ensures BitAt(AddKeys(hash, bits, keys, k), Probe(hash(key), Delta(hash(key)), j) % (8 * |bits|)) {
        ProbesStay(before, h, Delta(h), k, Probe(hash(key), Delta(hash(key)), j) % (8 * |bits|));
      }
    }
  }

  /** The step is the hash rotated by 17 bits. */
  lemma DeltaRotates(h: Word32, i: nat)
    requires i < 32
    ensures Bit(Delta(h), i) <==> Bit(h, (i + 17) % 32)
  {
    hide Bit, Power2;
    WordSizes();
    HalfWords();
    RotatesRight(h, 17, 32, i);
  }

  /** The bit that the `j`-th step of a key's hash asks for, of `n` bits. */
  function ProbeBit(h: Word32, j: nat, n: nat): nat
    requires n > 0
  {
    (h + j * Delta(h)) % TWO32 % n
  }

  lemma {:induction false} ProbeIs(h: Word32, delta: Word32, j: nat)
    ensures Probe(h, delta, j) == (h + j * delta) % TWO32
  {
    if j > 0 {
      ProbeIs(h, delta, j - 1);
      ModuloSum(h + (j - 1) * delta, delta, TWO32);
      assert h + (j - 1) * delta + delta == h + j * delta;
    }
  }

  /** Some key's probe asks for the bit. */
  ghost predicate Asked(hash: HashFunction, keys: seq<Bytes>, k: nat, n: nat, pos: nat) {
    exists key :: key in keys && AskedBy(hash(key), k, n, pos)
  }

  /** The first `k` probes of a hash ask for the bit. */
  ghost predicate AskedBy(h: Word32, k: nat, n: nat, pos: nat) {
    n > 0 && exists j :: 0 <= j < k && ProbeBit(h, j, n) == pos
  }

  lemma OneMoreProbe(h: Word32, k: nat, n: nat, pos: nat)
    requires k > 0 && n > 0
    ensures AskedBy(h, k, n, pos) <==> AskedBy(h, k - 1, n, pos) || ProbeBit(h, k - 1, n) == pos
  {
    hide ProbeBit;
  }

  lemma LastProbe(bits: Bytes, h: Word32, k: nat)
    requires bits != []
    ensures k == 0 ==> AddProbes(bits, h, Delta(h), k) == bits
    ensures k > 0 ==> ProbeBit(h, k - 1, 8 * |bits|) < 8 * |bits|
    ensures k > 0 ==> AddProbes(bits, h, Delta(h), k) == SetBitAt(AddProbes(bits, h, Delta(h), k - 1), ProbeBit(h, k - 1, 8 * |bits|))
  {
    hide SetBitAt, Delta;
    if k > 0 {
      ProbeIs(h, Delta(h), k - 1);
    }
  }

  lemma {:induction false} ProbesSetOnly(bits: Bytes, h: Word32, k: nat, pos: nat)
    requires pos < 8 * |bits|
    ensures BitAt(AddProbes(bits, h, Delta(h), k), pos) <==> BitAt(bits, pos) || AskedBy(h, k, 8 * |bits|, pos)
  {
    hide *;
    LastProbe(bits, h, k);
    if k > 0 {
      ProbesSetOnly(bits, h, k - 1, pos);
      OneBitAt(AddProbes(bits, h, Delta(h), k - 1), ProbeBit(h, k - 1, 8 * |bits|), pos);
      OneMoreProbe(h, k, 8 * |bits|, pos);
    } else {
      NoProbe(h, 8 * |bits|, pos);
    }
  }

  lemma NoProbe(h: Word32, n: nat, pos: nat)
    ensures !AskedBy(h, 0, n, pos)
  {
  }

  lemma {:induction false} KeysSetOnly(hash: HashFunction, bits: Bytes, keys: seq<Bytes>, k: nat, pos: nat)
    requires pos < 8 * |bits|
    ensures BitAt(AddKeys(hash, bits, keys, k), pos) <==> BitAt(bits, pos) || Asked(hash, keys, k, 8 * |bits|, pos)
  {
    hide BitAt, AddProbes, AskedBy, Delta;
    if keys != [] {
      var n := |keys| - 1;
      KeysSetOnly(hash, bits, keys[..n], k, pos);
      ProbesSetOnly(AddKeys(hash, bits, keys[..n], k), hash(keys[n]), k, pos);
      assert keys == keys[..n] + [keys[n]];
    }
  }

  lemma {:induction false} NoBits(n: nat)
    ensures !Bit(0, n)
  {
    if n > 0 {
      NoBits(n - 1);
    }
  }

  /** A filter for `n` keys has the least number of whole bytes with 64 bits and `bitsPerKey` for each key, in which exactly the
      bits that the keys' probes ask for are set, and then the number of probes. */
  lemma FilterBits(hash: HashFunction, bitsPerKey: nat, k: nat, keys: seq<Bytes>)
    requires k < 256
    ensures var filter := Create(hash, bitsPerKey, k, keys);
      var n := |filter| - 1;
      && n > 0 && filter[n] as nat == k && 8 * n >= 64 && 8 * n >= |keys| * bitsPerKey
      && (8 * (n - 1) < 64 || 8 * (n - 1) < |keys| * bitsPerKey)
      && forall pos :: 0 <= pos < 8 * n ==> (BitAt(filter[..n], pos) <==> Asked(hash, keys, k, 8 * n, pos))
  {
    hide BitAt, Asked;
    var empty := seq(ArrayBytes(|keys|, bitsPerKey), _ => 0 as Byte);
    var bits := AddKeys(hash, empty, keys, k);
    assert (bits + [k])[..|bits|] == bits;
    forall pos | 0 <= pos < 8 * |bits| ensures BitAt(bits, pos) <==> Asked(hash, keys, k, 8 * |bits|, pos) {
      KeysSetOnly(hash, empty, keys, k, pos);
      NothingSet(empty, pos);
    }
  }

  lemma NothingSet(bits: Bytes, pos: nat)
    requires pos < 8 * |bits| && bits[pos / 8] == 0
    ensures !BitAt(bits, pos)
  {
    NoBits(pos % 8);
  }

  /** A key is let through exactly if the number of probes is reserved or every bit its probes ask for is set. */
  lemma MatchIsAllSet(hash: HashFunction, key: Bytes, filter: Bytes)
    ensures MayMatch(hash, key, filter) <==>
            |filter| >= 2 &&
            var n := |filter| - 1;
            filter[n] > 30 || forall j :: 0 <= j < filter[n] as nat ==> BitAt(filter[..n], ProbeBit(hash(key), j, 8 * n))
  {
    hide BitAt, Delta;
    if |filter| >= 2 {
      var n := |filter| - 1;
      forall j | 0 <= j < filter[n] as nat
        ensures BitAt(filter[..n], Probe(hash(key), Delta(hash(key)), j) % (8 * n)) == BitAt(filter[..n], ProbeBit(hash(key), j, 8 * n)) {
        ProbeIs(hash(key), Delta(hash(key)), j);
      }
    }
  }

  /** No false negatives, for every hash function, size and number of probes. */
  lemma NoFalseNegatives(hash: HashFunction, bitsPerKey: nat, k: nat, keys: seq<Bytes>, key: Bytes)
    requires k < 256 && key in keys
    ensures MayMatch(hash, key, Create(hash, bitsPerKey, k, keys))
  {
    var filter := Create(hash, bitsPerKey, k, keys);
    var bits := AddKeys(hash, seq(ArrayBytes(|keys|, bitsPerKey), _ => 0), keys, k);
    assert filter[..|filter| - 1] == bits;
    KeyIsIn(hash, seq(ArrayBytes(|keys|, bitsPerKey), _ => 0), keys, k, key);
  }

  /** CreateFilter, stepping the hash in place. */
  method CreateFilter(hash: HashFunction, bitsPerKey: nat, k: nat, keys: seq<Bytes>) returns (filter: Bytes)
    requires k < 256
    ensures filter == Create(hash, bitsPerKey, k, keys)
  {
    hide SetBitAt, ArrayBytes, Delta, BitAt;
    var bits: Bytes := seq(ArrayBytes(|keys|, bitsPerKey), _ => 0);
    ghost var empty := bits;
    assert keys[..0] == [];
    for i := 0 to |keys|
      invariant |bits| == |empty| && bits == AddKeys(hash, empty, keys[..i], k)
    {
      var h: Word32 := hash(keys[i]);
      var delta := Delta(h);
      ghost var before, start := bits, h;
      for j := 0 to k
        invariant |bits| == |empty| && h == Probe(start, delta, j) && bits == AddProbes(before, start, delta, j)
      {
        bits := SetBitAt(bits, h % (8 * |bits|));
        h := (h + delta) % TWO32;
      }
      assert keys[..i + 1][..i] == keys[..i];
    }
    assert keys[..|keys|] == keys;
    filter := bits + [k];
  }

  method KeyMayMatch(hash: HashFunction, key: Bytes, filter: Bytes) returns (r: bool)
    ensures r == MayMatch(hash, key, filter)
  {
    hide BitAt, Delta;
    if |filter| < 2 {
      return false;
    }
    var bits, k := filter[..|filter| - 1], filter[|filter| - 1];
    if k > 30 {
      return true;
    }
    var h: Word32 := hash(key);
    var delta := Delta(h);
    for j := 0 to k as int
      invariant h == Probe(hash(key), delta, j)
      invariant AllProbes(bits, hash(key), delta, j)
    {
      if !BitAt(bits, h % (8 * |bits|)) {
        return false;
      }
      h := (h + delta) % TWO32;
    }
    return true;
  }
}
