/** Natural numbers as rows of bits. */
module Bits {
  import opened Coding

  function Power2(n: nat): (r: nat)
    ensures r >= 1
  {
    if n == 0 then 1 else 2 * Power2(n - 1)
  }

  /** Bit `k` of `b`, counting from the lowest. */
  predicate Bit(b: nat, k: nat) {
    if k == 0 then b % 2 == 1 else Bit(b / 2, k - 1)
  }

  /** An `n`-bit number with bit `k` or-ed in. */
  function WithBit(b: nat, k: nat, n: nat): (r: nat)
    requires k < n && b < Power2(n)
    ensures r < Power2(n)
  {
    if k == 0 then b / 2 * 2 + 1 else 2 * WithBit(b / 2, k - 1, n - 1) + b % 2
  }

  lemma {:induction false} OneBit(b: nat, k: nat, n: nat, j: nat)
    requires k < n && b < Power2(n)
    ensures Bit(WithBit(b, k, n), j) <==> j == k || Bit(b, j)
  {
    var r := WithBit(b, k, n);
    if k == 0 {
      assert r / 2 == b / 2;
    } else {
      assert r / 2 == WithBit(b / 2, k - 1, n - 1) && r % 2 == b % 2;
      if j > 0 {
        OneBit(b / 2, k - 1, n - 1, j - 1);
      }
    }
  }

  /** Bitwise or of `n`-bit numbers. */
  function Or(a: nat, b: nat, n: nat): (r: nat)
    requires a < Power2(n) && b < Power2(n)
    ensures r < Power2(n)
  {
    if n == 0 then 0
    else 2 * Or(a / 2, b / 2, n - 1) + (if a % 2 == 1 || b % 2 == 1 then 1 else 0)
  }

  lemma {:induction false} OrNothing(b: nat, n: nat)
    requires b < Power2(n)
    ensures Or(0, b, n) == b
  {
    if n > 0 {
      OrNothing(b / 2, n - 1);
    }
  }

  /** Or-ing a number shifted past all bits of another adds it. */
  lemma {:induction false} OrAppends(a: nat, d: nat, k: nat, n: nat)
    requires a < Power2(k) && d * Power2(k) < Power2(n) && k <= n
    ensures a < Power2(n) && Or(a, d * Power2(k), n) == a + d * Power2(k)
    decreases k
  {
    PowersAscend(k, n);
    if k == 0 {
      OrNothing(d, n);
    } else {
      var half := d * Power2(k - 1);
      assert d * Power2(k) == 2 * half;
      OrAppends(a / 2, d, k - 1, n - 1);
    }
  }

  lemma {:induction false} PowersAscend(k: nat, n: nat)
    requires k <= n
    ensures Power2(k) <= Power2(n)
    decreases n
  {
    if k < n {
      PowersAscend(k, n - 1);
    }
  }

  lemma {:induction false} PowersAdd(j: nat, k: nat)
    ensures Power2(j + k) == Power2(j) * Power2(k)
  {
    if j > 0 {
      PowersAdd(j - 1, k);
      assert Power2(j) * Power2(k) == 2 * (Power2(j - 1) * Power2(k));
    }
  }

  lemma Distribute(d: nat, b: nat, e: nat, p: nat, q: nat)
    requires d == b * p + e
    ensures d * q == b * (p * q) + e * q
  {
    assert (b * p + e) * q == b * p * q + e * q;
    assert b * p * q == b * (p * q);
  }

  lemma TimesAtMost(e: nat, f: nat, q: nat)
    requires e <= f
    ensures e * q <= f * q
  {
    assert (f - e) * q >= 0;
    assert (f - e) * q == f * q - e * q;
  }

  /** Shifting left loses the digits that do not fit. */
  lemma ShiftLoses(a: nat, d: nat, p: nat, q: nat)
    requires p > 0 && a < q
    ensures a + d % p * q < p * q
    ensures (a + d * q) % (p * q) == a + d % p * q
  {
    var b, e := d / p, d % p;
    TimesAtMost(e, p - 1, q);
    assert (p - 1) * q == p * q - q;
    Distribute(d, b, e, p, q);
    RemainderIsUnique(a + d * q, b, a + e * q, p * q);
  }

  /** Or-ing in a shifted number adds it, as far as it fits. */
  lemma OrShifted(a: nat, d: nat, k: nat, n: nat)
    requires a < Power2(k) && k <= n
    ensures d * Power2(k) % Power2(n) < Power2(n) && a < Power2(n)
    ensures Or(a, d * Power2(k) % Power2(n), n) == (a + d * Power2(k)) % Power2(n)
  {
    hide Power2, Or;
    PowersAscend(k, n);
    PowersAdd(n - k, k);
    var p, q := Power2(n - k), Power2(k);
    ShiftLoses(0, d, p, q);
    ShiftLoses(a, d, p, q);
    OrAppends(a, d % p, k, n);
  }

  /** `low` with `d` put in from bit `k` on. */
  function Plus(low: nat, d: nat, k: nat): nat {
    low + d * Power2(k)
  }

  /** Seven bits at a time. */
  lemma PlusSplits(low: nat, d: nat, w: nat, k: nat)
    ensures Plus(low, d + 128 * w, k) == Plus(Plus(low, d, k), w, k + 7)
  {
    SevenMore(k);
    var q := Power2(k);
    assert (d + 128 * w) * q == d * q + w * (128 * q);
  }

  lemma PlusFits(low: nat, d: nat, k: nat)
    requires low < Power2(k) && d < 128
    ensures Plus(low, d, k) < Power2(k + 7)
  {
    SevenMore(k);
    TimesAtMost(d, 127, Power2(k));
  }

  lemma SevenMore(k: nat)
    ensures Power2(k + 7) == 128 * Power2(k)
  {
    PowersAdd(7, k);
    assert Power2(7) == 128 by {
      assert Power2(2) == 4 && Power2(4) == 16;
    }
  }

  /** All bits of the greatest number are set. */
  lemma {:induction false} GreatestHasAllBits(n: nat, j: nat)
    requires j < n
    ensures Bit(Power2(n) - 1, j)
    decreases n
  {
    assert (Power2(n) - 1) / 2 == Power2(n - 1) - 1;
    if j > 0 {
      GreatestHasAllBits(n - 1, j - 1);
    }
  }

  /** Only the greatest number has all bits set. */
  lemma {:induction false} AllBitsSet(w: nat, n: nat)
    requires w < Power2(n)
    requires forall j :: 0 <= j < n ==> Bit(w, j)
    ensures w == Power2(n) - 1
    decreases n
  {
    if n > 0 {
      assert Bit(w, 0);
      forall j | 0 <= j < n - 1 ensures Bit(w / 2, j) {
        assert Bit(w, j + 1);
      }
      AllBitsSet(w / 2, n - 1);
    }
  }

  /** Without its upper bits a number is small. */
  lemma {:induction false} UpperBitsClear(w: nat, r: nat, n: nat)
    requires w < Power2(n) && r <= n
    requires forall j :: r <= j < n ==> !Bit(w, j)
    ensures w < Power2(r)
    decreases n
  {
    if n > 0 {
      if r > 0 {
        forall j | r - 1 <= j < n - 1 ensures !Bit(w / 2, j) {
          assert !Bit(w, j + 1);
        }
        UpperBitsClear(w / 2, r - 1, n - 1);
      } else {
        assert !Bit(w, 0);
        forall j | 0 <= j < n - 1 ensures !Bit(w / 2, j) {
          assert !Bit(w, j + 1);
        }
        UpperBitsClear(w / 2, 0, n - 1);
      }
    }
  }

  /** The bits of a number put together of a low and a high part. */
  lemma {:induction false} BitOfSum(low: nat, high: nat, k: nat, j: nat)
    requires low < Power2(k)
    ensures Bit(low + high * Power2(k), j) <==> if j < k then Bit(low, j) else Bit(high, j - k)
  {
    if k > 0 {
      var half := low / 2 + high * Power2(k - 1);
      assert high * Power2(k) == 2 * (high * Power2(k - 1));
      assert (low + high * Power2(k)) / 2 == half && (low + high * Power2(k)) % 2 == low % 2;
      if j > 0 {
        BitOfSum(low / 2, high, k - 1, j - 1);
      }
    }
  }

  /** The quotient by `p` with the remainder put above it, `q` times as high. */
  function Rotated(x: nat, p: nat, q: nat): nat
    requires p > 0
  {
    var low: nat, high: nat := x % p, x / p;
    high + low * q
  }

  /** The lowest `r` bits moved above the others: a rotation to the right. */
  lemma RotatesRight(x: nat, r: nat, n: nat, j: nat)
    requires r <= n && x < Power2(n) && j < n
    ensures Bit(Rotated(x, Power2(r), Power2(n - r)), j) <==> Bit(x, (j + r) % n)
  {
    hide Bit, Power2;
    var p, q := Power2(r), Power2(n - r);
    var low, high := x % p, x / p;
    PowersAdd(n - r, r);
    PartsOf(x, p, q);
    BitOfSum(high, low, n - r, j);
    TurnedIndex(j, r, n);
    BitOfSum(low, high, r, if j < n - r then j + r else j + r - n);
  }

  lemma TurnedIndex(j: nat, r: nat, n: nat)
    requires j < n && r <= n
    ensures (j + r) % n == if j < n - r then j + r else j + r - n
  {
    DivisionIsUnique(j + r, if j < n - r then 0 else 1, if j < n - r then j + r else j + r - n, n);
  }

  lemma PartsOf(x: nat, p: nat, q: nat)
    requires p > 0 && x < q * p
    ensures x == x % p + x / p * p && x % p < p && x / p < q
  {
    if x / p >= q {
      TimesAtMost(q, x / p, p);
    }
  }

  lemma WordSizes()
    ensures Power2(8) == 256 && Power2(32) == 0x1_0000_0000 && Power2(64) == 0x1_0000_0000_0000_0000
  {
    hide Power2;
    ByteSize();
    PowersAdd(8, 8);
    PowersAdd(16, 16);
    PowersAdd(32, 32);
  }

  lemma HalfWords()
    ensures Power2(15) == 0x8000 && Power2(17) == 0x2_0000
  {
    ByteSize();
    PowersAdd(8, 8);
    assert Power2(17) == 2 * Power2(16) && Power2(16) == 2 * Power2(15);
  }

  lemma ByteSize()
    ensures Power2(8) == 256
  {
    assert Power2(2) == 4 && Power2(4) == 16 && Power2(6) == 64;
  }
}
