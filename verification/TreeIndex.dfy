/** The arithmetic that maps a chunk size to its tree bin (compute_tree_index and
    leftshift_for_tree_index), and the size range each bin covers. */
module TreeIndex {
  import opened Words

  const NTREEBINS := 32
  const MIN_LARGE_SIZE := 256

  /** Sizes for which `S >> 8` fits the 32-bit `unsigned int X`. */
  const SIZE_LIMIT := 0x100_0000_0000

  /** `31 - __builtin_clz(x)`: the position of the highest set bit. */
  function Log2(x: nat): (k: nat)
    requires x > 0
    ensures Pow2(k) <= x < Pow2(k + 1)
  {
    if x == 1 then 0 else 1 + Log2(x / 2)
  }

  /** Conversion of a `size_t` to the 32-bit `unsigned int`. */
  function Truncate32(x: nat): nat
  {
    if x < 0x1_0000_0000 then x else x % 0x1_0000_0000
  }

  function ComputeTreeIndex(s: nat): nat
  {
    var x := Truncate32(s / 256);
    if x == 0 then 0
    else if x > 0xFFFF then NTREEBINS - 1
    else MiddleIndex(s, Log2(x))
  }

  /** Two bins per power of two: the bit below the leading one selects between them. */
  function MiddleIndex(s: nat, k: nat): nat
  {
    2 * k + (s / Pow2(k + 7)) % 2
  }

  function LeftShift(i: nat): nat
    requires i < NTREEBINS
  {
    if i == NTREEBINS - 1 then 0 else 63 - (i / 2 + 6)
  }

  /** The least size of bin `i`. */
  function BinStart(i: nat): nat
    requires i < NTREEBINS
  {
    if i % 2 == 0 then Pow2(i / 2 + 8) else Pow2(i / 2 + 8) + Pow2(i / 2 + 7)
  }

  /** `s` belongs to bin `i`: bins are consecutive intervals, the last one unbounded. */
  predicate InBin(s: nat, i: nat)
  {
    i < NTREEBINS && BinStart(i) <= s && (i + 1 < NTREEBINS ==> s < BinStart(i + 1))
  }

  lemma BinsAbut(i: nat)
    requires i + 1 < NTREEBINS
    ensures BinStart(i + 1) == BinStart(i) + Pow2(i / 2 + 7)
  {
    assert (i + 1) / 2 == if i % 2 == 0 then i / 2 else i / 2 + 1;
  }

  lemma {:induction false} BinStartMono(i: nat, j: nat)
    requires i < j < NTREEBINS
    ensures BinStart(i) < BinStart(j)
  {
    BinsAbut(j - 1);
    if i < j - 1 {
      BinStartMono(i, j - 1);
    }
  }

  lemma HighBits(s: nat, k: nat)
    requires Pow2(k) <= s / 256 < Pow2(k + 1)
    ensures (s / Pow2(k + 7)) % 2 == 0 ==> Pow2(k + 8) <= s < Pow2(k + 8) + Pow2(k + 7)
    ensures (s / Pow2(k + 7)) % 2 == 1 ==> Pow2(k + 8) + Pow2(k + 7) <= s < Pow2(k + 9)
  {
    Pow2Values();
    Pow2Sum(k, 8);
    Pow2Sum(k + 1, 8);
    var p := Pow2(k + 7);
    assert 2 * p <= s < 4 * p;
    DivBounds(s, p, 2, 4);
    assert s / p == 2 || s / p == 3;
  }

  lemma BinStarts(k: nat)
    requires k < 16
    ensures BinStart(2 * k) == Pow2(k + 8)
    ensures BinStart(2 * k + 1) == Pow2(k + 8) + Pow2(k + 7)
    ensures k < 15 ==> BinStart(2 * k + 2) == Pow2(k + 9)
  {
    assert (2 * k) / 2 == k && (2 * k) % 2 == 0;
    assert (2 * k + 1) / 2 == k && (2 * k + 1) % 2 == 1;
    assert (2 * k + 2) / 2 == k + 1 && (2 * k + 2) % 2 == 0;
  }

  lemma MiddleInBin(s: nat, k: nat)
    requires k < 16 && Pow2(k) <= s / 256 < Pow2(k + 1)
    ensures InBin(s, MiddleIndex(s, k))
  {
    HighBits(s, k);
    BinStarts(k);
  }

  lemma LastInBin(s: nat)
    requires s / 256 >= 0xC000
    ensures InBin(s, 31)
  {
    Pow2Values();
  }

  /** Below the limit the computed index is the bin the size belongs to. */
  lemma IndexInBin(s: nat)
    requires MIN_LARGE_SIZE <= s < SIZE_LIMIT
    ensures InBin(s, ComputeTreeIndex(s))
  {
    var x := s / 256;
    if x > 0xFFFF {
      LastInBin(s);
    } else {
      LogBound(x, Log2(x));
      MiddleInBin(s, Log2(x));
    }
  }

  lemma LogBound(x: nat, k: nat)
    requires 0 < x <= 0xFFFF && Pow2(k) <= x
    ensures k < 16
  {
    Pow2Values();
    Pow2Less(k, 16);
  }

  lemma IndexBelow(s: nat)
    ensures ComputeTreeIndex(s) < NTREEBINS
  {
    var x := Truncate32(s / 256);
    if 0 < x <= 0xFFFF {
      LogBound(x, Log2(x));
    }
  }

  lemma BinUnique(s: nat, i: nat, j: nat)
    requires InBin(s, i) && InBin(s, j)
    ensures i == j
  {
    if i < j {
      if i + 1 < j { BinStartMono(i + 1, j); }
    } else if j < i {
      if j + 1 < i { BinStartMono(j + 1, i); }
    }
  }

  lemma BinsOrdered(s: nat, t: nat, i: nat, j: nat)
    requires InBin(s, i) && InBin(t, j) && i < j
    ensures s < t
  {
    if i + 1 < j { BinStartMono(i + 1, j); }
  }

  /** A smaller bin index means a strictly smaller size. */
  lemma IndexMonotone(s: nat, t: nat)
    requires MIN_LARGE_SIZE <= s < SIZE_LIMIT && MIN_LARGE_SIZE <= t < SIZE_LIMIT
    requires ComputeTreeIndex(s) < ComputeTreeIndex(t)
    ensures s < t
  {
    IndexInBin(s);
    IndexInBin(t);
    BinsOrdered(s, t, ComputeTreeIndex(s), ComputeTreeIndex(t));
  }

  /** Without the limit the 32-bit truncation can pick a wrong bin; exactly when it does. */
  lemma IndexCorrectIff(s: nat)
    requires s >= MIN_LARGE_SIZE
    ensures InBin(s, ComputeTreeIndex(s)) <==> (s < SIZE_LIMIT || Truncate32(s / 256) >= 0xC000)
  {
    Pow2Values();
    if s < SIZE_LIMIT {
      IndexInBin(s);
    } else {
      LastInBin(s);
      var x := Truncate32(s / 256);
      var i := ComputeTreeIndex(s);
      if InBin(s, i) { BinUnique(s, i, 31); }
      if 0 < x <= 0xFFFF { TruncatedIndex(s, x); }
    }
  }

  lemma BitBelow(s: nat, x: nat)
    requires x == Truncate32(s / 256)
    ensures (s / 0x40_0000) % 2 == (x / 0x4000) % 2
  {
    var q := s / 256;
    assert s / 0x40_0000 == q / 0x4000;
    if q != x {
      var m := q / 0x1_0000_0000;
      assert q == m * 0x1_0000_0000 + x;
      ShiftedBit(q, x, m);
    }
  }

  lemma ShiftedBit(q: nat, x: nat, m: nat)
    requires q == m * 0x1_0000_0000 + x
    ensures (q / 0x4000) % 2 == (x / 0x4000) % 2
  {
    assert q / 0x4000 == m * 0x4_0000 + x / 0x4000;
  }

  lemma LowTruncated(s: nat, x: nat, k: nat)
    requires x < 0x8000 && k < 15
    ensures MiddleIndex(s, k) != 31
  {
  }

  lemma HighTruncated(s: nat, x: nat)
    requires x == Truncate32(s / 256) && 0x8000 <= x <= 0xFFFF
    ensures MiddleIndex(s, 15) == 31 <==> x >= 0xC000
  {
    Pow2Values();
    BitBelow(s, x);
  }

  lemma TruncatedIndex(s: nat, x: nat)
    requires x == Truncate32(s / 256) && 0 < x <= 0xFFFF
    ensures MiddleIndex(s, Log2(x)) == 31 <==> x >= 0xC000
  {
    var k := Log2(x);
    LogBound(x, k);
    assert Pow2(15) == 0x8000 by { Pow2Values(); }
    if x >= 0x8000 {
      Pow2Less(15, k + 1);
      HighTruncated(s, x);
    } else {
      Pow2Less(k, 15);
      LowTruncated(s, x, k);
    }
  }
}
