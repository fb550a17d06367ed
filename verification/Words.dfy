/** Powers of two and the width of `size_t`. */
module Words {

  /** 2^64: `size_t` values are the naturals below it. */
  const WORD := 0x1_0000_0000_0000_0000

  /** 2^63 */
  const HALF := 0x8000_0000_0000_0000

  function Pow2(n: nat): (p: nat)
    ensures p > 0
  {
    if n == 0 then 1 else 2 * Pow2(n - 1)
  }

  lemma {:induction false} Pow2Sum(m: nat, n: nat)
    ensures Pow2(m + n) == Pow2(m) * Pow2(n)
  {
    if m > 0 {
      Pow2Sum(m - 1, n);
      assert Pow2(m + n) == 2 * Pow2(m - 1 + n);
      assert 2 * (Pow2(m - 1) * Pow2(n)) == (2 * Pow2(m - 1)) * Pow2(n);
    }
  }

  lemma {:induction false} Pow2Mono(m: nat, n: nat)
    requires m < n
    ensures 2 * Pow2(m) <= Pow2(n)
  {
    if m + 1 < n {
      Pow2Mono(m, n - 1);
    }
  }

  lemma {:induction false} Pow2Less(m: nat, n: nat)
    requires Pow2(m) < Pow2(n)
    ensures m < n
  {
    if m > 0 && n > 0 {
      Pow2Less(m - 1, n - 1);
    }
  }

  lemma Pow2Values()
    ensures Pow2(7) == 128 && Pow2(8) == 256
    ensures Pow2(14) == 0x4000 && Pow2(15) == 0x8000 && Pow2(16) == 0x1_0000
    ensures Pow2(22) == 0x40_0000 && Pow2(23) == 0x80_0000
  {
    assert Pow2(14) == 0x4000 by { Pow2Sum(7, 7); }
    assert Pow2(22) == 0x40_0000 by { Pow2Sum(8, 14); }
  }

  lemma Pow2Word()
    ensures Pow2(64) == WORD
  {
    Pow2Values();
    assert Pow2(32) == 0x1_0000_0000 by { Pow2Sum(16, 16); }
    Pow2Sum(32, 32);
  }

  /** `x << n` on a `size_t`. */
  function ShiftLeft(x: nat, n: nat): nat { (x * Pow2(n)) % WORD }

  /** `(k >> 63) & 1`. */
  predicate TopBit(k: nat) { (k / HALF) % 2 == 1 }

  lemma TopBitIs(k: nat)
    requires k < WORD
    ensures TopBit(k) == (k >= HALF)
  {
  }

  lemma ModAdd(x: nat, c: nat)
    requires x < WORD
    ensures (x + c * WORD) % WORD == x
  {
  }

  /** Shifting by one drops bit 63. */
  lemma ShiftOne(k: nat)
    requires k < WORD
    ensures ShiftLeft(k, 1) == if TopBit(k) then 2 * k - WORD else 2 * k
  {
    assert Pow2(1) == 2;
    TopBitIs(k);
    if k >= HALF {
      ModAdd(2 * k - WORD, 1);
    } else {
      ModAdd(2 * k, 0);
    }
  }

  lemma MulAssoc(x: nat, y: nat, z: nat)
    ensures (x * y) * z == x * (y * z)
  {
  }

  lemma MulSucc(m: nat, n: nat)
    ensures m * (n + 1) == m * n + m
  {
  }

  lemma MulNonNegative(x: nat, y: nat)
    ensures x * y >= 0
  {
  }

  lemma MulLt(x: nat, y: nat, m: nat)
    requires x < y && m > 0
    ensures x * m < y * m
  {
  }

  lemma MulLe(x: int, y: int, p: nat)
    requires x <= y
    ensures x * p <= y * p
  {
  }

  lemma DivBounds(s: nat, p: nat, lo: nat, hi: nat)
    requires p > 0 && lo * p <= s < hi * p
    ensures lo <= s / p < hi
    ensures (s / p) * p <= s < (s / p) * p + p
  {
    var q := s / p;
    assert s == q * p + s % p;
    if q < lo { MulLe(q + 1, lo, p); }
    if q >= hi { MulLe(hi, q, p); }
  }
}
