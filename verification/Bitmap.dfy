/** The 32-bit bin maps of MallocState. A `binmap_t` is modelled bit by bit, as the
    sequence of its 32 bits with the least significant first; the operators below are
    C's unsigned operators on that representation, negation being two's complement. */
module Bitmap {

  const NBINS := 32

  type Word = w: seq<bool> | |w| == NBINS witness Zeros(NBINS)

  const ZERO: Word := Zeros(NBINS)

  function Zeros(n: nat): (w: seq<bool>)
    ensures |w| == n && forall i | 0 <= i < n :: !w[i]
  {
    if n == 0 then [] else Zeros(n - 1) + [false]
  }

  function And(x: Word, y: Word): Word { seq(NBINS, (i: nat) requires i < NBINS => x[i] && y[i]) }

  function Or(x: Word, y: Word): Word { seq(NBINS, (i: nat) requires i < NBINS => x[i] || y[i]) }

  function Not(x: Word): Word { seq(NBINS, (i: nat) requires i < NBINS => !x[i]) }

  function Shl(x: Word, n: nat): Word { seq(NBINS, (i: nat) requires i < NBINS => i >= n && x[i - n]) }

  function Shr(x: Word, n: nat): Word { seq(NBINS, (i: nat) requires i < NBINS => i + n < NBINS && x[i + n]) }

  /** The carry into bit `i` when one is added to the complement of `x`. */
  predicate Carry(x: Word, i: nat)
    requires i < NBINS
  {
    i == 0 || (Carry(x, i - 1) && !x[i - 1])
  }

  /** `-x`: complement, then add one. */
  function Neg(x: Word): Word { seq(NBINS, (i: nat) requires i < NBINS => !x[i] != Carry(x, i)) }

  lemma ZeroHasNoBit(x: Word)
    ensures x == ZERO <==> forall i | 0 <= i < NBINS :: !x[i]
  {
    if forall i | 0 <= i < NBINS :: !x[i] {
      assert x == ZERO;
    }
  }

  // ---- the helpers of MallocState ----

  function Idx2Bit(i: nat): Word
    requires i < NBINS
  {
    seq(NBINS, (j: nat) requires j < NBINS => j == i)
  }

  function Mark(x: Word, i: nat): Word
    requires i < NBINS
  {
    Or(x, Idx2Bit(i))
  }

  function Clear(x: Word, i: nat): Word
    requires i < NBINS
  {
    And(x, Not(Idx2Bit(i)))
  }

  predicate IsMarked(x: Word, i: nat)
    requires i < NBINS
  {
    And(x, Idx2Bit(i)) != ZERO
  }

  function LeastBit(x: Word): Word { And(x, Neg(x)) }

  function LeftBits(x: Word): Word { Or(Shl(x, 1), Neg(Shl(x, 1))) }

  /** `__builtin_ctz`: the number of zero bits below the least set one. */
  function Ctz(x: Word): (n: nat)
    requires x != ZERO
    ensures n < NBINS
  {
    CtzFrom(x, 0)
  }

  function CtzFrom(x: Word, i: nat): (n: nat)
    requires i <= NBINS && x != ZERO && forall j | 0 <= j < i :: !x[j]
    ensures n < NBINS && x[n] && forall j | 0 <= j < n :: !x[j]
    decreases NBINS - i
  {
    ZeroHasNoBit(x);
    if x[i] then i else CtzFrom(x, i + 1)
  }

  // ---- what they mean on the set of marked bins ----

  /** The indices of the set bits. */
  ghost function Bins(x: Word): set<nat>
  {
    set i: nat | i < NBINS && x[i]
  }

  lemma MarkBins(x: Word, i: nat)
    requires i < NBINS
    ensures Bins(Mark(x, i)) == Bins(x) + {i}
    ensures Bins(Clear(x, i)) == Bins(x) - {i}
    ensures IsMarked(x, i) == (i in Bins(x))
  {
    if x[i] {
      assert And(x, Idx2Bit(i))[i];
      assert And(x, Idx2Bit(i)) != ZERO;
    } else {
      assert And(x, Idx2Bit(i)) == ZERO;
    }
  }

  lemma {:induction false} CarryMeaning(x: Word, i: nat)
    requires i < NBINS
    ensures Carry(x, i) == forall j | 0 <= j < i :: !x[j]
  {
    if i > 0 {
      CarryMeaning(x, i - 1);
    }
  }

  /** `x & -x` keeps exactly the least set bit, and `ctz` reads its index off. */
  lemma LeastBitIndex(x: Word)
    requires x != ZERO
    ensures LeastBit(x) != ZERO
    ensures var i := Ctz(LeastBit(x)); i in Bins(x) && forall j | j in Bins(x) :: i <= j
  {
    var m := CtzFrom(x, 0);
    forall i: nat | i < NBINS ensures LeastBit(x)[i] == (i == m) {
      CarryMeaning(x, i);
    }
    assert LeastBit(x)[m];
  }

  /** `left_bits` of a single bit is the mask of all higher bits. */
  lemma LeftBitsOfBit(i: nat)
    requires i < NBINS
    ensures forall j: nat | j < NBINS :: (j in Bins(LeftBits(Idx2Bit(i)))) == (i < j)
  {
    var y := Shl(Idx2Bit(i), 1);
    forall j: nat | j < NBINS ensures LeftBits(Idx2Bit(i))[j] == (j > i) {
      assert forall k: nat | k < NBINS :: y[k] == (k == i + 1);
      CarryMeaning(y, j);
      if j > i + 1 {
        assert y[i + 1];
      }
    }
  }

  lemma AndBins(x: Word, y: Word)
    ensures Bins(And(x, y)) == Bins(x) * Bins(y)
  {
  }

  lemma ZeroBins(x: Word)
    ensures (x == ZERO) == (Bins(x) == {})
  {
    ZeroHasNoBit(x);
    if i: nat :| i < NBINS && x[i] {
      assert i in Bins(x);
    }
  }
}
