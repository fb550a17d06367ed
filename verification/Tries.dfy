/** The shape of a tree bin: a bitwise trie in which every node's size lies in the interval
    selected by the path from the bin's root. Paths name the slots of the trie. */
module Tries {
  import opened Words
  import opened TreeIndex

  datatype Path = Root(bin: nat) | Step(up: Path, right: bool)

  function BinOf(p: Path): nat
  {
    match p
    case Root(i) => i
    case Step(u, _) => BinOf(u)
  }

  function Depth(p: Path): nat
  {
    match p
    case Root(_) => 0
    case Step(u, _) => 1 + Depth(u)
  }

  /** How many low-order bits of a size are still undetermined at `p`. */
  function Bits(p: Path): (b: int)
    ensures b <= 64
  {
    match p
    case Root(i) => if i < NTREEBINS then 64 - LeftShift(i) else 0
    case Step(u, _) => Bits(u) - 1
  }

  function Width(p: Path): nat
  {
    if Bits(p) >= 0 then Pow2(Bits(p)) else 0
  }

  /** The least size that may sit at or below `p`. */
  function Lo(p: Path): nat
  {
    match p
    case Root(i) => if i + 1 < NTREEBINS then BinStart(i) else 0
    case Step(u, right) => if right then Lo(u) + Width(u) / 2 else Lo(u)
  }

  ghost predicate InRange(p: Path, s: nat)
  {
    Lo(p) <= s < Lo(p) + Width(p)
  }

  /** `q` is `p` or one of its descendants. */
  ghost predicate Under(p: Path, q: Path)
  {
    q == p || (q.Step? && Under(p, q.up))
  }

  /** The child of `p` on the way to size `s`. */
  ghost function Toward(p: Path, s: nat): Path
  {
    Step(p, s >= Lo(p) + Width(p) / 2)
  }

  // ---- intervals ----

  lemma Halves(p: Path)
    ensures Width(p) > 1 ==> Width(p) == 2 * Width(Step(p, false)) == 2 * Width(Step(p, true))
    ensures Width(p) <= 1 ==> Width(Step(p, false)) == Width(Step(p, true)) == 0
  {
  }

  lemma ChildRange(p: Path, right: bool, s: nat)
    requires InRange(Step(p, right), s)
    ensures InRange(p, s) && Toward(p, s) == Step(p, right) && Width(p) > 1
  {
    Halves(p);
  }

  lemma TowardRange(p: Path, s: nat)
    requires InRange(p, s) && Width(p) > 1
    ensures InRange(Toward(p, s), s)
  {
    Halves(p);
  }

  lemma {:induction false} RangeNested(p: Path, q: Path, s: nat)
    requires Under(p, q) && InRange(q, s)
    ensures InRange(p, s)
  {
    if q != p {
      ChildRange(q.up, q.right, s);
      RangeNested(p, q.up, s);
    }
  }

  /** Whatever lies strictly below `p` lies below one of its two children. */
  lemma {:induction false} UnderChild(p: Path, q: Path)
    requires Under(p, q) && q != p
    ensures Under(Step(p, false), q) || Under(Step(p, true), q)
  {
    if q.up != p {
      UnderChild(p, q.up);
    }
  }

  /** The sizes below `p` that can match `s` all lie on the side `s` itself takes. */
  lemma UnderToward(p: Path, q: Path, s: nat)
    requires Under(p, q) && q != p && InRange(q, s)
    ensures Under(Toward(p, s), q)
  {
    UnderChild(p, q);
    if Under(Step(p, false), q) {
      RangeNested(Step(p, false), q, s);
      ChildRange(p, false, s);
    } else {
      RangeNested(Step(p, true), q, s);
      ChildRange(p, true, s);
    }
  }

  /** Everything under the left child is smaller than everything under the right child. */
  lemma LeftBelowRight(p: Path, l: Path, r: Path, s: nat, t: nat)
    requires Under(Step(p, false), l) && Under(Step(p, true), r)
    requires InRange(l, s) && InRange(r, t)
    ensures s < t
  {
    RangeNested(Step(p, false), l, s);
    RangeNested(Step(p, true), r, t);
    Halves(p);
  }

  lemma {:induction false} UnderTrans(p: Path, q: Path, r: Path)
    requires Under(p, q) && Under(q, r)
    ensures Under(p, r)
  {
    if r != q {
      UnderTrans(p, q, r.up);
    }
  }

  lemma {:induction false} UnderDepth(p: Path, q: Path)
    requires Under(p, q)
    ensures Depth(p) <= Depth(q)
  {
    if q != p {
      UnderDepth(p, q.up);
    }
  }

  lemma {:induction false} UnderBin(p: Path, q: Path)
    requires Under(p, q)
    ensures BinOf(p) == BinOf(q)
  {
    if q != p {
      UnderBin(p, q.up);
    }
  }

  lemma {:induction false} UnderRoot(q: Path)
    ensures Under(Root(BinOf(q)), q)
  {
    if q.Step? {
      UnderRoot(q.up);
    }
  }

  lemma RootRange(s: nat, i: nat)
    requires InBin(s, i) && s < SIZE_LIMIT
    ensures InRange(Root(i), s)
  {
    if i + 1 < NTREEBINS {
      BinsAbut(i);
    } else {
      Pow2Word();
    }
  }

  // ---- the shifted size register `K` / `sizebits` ----

  /** The value of the register after following `s` down to `p`: the undetermined low bits
      of `s`, moved up so that the next one to test is bit 63. */
  ghost function Register(p: Path, s: nat): nat
    requires InRange(p, s)
  {
    var d: nat := s - Lo(p);
    MulNonNegative(d, Pow2(64 - Bits(p)));
    d * Pow2(64 - Bits(p))
  }

  lemma RegisterBelow(p: Path, s: nat)
    requires InRange(p, s)
    ensures Width(p) * Pow2(64 - Bits(p)) == WORD
    ensures Register(p, s) < WORD
  {
    var w, m := Width(p), Pow2(64 - Bits(p));
    Pow2Sum(Bits(p), 64 - Bits(p));
    Pow2Word();
    MulLt(s - Lo(p), w, m);
  }

  lemma ShiftSplit(s: nat, lo: nat, m: nat, n: nat, c: nat)
    requires m == Pow2(n) && lo <= s && lo * m == c * WORD && (s - lo) * m < WORD
    ensures ShiftLeft(s, n) == (s - lo) * m
  {
    assert s * m == (s - lo) * m + lo * m;
    ModAdd((s - lo) * m, c);
  }

  lemma RootLo(i: nat)
    requires i + 1 < NTREEBINS
    ensures Lo(Root(i)) == (if i % 2 == 0 then 2 else 3) * Width(Root(i))
  {
  }

  /** Starting a descent: `S << leftshift_for_tree_index(I)`. */
  lemma RegisterStart(s: nat, i: nat)
    requires InBin(s, i) && s < SIZE_LIMIT
    ensures InRange(Root(i), s) && ShiftLeft(s, LeftShift(i)) == Register(Root(i), s)
  {
    RootRange(s, i);
    var p := Root(i);
    RegisterBelow(p, s);
    var w, m := Width(p), Pow2(LeftShift(i));
    if i + 1 < NTREEBINS {
      var c := if i % 2 == 0 then 2 else 3;
      RootLo(i);
      MulAssoc(c, w, m);
      ShiftSplit(s, Lo(p), m, LeftShift(i), c);
    } else {
      ShiftSplit(s, 0, 1, 0, 0);
    }
  }

  /** One level down: the tested bit says which child, and the register follows. */
  lemma RegisterStep(p: Path, s: nat)
    requires InRange(p, s) && Width(p) > 1
    ensures TopBit(Register(p, s)) == Toward(p, s).right
    ensures InRange(Toward(p, s), s)
    ensures ShiftLeft(Register(p, s), 1) == Register(Toward(p, s), s)
  {
    Halves(p);
    TowardRange(p, s);
    RegisterBelow(p, s);
    var d, h, m := s - Lo(p), Width(Step(p, false)), Pow2(64 - Bits(p));
    assert Width(p) / 2 == h;
    HalfStep(d, h, m);
    assert Pow2(64 - Bits(Toward(p, s))) == 2 * m;
  }

  lemma HalfStep(d: nat, h: nat, m: nat)
    requires (2 * h) * m == WORD && d < 2 * h && d * m < WORD
    ensures TopBit(d * m) == (d >= h)
    ensures ShiftLeft(d * m, 1) == (if d >= h then d - h else d) * (2 * m)
  {
    MulAssoc(2, h, m);
    TopBitIs(d * m);
    ShiftOne(d * m);
    if d >= h {
      MulLe(h, d, m);
      assert (d - h) * m == d * m - h * m;
      MulAssoc2(d - h, m);
    } else {
      MulLt(d, h, m);
      MulAssoc2(d, m);
    }
  }

  lemma MulAssoc2(x: nat, m: nat)
    ensures x * (2 * m) == 2 * (x * m)
  {
  }
}
