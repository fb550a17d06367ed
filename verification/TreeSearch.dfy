/** Best-fit search in the tree bins: what the loops of tmalloc_small and tmalloc_large know. */
module TreeSearch {
  import opened Bitmap
  import opened Words
  import opened Rings
  import opened TreeIndex
  import opened Tries
  import opened TreeBins
  import opened BinIndex

  /** `a - b` on a `size_t`. */
  function SubWord(a: nat, b: nat): nat
    requires a < WORD && b < WORD
  {
    if a >= b then a - b else a + WORD - b
  }

  /** `s` is at least `nb` and at most every binned size that is. */
  ghost predicate LeastSize(binned: map<Ptr, nat>, nb: nat, s: nat)
  {
    nb <= s && forall e | e in binned && binned[e] >= nb :: s <= binned[e]
  }

  /** `s` is at most the size of every tree chunk. */
  ghost predicate LeastLarge(binned: map<Ptr, nat>, s: nat)
  {
    forall e | e in binned && binned[e] >= MIN_LARGE_SIZE :: s <= binned[e]
  }

  /** No binned chunk is large enough. */
  ghost predicate NoneFits(binned: map<Ptr, nat>, nb: nat)
  {
    forall e | e in binned :: binned[e] < nb
  }

  /** A designated victim of size `dvsize` fits `nb` at least as well as any binned chunk. */
  ghost predicate DvAsGood(binned: map<Ptr, nat>, nb: nat, dvsize: nat)
  {
    forall e | e in binned && binned[e] >= nb :: dvsize <= binned[e]
  }

  ghost function SizeOf(x: Index, q: Path): nat
  {
    SizeAt(x.tree, x.binned, q)
  }

  /** `v` is the best chunk met so far and leaves `rsize` over; 0 when none was met. */
  ghost predicate BestSoFar(x: Index, nb: nat, v: Ptr, rsize: nat)
  {
    if v == 0 then rsize == WORD - nb
    else v in x.slot && v in x.binned && x.binned[v] == nb + rsize && NodeAt(x.tree, x.slot[v]) == v
  }

  /** Slot `q` of bin `i` holds a size of at least `nb`. */
  ghost predicate Candidate(x: Index, i: nat, nb: nat, q: Path)
  {
    q in x.tree && BinOf(q) == i && SizeOf(x, q) >= nb
  }

  /** Every candidate of bin `i` is covered by what was met, or is still below slot `c`. */
  ghost predicate Pending(x: Index, i: nat, nb: nat, rsize: nat, c: Path)
  {
    forall q {:trigger Candidate(x, i, nb, q)} | Candidate(x, i, nb, q) ::
      nb + rsize <= SizeOf(x, q) || (c in x.tree && (Under(c, q) || SizeOf(x, c) <= SizeOf(x, q)))
  }

  /** Sizes below `c` cannot mislead the wrapped subtraction of the scan. */
  ghost predicate Fits(x: Index, nb: nat, rsize: nat, c: Path)
  {
    nb >= SIZE_LIMIT || rsize == 0 || forall q | q in x.tree && Under(c, q) :: SizeOf(x, q) >= nb
  }

  /** The remainder of slot `q`'s chunk as the code computes it beats `rsize` only if it fits. */
  lemma Remainder(x: Index, nb: nat, v: Ptr, rsize: nat, q: Path)
    requires x.Valid() && q in x.tree && 0 < nb < WORD && BestSoFar(x, nb, v, rsize)
    ensures 0 < SizeOf(x, q) < SIZE_LIMIT
    ensures SubWord(SizeOf(x, q), nb) < rsize <==> nb <= SizeOf(x, q) < nb + rsize
    ensures SubWord(SizeOf(x, q), nb) < rsize ==>
              BestSoFar(x, nb, NodeAt(x.tree, q), SubWord(SizeOf(x, q), nb)) && NodeAt(x.tree, q) != 0
  {
    SlotBin(x, q);
    if v != 0 {
      LargeFits(x, v);
    }
  }

  lemma LargeFits(x: Index, v: Ptr)
    requires x.Valid() && v in x.slot
    ensures v in x.binned && MIN_LARGE_SIZE <= x.binned[v] < SIZE_LIMIT && v > 0
  {
    ChunkFacts(x.tree, x.slot, x.binned, v);
  }

  /** One iteration of the scan: slot `c` is examined, its leftmost child is next. */
  lemma ScanStep(x: Index, i: nat, nb: nat, v: Ptr, rsize: nat, c: Path)
    requires x.Valid() && c in x.tree && BinOf(c) == i && 0 < nb < WORD
    requires BestSoFar(x, nb, v, rsize) && Pending(x, i, nb, rsize, c) && Fits(x, nb, rsize, c)
    ensures SizeOf(x, c) < SIZE_LIMIT
    ensures var trem := SubWord(SizeOf(x, c), nb);
            var rsize' := if trem < rsize then trem else rsize;
      Pending(x, i, nb, rsize', Leftmost(x.tree, c)) && Fits(x, nb, rsize', Leftmost(x.tree, c))
    ensures Width(Leftmost(x.tree, c)) < Width(c)
    ensures BinOf(Leftmost(x.tree, c)) == i
  {
    Remainder(x, nb, v, rsize, c);
    var d := Leftmost(x.tree, c);
    var trem := SubWord(SizeOf(x, c), nb);
    var rsize' := if trem < rsize then trem else rsize;
    forall q | Candidate(x, i, nb, q)
      ensures nb + rsize' <= SizeOf(x, q) || (d in x.tree && (Under(d, q) || SizeOf(x, d) <= SizeOf(x, q)))
    {
      if Under(c, q) && q != c {
        LeftmostLeast(x.tree, x.slot, x.binned, c, q);
      } else {
        ScanCovered(x, nb, v, rsize, c, q);
      }
    }
    forall q | q in x.tree && Under(d, q) ensures Under(c, q) {
      UnderTrans(c, d, q);
    }
    SlotBin(x, c);
    Halves(c);
  }

  lemma ScanCovered(x: Index, nb: nat, v: Ptr, rsize: nat, c: Path, q: Path)
    requires x.Valid() && c in x.tree && q in x.tree && 0 < nb < WORD && SizeOf(x, q) >= nb
    requires BestSoFar(x, nb, v, rsize) && Fits(x, nb, rsize, c)
    requires q == c || nb + rsize <= SizeOf(x, q) || SizeOf(x, c) <= SizeOf(x, q)
    ensures SizeOf(x, c) < SIZE_LIMIT
    ensures var trem := SubWord(SizeOf(x, c), nb);
      nb + (if trem < rsize then trem else rsize) <= SizeOf(x, q)
  {
    Remainder(x, nb, v, rsize, c);
    SlotBin(x, q);
  }

  // ---- the first loop of tmalloc_large: down the path of nb ----

  /** `rst` is the root slot of the deepest right subtree passed on the way, if `has`. */
  ghost predicate Aside(x: Index, nb: nat, p: Path, has: bool, rst: Path)
  {
    has ==>
      && rst in x.tree && BinOf(rst) == BinOf(p)
      && (nb < SIZE_LIMIT ==>
            && Lo(p) + Width(p) <= Lo(rst)
            && forall q | q in x.tree && Under(rst, q) :: SizeOf(x, q) >= nb)
  }

  /** Every candidate of the bin is met, below `p`, or covered by the subtree set aside. */
  ghost predicate Searching(x: Index, nb: nat, rsize: nat, p: Path, has: bool, rst: Path)
  {
    forall q {:trigger Candidate(x, BinOf(p), nb, q)} | Candidate(x, BinOf(p), nb, q) ::
      (nb + rsize <= SizeOf(x, q) || (p in x.tree && Under(p, q))
       || (has && rst in x.tree && (Under(rst, q) || SizeOf(x, rst) <= SizeOf(x, q))))
  }

  lemma SearchStart(x: Index, nb: nat, rst: Path)
    requires x.Valid() && MIN_LARGE_SIZE <= nb < WORD
    ensures ComputeTreeIndex(nb) < NTREEBINS
    ensures Searching(x, nb, WORD - nb, Root(ComputeTreeIndex(nb)), false, rst)
    ensures nb < SIZE_LIMIT ==>
      var i := ComputeTreeIndex(nb); InRange(Root(i), nb) && ShiftLeft(nb, LeftShift(i)) == Register(Root(i), nb)
  {
    var i := ComputeTreeIndex(nb);
    IndexBelow(nb);
    if nb < SIZE_LIMIT {
      IndexInBin(nb);
      RegisterStart(nb, i);
    }
    forall q | Candidate(x, i, nb, q) ensures Root(i) in x.tree && Under(Root(i), q) {
      UnderRoot(q);
      AncestorIn(x.tree, x.slot, x.binned, Root(i), q);
    }
  }

  /** Whatever lies under `q` has a size from `q`'s interval. */
  lemma SizeInRange(x: Index, p: Path, q: Path)
    requires x.Valid() && q in x.tree && Under(p, q)
    ensures InRange(p, SizeOf(x, q))
  {
    SlotBin(x, q);
    RangeNested(p, q, SizeOf(x, q));
  }

  /** One level down at slot `p`, whose chunk does not fit exactly; `b` is the bit followed. */
  lemma SearchStep(x: Index, nb: nat, v: Ptr, rsize: nat, p: Path, has: bool, rst: Path, b: bool)
    requires x.Valid() && p in x.tree && MIN_LARGE_SIZE <= nb < WORD && BestSoFar(x, nb, v, rsize)
    requires nb + rsize <= SizeOf(x, p) || SizeOf(x, p) < nb
    requires Aside(x, nb, p, has, rst) && Searching(x, nb, rsize, p, has, rst)
    requires SizeOf(x, p) != nb
    requires nb < SIZE_LIMIT ==> InRange(p, nb) && b == Toward(p, nb).right
    ensures nb < SIZE_LIMIT ==> Width(p) > 1
    ensures var take := !b && Step(p, true) in x.tree;
            var rst' := if take then Step(p, true) else rst;
      Aside(x, nb, Step(p, b), has || take, rst') && Searching(x, nb, rsize, Step(p, b), has || take, rst')
    ensures Step(p, b) in x.tree ==> Width(Step(p, b)) < Width(p)
  {
    SlotBin(x, p);
    Halves(p);
    var take := !b && Step(p, true) in x.tree;
    var rst' := if take then Step(p, true) else rst;
    var c := Step(p, b);
    forall q | Candidate(x, BinOf(c), nb, q)
      ensures nb + rsize <= SizeOf(x, q) || (c in x.tree && Under(c, q))
              || ((has || take) && rst' in x.tree && (Under(rst', q) || SizeOf(x, rst') <= SizeOf(x, q)))
    {
      SlotBin(x, q);
      SearchCovered(x, nb, rsize, p, has, rst, b, q);
    }
    if nb < SIZE_LIMIT {
      TowardRange(p, nb);
      if take {
        forall q | q in x.tree && Under(rst', q) ensures SizeOf(x, q) >= nb {
          SizeInRange(x, rst', q);
        }
      }
    }
  }

  /** Null is what an empty slot looks like. */
  lemma SlotNull(x: Index, p: Path)
    requires x.Valid()
    ensures NodeAt(x.tree, p) == 0 <==> p !in x.tree
  {
    if p in x.tree { SlotBin(x, p); }
  }

  /** What visiting the node of slot `p` may rely on. */
  lemma NodeVisit(x: Index, nb: nat, v: Ptr, rsize: nat, p: Path)
    requires x.Valid() && p in x.tree && 0 < nb < WORD && BestSoFar(x, nb, v, rsize)
    ensures var t := NodeAt(x.tree, p);
      (&& t > 0 && t in x.binned && x.binned[t] == SizeOf(x, p) && t in x.slot && x.slot[t] == p
       && t in x.links.child0 && t in x.links.child1
       && x.links.child0[t] == NodeAt(x.tree, Step(p, false)) && x.links.child1[t] == NodeAt(x.tree, Step(p, true))
       && (x.links.child1[t] != 0 ==> Step(p, true) in x.tree && x.links.child0[t] != x.links.child1[t])
       && (x.links.child0[t] != 0 ==> Step(p, false) in x.tree)
       && (Step(p, true) in x.tree ==> x.links.child1[t] != 0)
       && (Step(p, false) in x.tree ==> x.links.child0[t] != 0))
    ensures 0 < SizeOf(x, p) < SIZE_LIMIT
    ensures SubWord(SizeOf(x, p), nb) < rsize <==> nb <= SizeOf(x, p) < nb + rsize
    ensures SubWord(SizeOf(x, p), nb) < rsize ==> BestSoFar(x, nb, NodeAt(x.tree, p), SubWord(SizeOf(x, p), nb))
    ensures SubWord(SizeOf(x, p), nb) < rsize ==> nb + SubWord(SizeOf(x, p), nb) == SizeOf(x, p)
  {
    SlotBin(x, p);
    NodeLinks(x, p);
    Remainder(x, nb, v, rsize, p);
    if Step(p, true) in x.tree && Step(p, false) in x.tree {
      SlotBin(x, Step(p, true));
      SlotBin(x, Step(p, false));
    }
  }

  /** The bit tested at slot `p`, and the register after it, unless the size matches there. */
  lemma DescentBit(x: Index, p: Path, nb: nat)
    requires x.Valid() && p in x.tree && InRange(p, nb)
    ensures SizeOf(x, p) != nb ==>
      && TopBit(Register(p, nb)) == Toward(p, nb).right && InRange(Toward(p, nb), nb)
      && ShiftLeft(Register(p, nb), 1) == Register(Toward(p, nb), nb)
  {
    SlotBin(x, p);
    Halves(p);
    if SizeOf(x, p) != nb { RegisterStep(p, nb); }
  }

  lemma SearchCovered(x: Index, nb: nat, rsize: nat, p: Path, has: bool, rst: Path, b: bool, q: Path)
    requires x.Valid() && p in x.tree && MIN_LARGE_SIZE <= nb < SIZE_LIMIT && Candidate(x, BinOf(p), nb, q)
    requires nb + rsize <= SizeOf(x, p) || SizeOf(x, p) < nb
    requires Aside(x, nb, p, has, rst) && Searching(x, nb, rsize, p, has, rst)
    requires SizeOf(x, p) != nb && InRange(p, nb) && b == Toward(p, nb).right
    ensures var take := !b && Step(p, true) in x.tree;
            var rst' := if take then Step(p, true) else rst;
      nb + rsize <= SizeOf(x, q) || (Step(p, b) in x.tree && Under(Step(p, b), q))
      || ((has || take) && rst' in x.tree && (Under(rst', q) || SizeOf(x, rst') <= SizeOf(x, q)))
  {
    SlotBin(x, p);
    Halves(p);
    TowardRange(p, nb);
    var take := !b && Step(p, true) in x.tree;
    if Under(p, q) && q != p {
      UnderChild(p, q);
      var s := Step(p, if Under(Step(p, true), q) then true else false);
      AncestorIn(x.tree, x.slot, x.binned, s, q);
      SizeInRange(x, s, q);
    } else if has && take && !(nb + rsize <= SizeOf(x, q)) && q != p {
      SizeInRange(x, Step(p, true), Step(p, true));
      SizeInRange(x, rst, rst);
      if Under(rst, q) { SizeInRange(x, rst, q); }
    }
  }

  /** The path ends at `p`: what remains is the subtree set aside, if there is one. */
  lemma SearchEnd(x: Index, nb: nat, rsize: nat, p: Path, has: bool, rst: Path)
    requires Aside(x, nb, p, has, rst) && Searching(x, nb, rsize, p, has, rst) && p !in x.tree
    ensures var c := if has then rst else p;
      Pending(x, BinOf(p), nb, rsize, c) && (has ==> Fits(x, nb, rsize, c))
  {
  }

  // ---- from one bin to all of them ----

  /** No candidate of bin `i` is better than what was met. */
  ghost predicate Scanned(x: Index, i: nat, nb: nat, rsize: nat)
  {
    forall q {:trigger Candidate(x, i, nb, q)} | Candidate(x, i, nb, q) :: nb + rsize <= SizeOf(x, q)
  }

  ghost predicate BestInBin(x: Index, i: nat, nb: nat, v: Ptr, rsize: nat)
  {
    BestSoFar(x, nb, v, rsize) && (v != 0 ==> BinOf(x.slot[v]) == i)
  }

  /** `v` is a least binned tree chunk of at least `nb` bytes; 0 when there is none. */
  ghost predicate LeastFit(x: Index, nb: nat, v: Ptr, rsize: nat)
  {
    && BestSoFar(x, nb, v, rsize)
    && forall e | e in x.binned && x.binned[e] >= MIN_LARGE_SIZE && x.binned[e] >= nb ::
         v != 0 && nb + rsize <= x.binned[e]
  }

  /** Chunks that fit are only in tree bins from `from` on. */
  ghost predicate NoneBelow(x: Index, nb: nat, from: nat)
  {
    forall e | e in x.binned && x.binned[e] >= MIN_LARGE_SIZE && x.binned[e] >= nb ::
      from <= ComputeTreeIndex(x.binned[e])
  }

  /** The least of bin `i` is the least of all, when no smaller bin can serve the request. */
  lemma LeastOfBin(x: Index, i: nat, nb: nat, v: Ptr, rsize: nat)
    requires x.Valid() && 0 < nb < WORD && i < NTREEBINS && Scanned(x, i, nb, rsize) && BestInBin(x, i, nb, v, rsize)
    requires v == 0 ==> nb >= SIZE_LIMIT
    requires NoneBelow(x, nb, i)
    ensures LeastFit(x, nb, v, rsize)
  {
    forall e | e in x.binned && x.binned[e] >= MIN_LARGE_SIZE && x.binned[e] >= nb
      ensures v != 0 && nb + rsize <= x.binned[e]
    {
      LargeChunkSlot(x, e);
      if ComputeTreeIndex(x.binned[e]) == i {
        assert Candidate(x, i, nb, x.slot[e]);
      } else {
        LargeFits(x, v);
        SlotOfChunk(x, v);
        IndexMonotone(x.binned[v], x.binned[e]);
      }
    }
  }

  lemma SlotOfChunk(x: Index, v: Ptr)
    requires x.Valid() && v in x.slot
    ensures v in x.binned && BinOf(x.slot[v]) == ComputeTreeIndex(x.binned[v])
  {
    LargeFits(x, v);
    LargeChunkSlot(x, v);
  }

  /** Requests only fit in bins from their own index on. */
  lemma BinsFrom(x: Index, nb: nat)
    requires x.Valid() && MIN_LARGE_SIZE <= nb
    ensures NoneBelow(x, nb, ComputeTreeIndex(nb))
  {
    forall e | e in x.binned && x.binned[e] >= MIN_LARGE_SIZE && x.binned[e] >= nb
      ensures ComputeTreeIndex(nb) <= ComputeTreeIndex(x.binned[e])
    {
      LargeChunkSlot(x, e);
      if ComputeTreeIndex(x.binned[e]) < ComputeTreeIndex(nb) {
        IndexMonotone(x.binned[e], nb);
      }
    }
  }

  lemma CandidateOf(x: Index, nb: nat, e: Ptr)
    requires x.Valid() && e in x.binned && x.binned[e] >= MIN_LARGE_SIZE && x.binned[e] >= nb
    ensures e in x.slot && Candidate(x, ComputeTreeIndex(x.binned[e]), nb, x.slot[e])
    ensures SizeOf(x, x.slot[e]) == x.binned[e] < SIZE_LIMIT
  {
    LargeChunkSlot(x, e);
  }

  /** A scan of a bin with a candidate ends with a chunk in hand. */
  lemma CandidateMet(x: Index, i: nat, nb: nat, v: Ptr, rsize: nat, q: Path)
    requires x.Valid() && 0 < nb < WORD && BestSoFar(x, nb, v, rsize) && Scanned(x, i, nb, rsize)
    requires Candidate(x, i, nb, q)
    ensures v != 0
  {
    SlotBin(x, q);
  }

  /** A scanned bin where nothing was met holds no candidate. */
  lemma SkipBin(x: Index, i: nat, nb: nat)
    requires x.Valid() && 0 < nb < WORD && Scanned(x, i, nb, WORD - nb) && NoneBelow(x, nb, i)
    ensures NoneBelow(x, nb, i + 1)
  {
    forall e | e in x.binned && x.binned[e] >= MIN_LARGE_SIZE && x.binned[e] >= nb
      ensures i + 1 <= ComputeTreeIndex(x.binned[e])
    {
      CandidateOf(x, nb, e);
    }
  }

  /** The root of a bin that starts above `nb`, or of any bin for a small `nb`. */
  lemma FreshBin(x: Index, i: nat, nb: nat)
    requires x.Valid() && i < NTREEBINS && IsMarked(x.treemap, i) && 0 < nb < WORD
    requires nb < MIN_LARGE_SIZE || nb >= SIZE_LIMIT || ComputeTreeIndex(nb) < i
    ensures Root(i) in x.tree && NodeAt(x.tree, Root(i)) > 0 && |x.treebins| == NTREEBINS
    ensures x.treebins[i] == NodeAt(x.tree, Root(i))
    ensures Pending(x, i, nb, WORD - nb, Root(i)) && Fits(x, nb, WORD - nb, Root(i))
    ensures nb < SIZE_LIMIT ==> Candidate(x, i, nb, Root(i))
  {
    TreeMarked(x, i);
    SlotBin(x, Root(i));
    forall q | q in x.tree && BinOf(q) == i ensures Under(Root(i), q) && (nb < SIZE_LIMIT ==> SizeOf(x, q) >= nb) {
      UnderRoot(q);
      SlotBin(x, q);
      if MIN_LARGE_SIZE <= nb < SIZE_LIMIT {
        IndexMonotone(nb, SizeOf(x, q));
      }
    }
    forall q | q in x.tree && Under(Root(i), q) ensures BinOf(q) == i {
      UnderBin(Root(i), q);
    }
  }

  /** `left_bits(idx2bit(idx)) & treemap`, and the bin its least bit selects. */
  lemma NextBin(x: Index, idx: nat)
    requires x.Valid() && idx < NTREEBINS
    ensures var m := And(LeftBits(Idx2Bit(idx)), x.treemap);
      if m == ZERO then forall j: nat | idx < j < NTREEBINS :: !Occupied(x.binned, j)
      else LeastBit(m) != ZERO && IsLeastOccupied(x, idx + 1, Ctz(LeastBit(m)))
  {
    var m := And(LeftBits(Idx2Bit(idx)), x.treemap);
    AndBins(LeftBits(Idx2Bit(idx)), x.treemap);
    LeftBitsOfBit(idx);
    ZeroBins(m);
    forall j: nat | j < NTREEBINS ensures j in Bins(m) <==> idx < j && Occupied(x.binned, j) {
      TreeMarked(x, j);
    }
    if m != ZERO {
      LeastBitIndex(m);
      TreeMarked(x, Ctz(LeastBit(m)));
    }
  }

  ghost predicate IsLeastOccupied(x: Index, from: nat, i: nat)
  {
    && from <= i < NTREEBINS && IsMarked(x.treemap, i)
    && forall j: nat | from <= j < i :: !Occupied(x.binned, j)
  }

  lemma FirstBin(x: Index)
    requires x.Valid() && x.treemap != ZERO
    ensures LeastBit(x.treemap) != ZERO && IsLeastOccupied(x, 0, Ctz(LeastBit(x.treemap)))
  {
    LeastBitIndex(x.treemap);
    ZeroBins(x.treemap);
    forall j: nat | j < NTREEBINS ensures j in Bins(x.treemap) <==> Occupied(x.binned, j) {
      TreeMarked(x, j);
    }
    TreeMarked(x, Ctz(LeastBit(x.treemap)));
  }

  lemma OccupiedBin(x: Index, e: Ptr)
    requires x.Valid() && e in x.binned && x.binned[e] >= MIN_LARGE_SIZE
    ensures ComputeTreeIndex(x.binned[e]) < NTREEBINS && Occupied(x.binned, ComputeTreeIndex(x.binned[e]))
  {
    LargeChunkSlot(x, e);
  }

  lemma LeastOccupiedFrom(x: Index, from: nat, i: nat, nb: nat)
    requires x.Valid() && IsLeastOccupied(x, from, i) && NoneBelow(x, nb, from)
    ensures NoneBelow(x, nb, i)
  {
    forall e | e in x.binned && x.binned[e] >= MIN_LARGE_SIZE && x.binned[e] >= nb
      ensures i <= ComputeTreeIndex(x.binned[e])
    {
      OccupiedBin(x, e);
    }
  }

  lemma NothingPending(x: Index, i: nat, nb: nat, c: Path)
    requires x.Valid() && nb < WORD && Pending(x, i, nb, WORD - nb, c) && NodeAt(x.tree, c) == 0
    ensures Scanned(x, i, nb, WORD - nb)
  {
    SlotNull(x, c);
  }

  /** Once the search met a chunk or has a subtree to scan, it ends with a chunk in hand. */
  lemma MetSome(x: Index, i: nat, nb: nat, v: Ptr, rsize: nat, t: Ptr, c: Path)
    requires x.Valid() && 0 < nb < WORD && BestInBin(x, i, nb, v, rsize) && Scanned(x, i, nb, rsize)
    requires t == NodeAt(x.tree, c) && BinOf(c) == i
    requires v == 0 ==> t != 0 && (nb >= SIZE_LIMIT || SizeOf(x, c) >= nb)
    ensures v == 0 ==> nb >= SIZE_LIMIT
  {
    SlotNull(x, c);
    if v == 0 && nb < SIZE_LIMIT {
      CandidateMet(x, i, nb, v, rsize, c);
    }
  }

  /** No occupied bin to the right: nothing fits. */
  lemma NothingRight(x: Index, idx: nat, nb: nat)
    requires x.Valid() && idx < NTREEBINS && nb < WORD && NoneBelow(x, nb, idx + 1)
    requires forall j: nat | idx < j < NTREEBINS :: !Occupied(x.binned, j)
    ensures LeastFit(x, nb, 0, WORD - nb)
  {
    forall e | e in x.binned && x.binned[e] >= MIN_LARGE_SIZE ensures x.binned[e] < nb {
      OccupiedBin(x, e);
    }
  }

  /** The subtree set aside holds a chunk that fits. */
  lemma AsideFits(x: Index, nb: nat, rsize: nat, c: Path)
    requires c in x.tree && Fits(x, nb, rsize, c) && rsize > 0
    ensures nb >= SIZE_LIMIT || SizeOf(x, c) >= nb
  {
  }

  lemma LeastFitSizes(x: Index, nb: nat, v: Ptr, rsize: nat)
    requires LeastFit(x, nb, v, rsize)
    ensures v != 0 && nb >= MIN_LARGE_SIZE ==> LeastSize(x.binned, nb, nb + rsize)
    ensures nb <= MIN_LARGE_SIZE ==> LeastLarge(x.binned, nb + rsize)
  {
  }
}
