/** What a well-formed index of free chunks means for a reader of bins and bitmaps. */
module IndexLaws {
  import opened Bitmap
  import opened Words
  import opened Rings
  import opened TreeIndex
  import opened Tries
  import opened TreeBins
  import opened BinIndex
  import opened Collisions
  import opened MallocStates

  /** All sizes of bin `i` have the same quotient by the width of its interval. */
  lemma BinQuotient(s: nat, i: nat)
    requires InBin(s, i) && s < SIZE_LIMIT
    ensures s / Pow2(64 - LeftShift(i)) == if i + 1 == NTREEBINS then 0 else if i % 2 == 0 then 2 else 3
  {
    RootRange(s, i);
    var w := Width(Root(i));
    if i + 1 < NTREEBINS {
      RootLo(i);
      var c := if i % 2 == 0 then 2 else 3;
      assert (c + 1) * w == c * w + w;
      DivBounds(s, w, c, c + 1);
    } else {
      Pow2Word();
      DivBounds(s, w, 0, 1);
    }
  }

  /** Two sizes of one tree bin agree on every bit above the one its shift moves to bit 63. */
  lemma SharedHighBits(s: nat, t: nat)
    requires MIN_LARGE_SIZE <= s < SIZE_LIMIT && MIN_LARGE_SIZE <= t < SIZE_LIMIT
    requires ComputeTreeIndex(s) == ComputeTreeIndex(t)
    ensures var i := ComputeTreeIndex(s); i < NTREEBINS && s / Pow2(64 - LeftShift(i)) == t / Pow2(64 - LeftShift(i))
  {
    IndexInBin(s);
    IndexInBin(t);
    BinQuotient(s, ComputeTreeIndex(s));
    BinQuotient(t, ComputeTreeIndex(t));
  }

  lemma LowerHalf(s: nat, k: nat)
    requires k < 16 && Pow2(k + 8) <= s < Pow2(k + 8) + Pow2(k + 7)
    ensures InBin(s, 2 * k)
  {
    BinStarts(k);
  }

  lemma UpperHalf(s: nat, k: nat)
    requires k < 16 && Pow2(k + 8) + Pow2(k + 7) <= s < Pow2(k + 9)
    ensures InBin(s, 2 * k + 1)
  {
    BinStarts(k);
  }

  lemma BinOfIndex(s: nat, i: nat)
    requires MIN_LARGE_SIZE <= s < SIZE_LIMIT && InBin(s, i)
    ensures ComputeTreeIndex(s) == i
  {
    IndexInBin(s);
    BinUnique(s, i, ComputeTreeIndex(s));
  }

  /** Which tree bin a size has: two for every power of two from 256 on. */
  lemma TreeIndexIs(s: nat, k: nat)
    requires k < 16 && MIN_LARGE_SIZE <= s < SIZE_LIMIT
    ensures Pow2(k + 8) <= s < Pow2(k + 8) + Pow2(k + 7) ==> ComputeTreeIndex(s) == 2 * k
    ensures Pow2(k + 8) + Pow2(k + 7) <= s < Pow2(k + 9) ==> ComputeTreeIndex(s) == 2 * k + 1
  {
    if Pow2(k + 8) <= s < Pow2(k + 8) + Pow2(k + 7) {
      LowerHalf(s, k);
      BinOfIndex(s, 2 * k);
    }
    if Pow2(k + 8) + Pow2(k + 7) <= s < Pow2(k + 9) {
      UpperHalf(s, k);
      BinOfIndex(s, 2 * k + 1);
    }
  }

  /** All larger sizes share the last one. */
  lemma LastTreeIndex(s: nat)
    requires 12582912 <= s < SIZE_LIMIT
    ensures ComputeTreeIndex(s) == 31
  {
    DivBounds(s, 256, 0xC000, s);
    LastInBin(s);
    BinOfIndex(s, 31);
  }

  /** The shift leaves exactly the bits in which the sizes of a bin differ, and all bits for the last
      bin. */
  lemma ShiftIsTight(i: nat)
    requires i < NTREEBINS
    ensures i < 31 ==> i + 1 < NTREEBINS && BinStart(i + 1) - BinStart(i) == Pow2(64 - LeftShift(i))
    ensures i == 31 ==> LeftShift(i) == 0
  {
    if i < 31 { BinsAbut(i); }
  }

  /** Chunk `e` is filed in small bin `j`, or in slot `p` of a tree bin. */
  ghost predicate InSmall(x: Index, e: Ptr, j: nat)
  {
    j < |x.small| && e in x.small[j]
  }

  ghost predicate InSlot(x: Index, e: Ptr, p: Path)
  {
    p in x.tree && e in x.tree[p]
  }

  /** Whatever is in a bin has a size of that bin. */
  lemma FiledBySize(x: Index, e: Ptr, j: nat, p: Path)
    requires x.Valid()
    ensures InSmall(x, e, j) ==> e in x.binned && x.binned[e] < MIN_LARGE_SIZE && j == SmallIndex(x.binned[e])
    ensures InSlot(x, e, p) ==>
      e in x.binned && MIN_LARGE_SIZE <= x.binned[e] < SIZE_LIMIT && BinOf(p) == ComputeTreeIndex(x.binned[e]) &&
        e in x.slot && p == x.slot[e]
  {
    if InSmall(x, e, j) {
      SmallFacts(x, j);
    }
    if InSlot(x, e, p) {
      assert SlotOk(x.tree, x.slot, x.binned, p);
      assert MemberOk(x.slot, x.binned, p, x.binned[x.tree[p][0]], e);
      IndexInBin(x.binned[e]);
      BinUnique(x.binned[e], BinOf(p), ComputeTreeIndex(x.binned[e]));
    }
  }

  /** A chunk is binned exactly if it is in some bin; the bin is the one its size maps to, and
      there is only one place for it. */
  lemma ExactlyOneBin(x: Index, e: Ptr)
    requires x.Valid()
    ensures e in x.binned <==> (exists j: nat :: InSmall(x, e, j)) || (exists p :: InSlot(x, e, p))
    ensures forall j: nat, k: nat | InSmall(x, e, j) && InSmall(x, e, k) :: j == k
    ensures forall p, q | InSlot(x, e, p) && InSlot(x, e, q) :: p == q
    ensures !((exists j: nat :: InSmall(x, e, j)) && (exists p :: InSlot(x, e, p)))
  {
    forall j: nat | InSmall(x, e, j)
      ensures e in x.binned && x.binned[e] < MIN_LARGE_SIZE && j == SmallIndex(x.binned[e]) {
      FiledBySize(x, e, j, Root(0));
    }
    forall p | InSlot(x, e, p) ensures e in x.binned && MIN_LARGE_SIZE <= x.binned[e] && e in x.slot && p == x.slot[e] {
      FiledBySize(x, e, 0, p);
    }
    if e in x.binned {
      assert x.Filed(e);
      if x.binned[e] < MIN_LARGE_SIZE {
        assert InSmall(x, e, SmallIndex(x.binned[e]));
      } else {
        LargeChunkSlot(x, e);
        ChunkFacts(x.tree, x.slot, x.binned, e);
        assert InSlot(x, e, x.slot[e]);
      }
    }
  }

  /** A trie node's ring holds all chunks of its size. */
  lemma RingHoldsSize(x: Index, d: Ptr, e: Ptr, p: Path)
    requires x.Valid() && d in x.binned && e in x.binned && MIN_LARGE_SIZE <= x.binned[d] && InSlot(x, d, p)
    ensures x.binned[d] == x.binned[e] <==> InSlot(x, e, p)
  {
    FiledBySize(x, d, 0, p);
    FiledBySize(x, e, 0, p);
    ChunkFacts(x.tree, x.slot, x.binned, d);
    if x.binned[d] == x.binned[e] {
      LargeChunkSlot(x, e);
      ChunkFacts(x.tree, x.slot, x.binned, e);
      assert x.Together(d, e);
    } else if InSlot(x, e, p) {
      ChunkFacts(x.tree, x.slot, x.binned, e);
    }
  }

  // ---- the tries insert_large_chunk can build ----

  lemma SlotsDiffer(x: Index, d: Ptr, e: Ptr)
    requires x.Valid() && d in x.slot && e in x.slot && x.slot[d] != x.slot[e]
    ensures d in x.binned && e in x.binned && x.binned[d] != x.binned[e]
  {
    ChunkFacts(x.tree, x.slot, x.binned, d);
    ChunkFacts(x.tree, x.slot, x.binned, e);
    assert x.Together(d, e);
  }

  lemma BinsDiffer(binned: map<Ptr, nat>, d: Ptr, e: Ptr)
    requires OneSizePerBin(binned) && d in binned && e in binned && binned[d] != binned[e]
    requires MIN_LARGE_SIZE <= binned[d] && MIN_LARGE_SIZE <= binned[e]
    ensures ComputeTreeIndex(binned[d]) != ComputeTreeIndex(binned[e])
  {
    assert SameSizeInBin(binned, d, e);
  }

  /** Then every trie is a single node with its ring. */
  lemma TriesAreFlat(x: Index, p: Path)
    requires x.Valid() && OneSizePerBin(x.binned) && p in x.tree
    ensures p.Root?
  {
    if p.Step? {
      NodeFacts(x.tree, x.slot, x.binned, p);
      NodeFacts(x.tree, x.slot, x.binned, p.up);
      var d, e := NodeAt(x.tree, p), NodeAt(x.tree, p.up);
      SlotsDiffer(x, d, e);
      LargeChunkSlot(x, d);
      LargeChunkSlot(x, e);
      BinsDiffer(x.binned, d, e);
    }
  }

  /** The bit of a small bin is set exactly if some binned chunk belongs there. */
  lemma SmallBitMeaning(x: Index, i: nat)
    requires x.Valid() && i < NSMALLBINS
    ensures IsMarked(x.smallmap, i) <==> exists e ::
      e in x.binned && x.binned[e] < MIN_LARGE_SIZE && SmallIndex(x.binned[e]) == i
  {
    SmallFacts(x, i);
    if IsMarked(x.smallmap, i) {
      var e := x.small[i][0];
      assert e in x.small[i];
      FiledBySize(x, e, i, Root(0));
    }
    forall e | e in x.binned && x.binned[e] < MIN_LARGE_SIZE && SmallIndex(x.binned[e]) == i ensures x.small[i] != [] {
      assert x.Filed(e);
    }
  }

  /** The bit of a tree bin is set exactly if some binned chunk belongs there. */
  lemma TreeBitMeaning(x: Index, i: nat)
    requires x.Valid() && i < NTREEBINS
    ensures IsMarked(x.treemap, i) <==> Occupied(x.binned, i)
  {
    assert x.TreeBinOk(i);
    MarkBins(x.treemap, i);
    if Root(i) in x.tree {
      NodeFacts(x.tree, x.slot, x.binned, Root(i));
      var n := NodeAt(x.tree, Root(i));
      FiledBySize(x, n, 0, Root(i));
    }
    if Occupied(x.binned, i) {
      var e :| e in x.binned && MIN_LARGE_SIZE <= x.binned[e] && ComputeTreeIndex(x.binned[e]) == i;
      LargeChunkSlot(x, e);
    }
  }

  /** Between operations the binned chunks are the free ones but the designated victim. Top is
      not among them, and no chunk in use is. */
  lemma BinnedAreFree(m: MallocState, a: Ptr)
    requires m.Valid()
    ensures a in m.bins.binned <==> a in m.arena.starts && a != m.arena.top && a != m.arena.dv && a !in m.arena.InUse()
    ensures a in m.bins.binned ==> a in m.arena.head && m.bins.binned[a] == m.arena.head[a].size
  {
    if a in m.arena.starts {
      assert m.arena.ChunkOk(a);
    }
  }
}
