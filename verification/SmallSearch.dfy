/** Which small bin serves a small request. */
module SmallSearch {
  import opened Bitmap
  import opened Rings
  import opened TreeIndex
  import opened Chunks
  import opened BinIndex
  import opened TreeSearch

  ghost predicate NoSmallFits(binned: map<Ptr, nat>, nb: nat)
  {
    forall e | e in binned && binned[e] < MIN_LARGE_SIZE :: binned[e] < nb
  }

  /** `p` is a binned chunk of size `s`, the least size of all that are large enough. */
  ghost predicate IsBestFit(binned: map<Ptr, nat>, nb: nat, p: Ptr, s: nat)
  {
    p in binned && binned[p] == s && LeastSize(binned, nb, s)
  }

  /** The chunk behind the header of a non-empty small bin. */
  lemma FirstOfBin(x: Index, i: nat)
    requires x.Valid() && i < NSMALLBINS && IsMarked(x.smallmap, i)
    ensures i < |x.small| && x.small[i] != [] && SmallBinAt(i) in x.links.fd
    ensures x.links.fd[SmallBinAt(i)] == x.small[i][0]
    ensures x.small[i][0] in x.binned && x.binned[x.small[i][0]] == 8 * i
  {
    SmallFacts(x, i);
    assert x.small[i][0] in x.small[i];
  }

  /** A small binned chunk marks the bin of its size, and sizes are multiples of 16. */
  lemma SmallChunkBin(x: Index, e: Ptr)
    requires x.Valid() && e in x.binned && x.binned[e] < MIN_LARGE_SIZE
    ensures SmallIndex(x.binned[e]) < NSMALLBINS && IsMarked(x.smallmap, SmallIndex(x.binned[e]))
    ensures x.binned[e] == 8 * SmallIndex(x.binned[e]) && SmallIndex(x.binned[e]) % 2 == 0
  {
    FiledFacts(x, e);
    SmallFacts(x, SmallIndex(x.binned[e]));
  }

  lemma FiledFacts(x: Index, e: Ptr)
    requires x.Valid() && e in x.binned
    ensures MIN_CHUNK_SIZE <= x.binned[e] && x.binned[e] % CHUNK_ALIGN == 0
    ensures x.binned[e] < MIN_LARGE_SIZE ==>
      SmallIndex(x.binned[e]) < |x.small| && e in x.small[SmallIndex(x.binned[e])]
  {
    assert x.Filed(e);
  }

  /** Only even small bins are ever used. */
  lemma OddBinEmpty(x: Index, i: nat)
    requires x.Valid() && i < NSMALLBINS && i % 2 == 1
    ensures !IsMarked(x.smallmap, i)
  {
    SmallFacts(x, i);
    if x.small[i] != [] {
      assert x.small[i][0] in x.small[i];
      FiledFacts(x, x.small[i][0]);
    }
  }

  lemma MarkedBit(w: Word, i: nat)
    requires i < NBINS
    ensures IsMarked(w, i) <==> w[i]
  {
    MarkBins(w, i);
  }

  /** The bin of a small size is marked exactly when a chunk of that size is binned. */
  lemma ExactBin(x: Index, nb: nat)
    requires x.Valid() && nb < MIN_LARGE_SIZE && nb % 8 == 0
    ensures IsMarked(x.smallmap, SmallIndex(nb)) <==> HasSize(x.binned, nb)
  {
    if IsMarked(x.smallmap, SmallIndex(nb)) {
      FirstOfBin(x, SmallIndex(nb));
    }
    if e :| e in x.binned && x.binned[e] == nb {
      SmallChunkBin(x, e);
    }
  }

  /** What the first test on `smallbits` means for a small request. */
  lemma SmallBits(x: Index, nb: nat)
    requires x.Valid() && MIN_CHUNK_SIZE <= nb <= 240 && nb % CHUNK_ALIGN == 0
    ensures var idx := SmallIndex(nb);
            var w := Shr(x.smallmap, idx);
      (&& idx + 1 < NSMALLBINS
       && (And(w, Or(Idx2Bit(0), Idx2Bit(1))) != ZERO <==> IsMarked(x.smallmap, idx))
       && (IsMarked(x.smallmap, idx) ==> w[0])
       && (IsMarked(x.smallmap, idx) <==> HasSize(x.binned, nb)))
  {
    var idx := SmallIndex(nb);
    var w := Shr(x.smallmap, idx);
    var three := And(w, Or(Idx2Bit(0), Idx2Bit(1)));
    OddBinEmpty(x, idx + 1);
    ExactBin(x, nb);
    MarkedBit(x.smallmap, idx);
    MarkedBit(x.smallmap, idx + 1);
    ZeroHasNoBit(three);
    assert three[0] == w[0] && three[1] == w[1];
  }

  /** Without any bit left, no small chunk fits. */
  lemma NoSmallBits(x: Index, nb: nat)
    requires x.Valid() && MIN_CHUNK_SIZE <= nb <= 240 && nb % CHUNK_ALIGN == 0
    requires Shr(x.smallmap, SmallIndex(nb)) == ZERO
    ensures NoSmallFits(x.binned, nb)
  {
    var idx := SmallIndex(nb);
    ZeroHasNoBit(Shr(x.smallmap, idx));
    forall e | e in x.binned && x.binned[e] < MIN_LARGE_SIZE ensures x.binned[e] < nb {
      SmallChunkBin(x, e);
      var j := SmallIndex(x.binned[e]);
      MarkedBit(x.smallmap, j);
      if j >= idx { ShrBit(x.smallmap, idx, j); }
    }
  }

  lemma ShrBit(w: Word, n: nat, j: nat)
    requires n <= j < NBINS
    ensures Shr(w, n)[j - n] == w[j]
  {
  }

  /** The least bit of `leftbits` is the small bin with the least size above `nb`. */
  ghost predicate NextSmall(x: Index, nb: nat, leftbits: Word)
  {
    && leftbits != ZERO && LeastBit(leftbits) != ZERO
    && var i := Ctz(LeastBit(leftbits));
       && i < NSMALLBINS && IsMarked(x.smallmap, i) && nb < 8 * i < MIN_LARGE_SIZE
       && LeastSize(x.binned, nb, 8 * i)
  }

  lemma NextSmallBin(x: Index, nb: nat)
    requires x.Valid() && MIN_CHUNK_SIZE <= nb <= 240 && nb % CHUNK_ALIGN == 0
    requires !IsMarked(x.smallmap, SmallIndex(nb)) && Shr(x.smallmap, SmallIndex(nb)) != ZERO
    ensures NextSmall(x, nb,
      And(Shl(Shr(x.smallmap, SmallIndex(nb)), SmallIndex(nb)), LeftBits(Idx2Bit(SmallIndex(nb)))))
  {
    var idx := SmallIndex(nb);
    var m := And(Shl(Shr(x.smallmap, idx), idx), LeftBits(Idx2Bit(idx)));
    LeftMarked(x.smallmap, idx);
    MarkedBit(x.smallmap, idx);
    var j := SomeBitLeft(x.smallmap, idx);
    assert j in Bins(m);
    ZeroBins(m);
    LeastBitIndex(m);
    var i := Ctz(LeastBit(m));
    MarkedBit(x.smallmap, i);
    forall e | e in x.binned && x.binned[e] >= nb ensures 8 * i <= x.binned[e] {
      if x.binned[e] < MIN_LARGE_SIZE {
        SmallChunkBin(x, e);
        MarkedBit(x.smallmap, SmallIndex(x.binned[e]));
        assert SmallIndex(x.binned[e]) in Bins(m);
      }
    }
  }

  lemma SomeBitLeft(w: Word, idx: nat) returns (j: nat)
    requires idx < NBINS && !w[idx] && Shr(w, idx) != ZERO
    ensures idx < j < NBINS && w[j]
  {
    ZeroHasNoBit(Shr(w, idx));
    var k: nat :| k < NBINS && Shr(w, idx)[k];
    j := k + idx;
  }

  lemma LeftMarked(w: Word, idx: nat)
    requires idx < NBINS
    ensures forall j: nat | j < NBINS ::
      j in Bins(And(Shl(Shr(w, idx), idx), LeftBits(Idx2Bit(idx)))) <==> idx < j && w[j]
  {
    AndBins(Shl(Shr(w, idx), idx), LeftBits(Idx2Bit(idx)));
    LeftBitsOfBit(idx);
    forall j: nat | j < NBINS ensures Shl(Shr(w, idx), idx)[j] == (idx <= j && w[j]) {
    }
  }

  lemma NoTreeChunk(x: Index)
    requires x.Valid() && x.treemap == ZERO
    ensures forall e | e in x.binned :: x.binned[e] < MIN_LARGE_SIZE
  {
    forall e | e in x.binned ensures x.binned[e] < MIN_LARGE_SIZE {
      if x.binned[e] >= MIN_LARGE_SIZE {
        OccupiedBin(x, e);
        TreeMarked(x, ComputeTreeIndex(x.binned[e]));
        ZeroBins(x.treemap);
      }
    }
  }

  lemma ExactIsLeast(binned: map<Ptr, nat>, nb: nat)
    ensures LeastSize(binned, nb, nb)
  {
  }

  lemma LeastOverall(binned: map<Ptr, nat>, nb: nat, s: nat)
    requires NoSmallFits(binned, nb) && LeastLarge(binned, s) && nb <= s
    ensures LeastSize(binned, nb, s)
  {
  }

  lemma NoneOverall(x: Index, nb: nat)
    requires x.Valid() && x.treemap == ZERO && NoSmallFits(x.binned, nb)
    ensures NoneFits(x.binned, nb)
  {
    NoTreeChunk(x);
  }
}
