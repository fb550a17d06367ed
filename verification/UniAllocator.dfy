/** UniAllocator::Alloc and UniAllocator::Free over one arena. */
module UniAllocators {
  import opened Bitmap
  import opened Words
  import opened Rings
  import opened TreeIndex
  import opened Chunks
  import opened BinIndex
  import opened TreeSearch
  import opened Heap
  import opened HeapViews
  import opened Collisions
  import opened UniLaws
  import opened MallocStates
  import opened SmallSearch

  /** How an allocation ends: with memory, with MemoryCorruptedException, or by asking for more
      memory from the underlying allocator. */
  datatype Outcome = Returned(mem: Ptr) | Threw | NeedsGrowth

  class UniAllocator {
    const gm: MallocState

    constructor (state: MallocState)
      ensures gm == state
    {
      gm := state;
    }

    // ---- the small-bin branches of Alloc ----

    /** `idx += ~smallbits & 1`: the next bin if bin `idx` is empty. */
    static function SkipEmpty(idx: nat, smallbits: Word): nat
    {
      if smallbits[0] then idx else idx + 1
    }

    /** Remainderless fit to small bin `idx`. */
    method TakeExact(idx: nat, ghost nb: nat) returns (threw: bool, mem: Ptr)
      requires gm.Valid() && idx < NSMALLBINS && IsMarked(gm.bins.smallmap, idx) && nb == 8 * idx
      requires MIN_CHUNK_SIZE <= nb && nb % CHUNK_ALIGN == 0
      modifies gm
      ensures !threw && gm.Valid() && mem > 0 && IsBestFit(old(gm.bins.binned), nb, mem - PAYLOAD_OFFSET, nb)
      ensures gm.View() == TakeBinned(old(gm.View()), nb, mem - PAYLOAD_OFFSET)
      ensures idx < |old(gm.bins).small| && old(gm.bins).small[idx] != []
      ensures mem - PAYLOAD_OFFSET == old(gm.bins).small[idx][0]
    {
      ghost var h := gm.arena;
      FirstOfBin(gm.bins, idx);
      ExactIsLeast(gm.bins.binned, nb);
      var b := SmallBinAt(idx);
      var p := gm.bins.links.fd[b];
      FreeFacts(gm.arena, p);
      threw := gm.UnlinkFirstSmallChunk(b, p, idx);
      assert gm.bins.binned == gm.arena.Free() - {gm.arena.dv, p};
      gm.HandOutWhole(p, 8 * idx);
      BinnedView(h, gm.arena, nb, p);
      mem := p + PAYLOAD_OFFSET;
    }

    /** The next non-empty small bin after the one for `nb`. */
    method NextSmallIndex(nb: nat, idx: nat, smallbits: Word) returns (i: nat)
      requires gm.Valid() && MIN_CHUNK_SIZE <= nb <= 240 && nb % CHUNK_ALIGN == 0
      requires idx == SmallIndex(nb) < NSMALLBINS && smallbits == Shr(gm.bins.smallmap, idx)
      requires !IsMarked(gm.bins.smallmap, idx) && smallbits != ZERO
      ensures i < NSMALLBINS && IsMarked(gm.bins.smallmap, i) && nb < 8 * i < MIN_LARGE_SIZE
      ensures LeastSize(gm.bins.binned, nb, 8 * i)
    {
      NextSmallBin(gm.bins, nb);
      var leftbits := And(Shl(smallbits, idx), LeftBits(Idx2Bit(idx)));
      i := Ctz(LeastBit(leftbits));
    }

    /** The first chunk of small bin `i`; the remainder becomes the designated victim. */
    method TakeNext(i: nat, nb: nat) returns (threw: bool, mem: Ptr)
      requires gm.Valid() && gm.arena.dvsize < nb && MIN_CHUNK_SIZE <= nb <= 240 && nb % CHUNK_ALIGN == 0
      requires i < NSMALLBINS && IsMarked(gm.bins.smallmap, i) && nb < 8 * i
      requires LeastSize(gm.bins.binned, nb, 8 * i)
      modifies gm
      ensures !threw && gm.Valid() && mem > 0 && IsBestFit(old(gm.bins.binned), nb, mem - PAYLOAD_OFFSET, 8 * i)
      ensures i < |old(gm.bins).small| && old(gm.bins).small[i] != []
      ensures mem - PAYLOAD_OFFSET == old(gm.bins).small[i][0]
      ensures 8 * i - nb >= 32 ==> gm.arena.dv == mem - PAYLOAD_OFFSET + nb && gm.arena.dvsize == 8 * i - nb
      ensures 8 * i - nb >= 32 && old(gm.arena.dv) != 0 ==>
        old(gm.arena.dv) in gm.bins.binned && gm.bins.binned[old(gm.arena.dv)] == old(gm.arena.dvsize)
      ensures 8 * i - nb < 32 ==> gm.arena.dv == old(gm.arena.dv) && gm.arena.dvsize == old(gm.arena.dvsize)
      ensures gm.View() == TakeBinned(old(gm.View()), nb, mem - PAYLOAD_OFFSET)
    {
      ghost var h := gm.arena;
      FirstOfBin(gm.bins, i);
      var b := SmallBinAt(i);
      var p := gm.bins.links.fd[b];
      FreeFacts(gm.arena, p);
      threw := gm.UnlinkFirstSmallChunk(b, p, i);
      assert gm.bins.binned == gm.arena.Free() - {gm.arena.dv, p};
      threw := gm.HandOutSmall(p, 8 * i, nb);
      BinnedView(h, gm.arena, nb, p);
      mem := p + PAYLOAD_OFFSET;
    }

    /** Small requests: an exact small bin, else (if the designated victim is too small) the next
        non-empty small bin, else the smallest tree chunk. Null when none of these applies. */
    method AllocSmall(nb: nat) returns (threw: bool, mem: Ptr)
      requires gm.Usable() && MIN_CHUNK_SIZE <= nb <= 240 && nb % CHUNK_ALIGN == 0
      modifies gm
      ensures !threw
      ensures mem == 0 ==> gm.bins == old(gm.bins) && gm.arena == old(gm.arena) && gm.leastAddr == old(gm.leastAddr)
      ensures mem == 0 ==> !HasSize(gm.bins.binned, nb) && (nb <= gm.arena.dvsize || NoneFits(gm.bins.binned, nb))
      ensures mem != 0 ==> BinServes(old(gm.View()), nb, mem - PAYLOAD_OFFSET)
      ensures mem != 0 ==> gm.Valid() && gm.View() == TakeBinned(old(gm.View()), nb, mem - PAYLOAD_OFFSET)
      ensures mem != 0 ==> VictimFollows(old(gm.View()), gm.View(), nb, mem - PAYLOAD_OFFSET)
    {
      if gm.Zeroed() { gm.ZeroedFacts(); }
      threw, mem := false, 0;
      var idx := SmallIndex(nb);
      var smallbits := Shr(gm.bins.smallmap, idx);
      SmallBits(gm.bins, nb);
      if And(smallbits, Or(Idx2Bit(0), Idx2Bit(1))) != ZERO {
        threw, mem := TakeExactFit(nb, idx, smallbits);
      } else if nb > gm.arena.dvsize {
        threw, mem := AllocBeyondDv(nb, idx, smallbits);
      }
    }

    method TakeExactFit(nb: nat, idx: nat, smallbits: Word) returns (threw: bool, mem: Ptr)
      requires gm.Valid() && MIN_CHUNK_SIZE <= nb <= 240 && nb % CHUNK_ALIGN == 0
      requires idx == SmallIndex(nb) && idx < NSMALLBINS && IsMarked(gm.bins.smallmap, idx) && smallbits[0]
      modifies gm
      ensures !threw && mem > 0 && BinServes(old(gm.View()), nb, mem - PAYLOAD_OFFSET)
      ensures gm.Valid() && gm.View() == TakeBinned(old(gm.View()), nb, mem - PAYLOAD_OFFSET)
    {
      threw, mem := TakeExact(SkipEmpty(idx, smallbits), nb);
    }

    /** After a small request was served by the binned chunk `p`: a remainder of 32 bytes or more is
        the new designated victim and the old one is binned, otherwise the victim stays. */
    static ghost predicate VictimFollows(v: View, v': View, nb: nat, p: Ptr)
      requires p in v.binned && nb <= v.binned[p]
    {
      if v.binned[p] - nb >= 32 then
        && v'.dv == p + nb && v'.dvsize == v.binned[p] - nb && v'.inUse == v.inUse[p := nb]
        && (v.dv != 0 ==> v.dv in v'.binned && v'.binned[v.dv] == v.dvsize)
      else v'.dv == v.dv && v'.dvsize == v.dvsize && v'.inUse == v.inUse[p := v.binned[p]]
    }

    /** The binned chunk `p` is a best fit, and exact if the designated victim would do. */
    static ghost predicate BinServes(v: View, nb: nat, p: Ptr)
    {
      p in v.binned && IsBestFit(v.binned, nb, p, v.binned[p]) && (v.dvsize < nb || v.binned[p] == nb)
    }

    /** The branch of a small request that neither an exact bin nor the victim can serve. */
    method AllocBeyondDv(nb: nat, idx: nat, smallbits: Word) returns (threw: bool, mem: Ptr)
      requires gm.Usable() && MIN_CHUNK_SIZE <= nb <= 240 && nb % CHUNK_ALIGN == 0 && gm.arena.dvsize < nb
      requires idx == SmallIndex(nb) && smallbits == Shr(gm.bins.smallmap, idx)
      requires idx < NSMALLBINS && !IsMarked(gm.bins.smallmap, idx)
      modifies gm
      ensures !threw
      ensures mem == 0 ==> gm.bins == old(gm.bins) && gm.arena == old(gm.arena) && gm.leastAddr == old(gm.leastAddr)
      ensures mem == 0 ==> NoneFits(gm.bins.binned, nb)
      ensures mem != 0 ==> BinServes(old(gm.View()), nb, mem - PAYLOAD_OFFSET)
      ensures mem != 0 ==> gm.Valid() && gm.View() == TakeBinned(old(gm.View()), nb, mem - PAYLOAD_OFFSET)
    {
      if gm.Zeroed() { gm.ZeroedFacts(); }
      if smallbits != ZERO {
        var i := NextSmallIndex(nb, idx, smallbits);
        threw, mem := TakeNext(i, nb);
      } else {
        NoSmallBits(gm.bins, nb);
        threw, mem := AllocFromTrees(nb);
      }
    }

    /** No small bin can serve the request: the smallest tree chunk, if there is any. */
    method AllocFromTrees(nb: nat) returns (threw: bool, mem: Ptr)
      requires gm.Usable() && MIN_CHUNK_SIZE <= nb <= 240 && nb % CHUNK_ALIGN == 0 && gm.arena.dvsize < nb
      requires NoSmallFits(gm.bins.binned, nb)
      modifies gm
      ensures !threw
      ensures mem == 0 ==> gm.bins == old(gm.bins) && gm.arena == old(gm.arena) && gm.leastAddr == old(gm.leastAddr)
      ensures mem == 0 ==> NoneFits(gm.bins.binned, nb)
      ensures mem != 0 ==> BinServes(old(gm.View()), nb, mem - PAYLOAD_OFFSET)
      ensures mem != 0 ==> gm.Valid() && gm.View() == TakeBinned(old(gm.View()), nb, mem - PAYLOAD_OFFSET)
    {
      if gm.Zeroed() { gm.ZeroedFacts(); }
      if gm.bins.treemap != ZERO {
        ghost var binned := gm.bins.binned;
        threw, mem := gm.TmallocSmall(nb);
        LeastOverall(binned, nb, binned[mem - PAYLOAD_OFFSET]);
      } else {
        threw, mem := false, 0;
        NoneOverall(gm.bins, nb);
      }
    }

    // ---- the designated victim and top ----

    method SplitDv(nb: nat) returns (mem: Ptr)
      requires gm.Valid() && MIN_CHUNK_SIZE <= nb && nb % CHUNK_ALIGN == 0 && nb + MIN_CHUNK_SIZE <= gm.arena.dvsize
      modifies gm`arena
      ensures gm.Valid() && mem - PAYLOAD_OFFSET == old(gm.arena.dv) && gm.View() == TakeDv(old(gm.View()), nb)
    {
      ghost var h := gm.arena;
      DvSplitOk(h, nb);
      var rsize := gm.arena.dvsize - nb;
      var p := gm.arena.dv;
      var r := p + nb;
      gm.arena := gm.arena.(dv := r, dvsize := rsize);
      gm.arena := gm.arena.SetFreeChunk(r, rsize);
      gm.arena := gm.arena.SetInuseChunk(p, nb);
      gm.arena := gm.arena.(starts := gm.arena.starts + {r});
      assert gm.arena == DvSplit(h, nb);
      DvView(h, gm.arena, nb);
      mem := p + PAYLOAD_OFFSET;
    }

    method ExhaustDv(nb: nat) returns (mem: Ptr)
      requires gm.Valid() && MIN_CHUNK_SIZE <= nb <= gm.arena.dvsize < nb + MIN_CHUNK_SIZE && nb % CHUNK_ALIGN == 0
      modifies gm`arena
      ensures gm.Valid() && mem - PAYLOAD_OFFSET == old(gm.arena.dv) && gm.View() == TakeDv(old(gm.View()), nb)
    {
      ghost var h := gm.arena;
      DvFacts(gm.arena);
      FreeFacts(gm.arena, gm.arena.dv);
      WithDv(gm.arena, 0, 0);
      Positive(gm.arena);
      var p := gm.arena.dv;
      var dvs := gm.arena.dvsize;
      gm.arena := gm.arena.(dvsize := 0, dv := 0);
      assert gm.bins.binned == gm.arena.Free() - {0, p};
      gm.HandOutWhole(p, dvs);
      DvView(h, gm.arena, nb);
      mem := p + PAYLOAD_OFFSET;
    }

    method SplitTop(nb: nat) returns (mem: Ptr)
      requires gm.Valid() && MIN_CHUNK_SIZE <= nb < gm.arena.topsize && nb % CHUNK_ALIGN == 0
      modifies gm`arena
      ensures gm.Valid() && mem - PAYLOAD_OFFSET == old(gm.arena.top) && gm.View() == TakeTop(old(gm.View()), nb)
    {
      TopSplitOk(gm.arena, nb);
      ghost var h := gm.arena;
      var rsize := gm.arena.topsize - nb;
      var p := gm.arena.top;
      var r := p + nb;
      gm.arena := gm.arena.(topsize := rsize, top := r);
      gm.arena := gm.arena.(head := gm.arena.head[r := TopHead(rsize)]);
      gm.arena := gm.arena.SetInuseChunk(p, nb);
      gm.arena := gm.arena.(starts := gm.arena.starts + {r});
      assert gm.arena == TopSplit(h, nb);
      StillDv(h, gm.arena);
      TopView(h, gm.arena, nb);
      mem := p + PAYLOAD_OFFSET;
    }

    /** The designated victim if it is large enough, else top if that is strictly larger. */
    method AllocDvOrTop(nb: nat) returns (r: Outcome)
      requires gm.Usable() && MIN_CHUNK_SIZE <= nb && (nb % CHUNK_ALIGN == 0 || nb >= WORD - 1)
      modifies gm`arena
      ensures !r.Threw? && (r.NeedsGrowth? <==> old(gm.arena.dvsize) < nb && old(gm.arena.topsize) <= nb)
      ensures r.NeedsGrowth? ==> gm.arena == old(gm.arena)
      ensures r.Returned? ==>
        && gm.Valid() && r.mem - PAYLOAD_OFFSET !in gm.bins.binned
        && Serves(old(gm.View()), nb, r.mem - PAYLOAD_OFFSET)
        && gm.View() == Taken(old(gm.View()), nb, r.mem - PAYLOAD_OFFSET)
    {
      if gm.Valid() {
        NotInUse(gm.arena);
        Facts(gm.arena, gm.arena.top);
      }
      var mem;
      if nb <= gm.arena.dvsize {
        if gm.arena.dvsize - nb >= MIN_CHUNK_SIZE {
          mem := SplitDv(nb);
        } else {
          mem := ExhaustDv(nb);
        }
        r := Returned(mem);
      } else if nb < gm.arena.topsize {
        mem := SplitTop(nb);
        r := Returned(mem);
      } else {
        r := NeedsGrowth;
      }
    }

    // ---- Alloc ----

    /** Nothing the heap holds can serve `nb`. */
    static ghost predicate OutOfMemory(v: View, nb: nat)
    {
      NoneFits(v.binned, nb) && v.dvsize < nb && v.topsize <= nb
    }

    /** A chunk of `m` bytes can hold the request: it is aligned, and has room for one header word. */
    static predicate Enough(bytes: nat, m: nat)
    {
      m % 16 == 0 && m >= 32 && m >= bytes + 8
    }

    /** A binned chunk or the designated victim has `m` bytes, or top has more. */
    static ghost predicate Room(v: View, m: nat)
    {
      (exists e :: e in v.binned && v.binned[e] >= m) || v.dvsize >= m || v.topsize > m
    }

    /** Memory is exhausted for a request exactly if no size that is enough has room. */
    static lemma RoomIff(v: View, bytes: nat)
      requires bytes < 0xFFFF_FFFF_FFFF_FF80
      ensures !OutOfMemory(v, RequestSize(bytes))
         <==> exists m: nat {:trigger Enough(bytes, m)} :: Enough(bytes, m) && Room(v, m)
    {
      var nb := RequestSize(bytes);
      RequestSizeLeast(bytes, 16 * (bytes + 23));
      assert Enough(bytes, nb);
      forall m: nat | Enough(bytes, m) && Room(v, m) ensures !OutOfMemory(v, nb) {
        RequestSizeLeast(bytes, m);
        RoomLess(v, nb, m);
      }
      if !OutOfMemory(v, nb) { NotExhausted(v, nb); }
    }

    static lemma RoomLess(v: View, n: nat, m: nat)
      requires n <= m && Room(v, m)
      ensures !OutOfMemory(v, n)
    {
      if exists e :: e in v.binned && v.binned[e] >= m {
        var e :| e in v.binned && v.binned[e] >= m;
        if OutOfMemory(v, n) { TooSmall(v, n, e); }
      }
    }

    static lemma TooSmall(v: View, n: nat, e: Ptr)
      requires OutOfMemory(v, n) && e in v.binned
      ensures v.binned[e] < n
    {
    }

    static lemma NotExhausted(v: View, n: nat)
      requires !OutOfMemory(v, n)
      ensures Room(v, n)
    {
    }

    /** No state has room for the largest requests. */
    lemma NothingSoBig(bytes: nat)
      requires gm.Usable() && bytes >= 0xFFFF_FFFF_FFFF_FF80
      ensures OutOfMemory(gm.View(), RequestSize(bytes))
      ensures !AllocCollides(gm.bins.binned, gm.arena.dvsize, RequestSize(bytes))
    {
      if gm.Valid() { NotInUse(gm.arena); } else { gm.ZeroedFacts(); }
      RequestTooBig(bytes);
      NothingHuge(gm.bins);
      NothingTaken(gm.bins.binned, gm.arena.dvsize, WORD - 1);
    }

    method AllocSmallRequest(nb: nat) returns (r: Outcome)
      requires gm.Usable() && MIN_CHUNK_SIZE <= nb <= 240 && nb % CHUNK_ALIGN == 0
      modifies gm
      ensures !r.Threw?
      ensures r.Returned? ==> gm.Valid() && Chosen(old(gm.View()), nb, r.mem - PAYLOAD_OFFSET)
      ensures r.Returned? ==> gm.View() == Taken(old(gm.View()), nb, r.mem - PAYLOAD_OFFSET)
      ensures r.NeedsGrowth? ==>
        gm.bins == old(gm.bins) && gm.arena == old(gm.arena) && gm.leastAddr == old(gm.leastAddr)
      ensures r.NeedsGrowth? <==> OutOfMemory(old(gm.View()), nb)
    {
      if gm.Valid() { NotInUse(gm.arena); } else { gm.ZeroedFacts(); }
      var threw, mem := AllocSmall(nb);
      if mem != 0 {
        return Returned(mem);
      }
      r := AllocDvOrTop(nb);
    }

    /** The part of a large request that tries the trees. */
    method AllocLargeFromTrees(nb: nat) returns (threw: bool, mem: Ptr)
      requires gm.Usable() && MIN_LARGE_SIZE <= nb < WORD && nb % CHUNK_ALIGN == 0
      modifies gm
      ensures threw <==> AllocCollides(old(gm.bins.binned), old(gm.arena.dvsize), nb)
      ensures threw ==> mem == 0
      ensures threw || mem != 0 ==> !NoneFits(old(gm.bins.binned), nb)
      ensures mem != 0 ==> gm.Valid()
      ensures mem != 0 ==>
        MallocState.TreeServes(old(gm.bins.binned), old(gm.arena.dvsize), nb, mem - PAYLOAD_OFFSET)
      ensures mem != 0 ==> gm.View() == TakeBinned(old(gm.View()), nb, mem - PAYLOAD_OFFSET)
      ensures !threw && mem == 0 ==>
        gm.bins == old(gm.bins) && gm.arena == old(gm.arena) && gm.leastAddr == old(gm.leastAddr)
      ensures !threw && mem == 0 ==>
        NoneFits(gm.bins.binned, nb) || (nb <= gm.arena.dvsize && DvAsGood(gm.bins.binned, nb, gm.arena.dvsize))
    {
      if gm.Zeroed() { gm.ZeroedFacts(); }
      if gm.bins.treemap != ZERO {
        threw, mem := gm.TmallocLarge(nb);
      } else {
        NoTreeChunk(gm.bins);
        NothingTaken(gm.bins.binned, gm.arena.dvsize, nb);
        threw, mem := false, 0;
      }
    }

    method AllocLargeRequest(nb: nat) returns (r: Outcome)
      requires gm.Usable() && MIN_LARGE_SIZE <= nb < WORD && nb % CHUNK_ALIGN == 0
      modifies gm
      ensures r.Threw? <==> AllocCollides(old(gm.bins.binned), old(gm.arena.dvsize), nb)
      ensures r.Returned? ==> gm.Valid() && Chosen(old(gm.View()), nb, r.mem - PAYLOAD_OFFSET)
      ensures r.Returned? ==> gm.View() == Taken(old(gm.View()), nb, r.mem - PAYLOAD_OFFSET)
      ensures r.NeedsGrowth? ==>
        gm.bins == old(gm.bins) && gm.arena == old(gm.arena) && gm.leastAddr == old(gm.leastAddr)
      ensures r.NeedsGrowth? <==> OutOfMemory(old(gm.View()), nb)
    {
      if gm.Valid() { NotInUse(gm.arena); } else { gm.ZeroedFacts(); }
      var threw, mem := AllocLargeFromTrees(nb);
      if threw {
        return Threw;
      }
      if mem != 0 {
        return Returned(mem);
      }
      r := AllocDvOrTop(nb);
    }

    /** Too big to allocate: nothing has so many bytes. */
    method AllocHuge() returns (r: Outcome)
      requires gm.Usable()
      modifies gm
      ensures r.NeedsGrowth? && OutOfMemory(old(gm.View()), WORD - 1)
      ensures !AllocCollides(old(gm.bins.binned), old(gm.arena.dvsize), WORD - 1)
      ensures gm.bins == old(gm.bins) && gm.arena == old(gm.arena) && gm.leastAddr == old(gm.leastAddr)
    {
      if gm.Valid() { NotInUse(gm.arena); } else { gm.ZeroedFacts(); }
      NothingHuge(gm.bins);
      NothingTaken(gm.bins.binned, gm.arena.dvsize, WORD - 1);
      r := AllocDvOrTop(WORD - 1);
    }

    /** The three ways into Alloc, by the size of the request. */
    method AllocBySize(bytes: nat) returns (r: Outcome)
      requires gm.Usable() && bytes < WORD
      modifies gm
      ensures r.Threw? <==> AllocCollides(old(gm.bins.binned), old(gm.arena.dvsize), RequestSize(bytes))
      ensures r.Returned? ==> gm.Valid() && Chosen(old(gm.View()), RequestSize(bytes), r.mem - PAYLOAD_OFFSET)
      ensures r.Returned? ==> gm.View() == Taken(old(gm.View()), RequestSize(bytes), r.mem - PAYLOAD_OFFSET)
      ensures r.NeedsGrowth? ==>
        gm.bins == old(gm.bins) && gm.arena == old(gm.arena) && gm.leastAddr == old(gm.leastAddr)
      ensures r.NeedsGrowth? <==> OutOfMemory(old(gm.View()), RequestSize(bytes))
    {
      if bytes <= MAX_SMALL_REQUEST {
        var nb := if bytes < MIN_REQUEST then MIN_CHUNK_SIZE else PadRequest(bytes);
        RequestSizeOk(bytes);
        r := AllocSmallRequest(nb);
      } else if bytes >= MAX_REQUEST {
        r := AllocHuge();
      } else {
        var nb := PadRequest(bytes);
        RequestSizeOk(bytes);
        r := AllocLargeRequest(nb);
      }
    }

    /** Alloc, up to the point where it would ask for another region. It hands out one chunk, the
        one the search order promises; it throws exactly if a tree bin refuses the remainder. */
    method Alloc(bytes: nat) returns (r: Outcome)
      requires gm.Usable() && bytes < WORD
      modifies gm
      ensures r.Threw? <==> AllocCollides(old(gm.bins.binned), old(gm.arena.dvsize), RequestSize(bytes))
      ensures r.NeedsGrowth? <==> OutOfMemory(old(gm.View()), RequestSize(bytes))
      ensures bytes < 0xFFFF_FFFF_FFFF_FF80 && !r.Threw? ==>
        (r.Returned? <==> exists m: nat {:trigger Enough(bytes, m)} :: Enough(bytes, m) && Room(old(gm.View()), m))
      ensures bytes >= 0xFFFF_FFFF_FFFF_FF80 ==> r.NeedsGrowth?
      ensures r.NeedsGrowth? ==>
        gm.bins == old(gm.bins) && gm.arena == old(gm.arena) && gm.leastAddr == old(gm.leastAddr)
      ensures r.Returned? ==> gm.Valid()
      ensures r.Returned? ==>
        Served(old(gm.View()), gm.View(), RequestSize(bytes), r.mem - PAYLOAD_OFFSET)
      ensures r.Returned? ==> Chosen(old(gm.View()), RequestSize(bytes), r.mem - PAYLOAD_OFFSET)
      ensures r.Returned? ==> gm.View() == Taken(old(gm.View()), RequestSize(bytes), r.mem - PAYLOAD_OFFSET)
      ensures r.Returned? && OneSizePerBin(old(gm.bins.binned)) ==> OneSizePerBin(gm.bins.binned)
    {
      ghost var h, v := gm.arena, gm.View();
      if bytes < 0xFFFF_FFFF_FFFF_FF80 { RoomIff(v, bytes); } else { NothingSoBig(bytes); }
      r := AllocBySize(bytes);
      if r.Returned? {
        TakenServes(h, RequestSize(bytes), r.mem - PAYLOAD_OFFSET);
        if OneSizePerBin(v.binned) { TakenOneSize(v, RequestSize(bytes), r.mem - PAYLOAD_OFFSET); }
      }
    }

    /** All binned sizes are below the limit. */
    static lemma NothingHuge(x: Index)
      requires x.Valid()
      ensures NoneFits(x.binned, WORD - 1)
    {
      forall e | e in x.binned ensures x.binned[e] < WORD - 1 {
        if x.binned[e] >= MIN_LARGE_SIZE { LargeChunkSlot(x, e); }
      }
    }

    // ---- Free ----

    /** The next chunk is top. */
    method FreeIntoTop(q: Ptr, psize: nat, ghost p: Ptr, ghost b: Index)
      requires gm.arena.Valid() && gm.leastAddr <= gm.arena.base && p in gm.arena.InUse() && gm.BinsOk()
      requires b.binned == gm.arena.Free() - {gm.arena.dv}
      requires q == Lower(gm.arena, p) && p in gm.arena.head && q + psize == Next(gm.arena, p) == gm.arena.top
      requires !Misread(gm.arena, p)
      requires gm.bins.binned == if q == gm.arena.dv then b.binned else b.binned - {q}
      modifies gm`arena
      ensures gm.Valid() && TakesBack(old(gm.arena), gm.arena, p)
      ensures gm.arena.dv == if q == old(gm.arena.dv) then 0 else old(gm.arena.dv)
    {
      ghost var h := gm.arena;
      ReleasedOk(h, p);
      ReleasedTags(h, p);
      ReleasedBeforeTop(h, p);
      DvFacts(h);
      var tsize := gm.arena.topsize + psize;
      gm.arena := gm.arena.(topsize := tsize, top := q);
      gm.arena := gm.arena.(head := gm.arena.head[q := TopHead(tsize)]);
      gm.arena := gm.arena.(starts := Released(h, p).starts);
      assert gm.arena == Released(h, p);
      WithDv(gm.arena, if q == h.dv then 0 else h.dv, if q == h.dv then 0 else h.dvsize);
      Positive(h);
      if q == gm.arena.dv {
        gm.arena := gm.arena.(dv := 0, dvsize := 0);
      }
      assert gm.bins.binned == gm.arena.Free() - {gm.arena.dv};
    }

    /** The next chunk is the designated victim, which takes in the released one. */
    method FreeIntoDv(q: Ptr, psize: nat, ghost p: Ptr, ghost b: Index)
      requires gm.arena.Valid() && gm.leastAddr <= gm.arena.base && p in gm.arena.InUse() && gm.BinsOk()
      requires b.binned == gm.arena.Free() - {gm.arena.dv}
      requires q == Lower(gm.arena, p) && p in gm.arena.head && q + psize == Next(gm.arena, p) == gm.arena.dv
      requires q != gm.arena.dv && gm.bins.binned == b.binned - {q}
      requires gm.arena.dv != gm.arena.top && gm.arena.dv != 0
      modifies gm`arena
      ensures gm.Valid() && TakesBack(old(gm.arena), gm.arena, p)
      ensures gm.arena.dv == q && gm.arena.dvsize == old(gm.arena.dvsize) + psize
    {
      ghost var h := gm.arena;
      ReleasedOk(h, p);
      ReleasedTags(h, p);
      ReleasedBeforeFree(h, p);
      DvFacts(h);
      FreeFacts(h, h.dv);
      var dsize := gm.arena.dvsize + psize;
      WithDv(Released(h, p), q, dsize);
      gm.arena := gm.arena.(dvsize := dsize, dv := q);
      gm.arena := gm.arena.SetFreeChunk(q, dsize);
      gm.arena := gm.arena.(starts := Released(h, p).starts);
      assert gm.arena == Released(h, p).(dv := q, dvsize := dsize);
      assert gm.bins.binned == gm.arena.Free() - {q};
    }

    /** The designated victim is the chunk before `p`, and the next chunk reads as in use. */
    method FreeBehindDv(q: Ptr, psize: nat, next: Ptr, ghost p: Ptr)
      requires gm.Valid() && p in gm.arena.InUse()
      requires p in gm.arena.head && next == Next(gm.arena, p)
      requires next in gm.arena.head && gm.arena.head[next].cinuse
      requires q == Lower(gm.arena, p) == gm.arena.dv && q != p && q + psize == next
      modifies gm`arena
      ensures gm.arena == Released(old(gm.arena), p).(dv := q, dvsize := psize)
      ensures !Misread(old(gm.arena), p) ==> gm.Valid() && TakesBack(old(gm.arena), gm.arena, p)
    {
      ghost var h := gm.arena;
      ReleasedTags(h, p);
      ReleasedBeforeInUse(h, p);
      gm.arena := gm.arena.(dvsize := psize);
      gm.arena := gm.arena.SetFreeWithPinuse(q, psize, next);
      gm.arena := gm.arena.(starts := Released(h, p).starts);
      assert gm.arena == Released(h, p).(dv := q, dvsize := psize);
      if !Misread(h, p) { GrownDvOk(h, p, q, psize); }
    }

    /** The designated victim below `p` has grown over it. */
    static lemma GrownDvOk(h: Arena, p: Ptr, q: Ptr, s: nat)
      requires h.Valid() && p in h.InUse() && !Misread(h, p) && p in h.head && Next(h, p) in h.head
      requires h.head[Next(h, p)].cinuse && q == Lower(h, p) == h.dv && q != p && q + s == Next(h, p)
      ensures var g := Released(h, p).(dv := q, dvsize := s);
        g.Valid() && TakesBack(h, g, p) && h.Free() - {h.dv} == g.Free() - {q}
      ensures forall e | e in h.Free() && e != q ::
        e in Released(h, p).head && Released(h, p).head[e].size == h.Free()[e]
    {
      ReleasedOk(h, p);
      ReleasedTags(h, p);
      ReleasedBeforeInUse(h, p);
      WithDv(Released(h, p), q, s);
    }

    /** The next chunk is a binned free chunk, which is unlinked and absorbed. */
    method AbsorbNext(q: Ptr, psize: nat, next: Ptr, ghost p: Ptr, ghost b: Index) returns (threw: bool)
      requires gm.arena.Valid() && gm.leastAddr <= gm.arena.base && p in gm.arena.InUse() && gm.BinsOk()
      requires b.binned == gm.arena.Free() - {gm.arena.dv}
      requires q == Lower(gm.arena, p) && p in gm.arena.head && q + psize == next == Next(gm.arena, p)
      requires next in gm.arena.head && !gm.arena.head[next].cinuse && next != gm.arena.top && next != gm.arena.dv
      requires gm.bins.binned == if q == gm.arena.dv then b.binned else b.binned - {q}
      modifies gm
      ensures !threw && gm.arena == Released(old(gm.arena), p) && gm.leastAddr == old(gm.leastAddr)
      ensures gm.bins.Valid() && gm.bins.binned == b.binned - {q, next}
    {
      ghost var h := gm.arena;
      ReleasedTags(h, p);
      ReleasedBeforeFree(h, p);
      Positive(h);
      var nsize := gm.ChunkSize(next);
      threw := gm.UnlinkChunk(next, nsize);
      gm.arena := gm.arena.SetFreeChunk(q, psize + nsize);
      gm.arena := gm.arena.(starts := Released(h, p).starts);
    }

    /** The next chunk reads as in use. */
    method FreeBeforeInUse(q: Ptr, psize: nat, next: Ptr, ghost p: Ptr)
      requires gm.arena.Valid() && p in gm.arena.InUse()
      requires q == Lower(gm.arena, p) && p in gm.arena.head && q + psize == next == Next(gm.arena, p)
      requires next in gm.arena.head && gm.arena.head[next].cinuse
      modifies gm`arena
      ensures gm.arena == Released(old(gm.arena), p)
    {
      ghost var h := gm.arena;
      ReleasedBeforeInUse(h, p);
      gm.arena := gm.arena.SetFreeWithPinuse(q, psize, next);
      gm.arena := gm.arena.(starts := Released(h, p).starts);
    }

    /** What is left in the bins once the neighbours of `p` are out agrees with the new headers. */
    static lemma BinsAfter(h: Arena, p: Ptr, binned: map<Ptr, nat>)
      requires h.Valid() && p in h.InUse() && p in h.head && Next(h, p) in h.head && Refiled(h, p)
      requires binned == h.Free() - {h.dv, Lower(h, p), Next(h, p)}
      ensures forall e | e in binned ::
        e >= h.base && e in Released(h, p).head && Released(h, p).head[e].size == binned[e]
      ensures Lower(h, p) !in binned
    {
      Around(h, p);
      Positive(h);
      forall e | e in binned ensures e in Released(h, p).head && Released(h, p).head[e].size == binned[e] {
        FreeFacts(h, e);
      }
    }

    /** The extent and the header of the coalesced chunk. */
    static lemma CoalescedChunk(h: Arena, p: Ptr)
      requires h.Valid() && p in h.InUse() && p in h.head && Next(h, p) in h.head && Refiled(h, p)
      ensures var q, g := Lower(h, p), Released(h, p);
        (&& q >= h.base && q in g.head && q < Upper(h, p) && g.head[q].size == Upper(h, p) - q
         && MIN_CHUNK_SIZE <= g.head[q].size < SIZE_LIMIT && g.head[q].size % CHUNK_ALIGN == 0)
    {
      Around(h, p);
      Positive(h);
      Extent(h, p);
    }

    static lemma Extent(h: Arena, p: Ptr)
      requires h.Valid() && p in h.InUse() && p in h.head && Next(h, p) in h.head
      requires Next(h, p) != h.top || Misread(h, p)
      ensures var s := Upper(h, p) - Lower(h, p); MIN_CHUNK_SIZE <= s < SIZE_LIMIT && s % CHUNK_ALIGN == 0
      ensures Lower(h, p) >= h.base
    {
      Around(h, p);
      Facts(h, p);
      Facts(h, Lower(h, p));
      Facts(h, Upper(h, p));
      Multiples16(Upper(h, p), Lower(h, p));
    }

    static lemma Multiples16(u: int, q: int)
      requires u % CHUNK_ALIGN == 0 && q % CHUNK_ALIGN == 0
      ensures (u - q) % CHUNK_ALIGN == 0
    {
    }

    /** With the coalesced chunk filed, the bins agree with the new arena again. */
    static lemma BinsRefiled(h: Arena, p: Ptr, binned: map<Ptr, nat>)
      requires h.Valid() && p in h.InUse() && p in h.head && Next(h, p) in h.head && Refiled(h, p) && !Misread(h, p)
      requires binned == h.Free() - {h.dv, Lower(h, p), Next(h, p)}
      ensures var q, g := Lower(h, p), Released(h, p);
        (&& g.Valid() && g.InUse() == h.InUse() - {p} && g.base == h.base
         && binned[q := Upper(h, p) - q] == g.Free() - {g.dv})
    {
      assert Next(h, p) != h.top;
      Around(h, p);
      ReleasedOk(h, p);
      DvFacts(h);
      Positive(h);
      StillDv(h, Released(h, p));
    }

    /** The coalesced chunk at `q` may be filed. */
    lemma ReadyToFile(q: Ptr, s: nat, p: Ptr, h: Arena, b: Index)
      requires h.Valid() && p in h.InUse() && b.binned == h.Free() - {h.dv} && gm.bins.Valid()
      requires 0 < gm.leastAddr <= h.base && gm.arena == Released(h, p)
      requires p in h.head && Next(h, p) in h.head && q == Lower(h, p) && q + s == Upper(h, p)
      requires Refiled(h, p) && gm.bins.binned == b.binned - {q, Next(h, p)}
      ensures gm.BinsOk() && gm.OkAddress(q) && q !in gm.bins.binned && q in gm.arena.head && gm.ChunkSize(q) == s
      ensures MIN_CHUNK_SIZE <= s < SIZE_LIMIT && s % CHUNK_ALIGN == 0
    {
      BinsAfter(h, p, gm.bins.binned);
      CoalescedChunk(h, p);
    }

    /** With the coalesced chunk filed, the whole invariant holds again. */
    lemma FiledOk(q: Ptr, s: nat, p: Ptr, h: Arena)
      requires h.Valid() && p in h.InUse() && gm.BinsOk() && gm.leastAddr <= h.base && gm.arena == Released(h, p)
      requires p in h.head && Next(h, p) in h.head && q == Lower(h, p) && q + s == Upper(h, p)
      requires Refiled(h, p) && !Misread(h, p)
      requires gm.bins.binned == (h.Free() - {h.dv, q, Next(h, p)})[q := s]
      ensures gm.Valid() && TakesBack(h, gm.arena, p)
    {
      BinsRefiled(h, p, h.Free() - {h.dv, q, Next(h, p)});
    }

    /** Files the coalesced chunk at `q` in its bin. */
    method FileFreed(q: Ptr, s: nat, ghost p: Ptr, ghost h: Arena, ghost b: Index) returns (threw: bool)
      requires h.Valid() && p in h.InUse() && b.binned == h.Free() - {h.dv} && gm.bins.Valid()
      requires 0 < gm.leastAddr <= h.base && gm.arena == Released(h, p)
      requires p in h.head && Next(h, p) in h.head && q == Lower(h, p) && q + s == Upper(h, p)
      requires Refiled(h, p) && gm.bins.binned == b.binned - {q, Next(h, p)}
      modifies gm
      ensures threw == FreeThrows(b.binned, h, p)
      ensures !threw && !Misread(h, p) ==>
        gm.Valid() && TakesBack(h, gm.arena, p) && gm.arena.dv == VictimAfterFree(h, p)
      ensures !threw ==> gm.arena == Released(h, p) && gm.bins.Valid()
      ensures !threw ==> gm.bins.binned == (b.binned - {q, Next(h, p)})[q := s]
    {
      assert FreeThrows(b.binned, h, p) == (s >= MIN_LARGE_SIZE && Collides(gm.bins.binned, s));
      threw := FileCoalesced(q, s, p, h, b);
    }

    method FileCoalesced(q: Ptr, s: nat, ghost p: Ptr, ghost h: Arena, ghost b: Index) returns (threw: bool)
      requires h.Valid() && p in h.InUse() && b.binned == h.Free() - {h.dv} && gm.bins.Valid()
      requires 0 < gm.leastAddr <= h.base && gm.arena == Released(h, p)
      requires p in h.head && Next(h, p) in h.head && q == Lower(h, p) && q + s == Upper(h, p)
      requires Refiled(h, p) && gm.bins.binned == b.binned - {q, Next(h, p)}
      modifies gm
      ensures threw <==> s >= MIN_LARGE_SIZE && Collides(old(gm.bins.binned), s)
      ensures !threw && !Misread(h, p) ==>
        gm.Valid() && TakesBack(h, gm.arena, p) && gm.arena.dv == VictimAfterFree(h, p)
      ensures !threw ==> gm.arena == Released(h, p) && gm.bins.Valid() && gm.bins.binned == old(gm.bins.binned)[q := s]
    {
      ReadyToFile(q, s, p, h, b);
      threw := gm.InsertChunk(q, s);
      if !threw && !Misread(h, p) { FiledOk(q, s, p, h); }
    }

    /** The designated victim at `q` has grown over `p` and the absorbed next chunk. */
    method GrowDv(q: Ptr, s: nat, ghost p: Ptr, ghost h: Arena, ghost b: Index)
      requires h.Valid() && p in h.InUse() && b.binned == h.Free() - {h.dv} && gm.bins.Valid()
      requires 0 < gm.leastAddr <= h.base && gm.arena == Released(h, p)
      requires p in h.head && Next(h, p) in h.head && Next(h, p) != h.top
      requires q == Lower(h, p) == h.dv && q + s == Upper(h, p) && gm.bins.binned == b.binned - {q, Next(h, p)}
      modifies gm`arena
      ensures gm.Valid() && TakesBack(h, gm.arena, p)
      ensures gm.arena.dv == q && gm.arena.dvsize == s
    {
      ReleasedOk(h, p);
      forall e | e in gm.bins.binned ensures e in gm.arena.Free() && gm.arena.Free()[e] == gm.bins.binned[e] {
      }
      Positive(h);
      WithDv(gm.arena, q, s);
      gm.arena := gm.arena.(dvsize := s);
      assert gm.bins.binned == gm.arena.Free() - {q};
    }

    /** What a Free that returns leaves: the whole invariant, unless top was misread. Then the chunk
        is marked free below it and is filed in a bin or joins the designated victim. */
    ghost predicate FreeLeaves(h: Arena, binned: map<Ptr, nat>, p: Ptr)
      requires p in h.InUse() && h.Tagged() && p in h.head
      reads gm
    {
      var q, n := Lower(h, p), Next(h, p);
      if Misread(h, p) then
        && gm.bins.Valid() && n >= q
        && (if q == h.dv then gm.arena == Released(h, p).(dvsize := n - q) && gm.bins.binned == binned
            else gm.arena == Released(h, p) && gm.bins.binned == (binned - {q})[q := n - q])
      else
        gm.Valid() && TakesBack(h, gm.arena, p) && gm.arena.dv == VictimAfterFree(h, p)
    }

    /** Releasing a chunk that is in use. */
    method FreeChunk(p: Ptr) returns (threw: bool)
      requires gm.Valid() && p in gm.arena.InUse()
      modifies gm
      ensures p in old(gm.arena).head && Next(old(gm.arena), p) in old(gm.arena).head
      ensures threw == FreeThrows(old(gm.bins.binned), old(gm.arena), p)
      ensures !threw ==> FreeLeaves(old(gm.arena), old(gm.bins.binned), p)
    {
      ghost var h, b := gm.arena, gm.bins;
      ReleasedTags(h, p);
      DvFacts(h);
      Positive(h);
      var psize: int := gm.ChunkSize(p);
      var next := p + psize;
      var q := p;
      if !gm.arena.head[p].pinuse {
        var prevsize := gm.arena.foot[p];
        var prev := p - prevsize;
        psize := psize + prevsize;
        q := prev;
        if !gm.OkAddress(prev) {
          return true;
        }
        if q != gm.arena.dv {
          threw := gm.UnlinkChunk(q, prevsize);
        } else if gm.arena.head[next].pinuse && gm.arena.head[next].cinuse {
          FreeBehindDv(q, psize, next, p);
          return false;
        }
      }
      threw := FreeForward(q, psize, next, p, h, b);
    }

    /** The part of Free after the chunk before `p` has been dealt with. */
    method FreeForward(q: Ptr, psize: nat, next: Ptr, ghost p: Ptr, ghost h: Arena, ghost b: Index)
      returns (threw: bool)
      requires gm.arena == h && h.Valid() && gm.leastAddr <= h.base && p in h.InUse() && gm.BinsOk()
      requires b.binned == h.Free() - {h.dv}
      requires p in h.head && q == Lower(h, p) && q + psize == next == Next(h, p) && next in h.head
      requires gm.bins.binned == if q == h.dv then b.binned else b.binned - {q}
      requires q == h.dv ==> !h.head[next].cinuse
      modifies gm
      ensures threw == FreeThrows(b.binned, h, p)
      ensures !threw ==> FreeLeaves(h, b.binned, p)
    {
      ReleasedTags(h, p);
      DvFacts(h);
      Positive(h);
      threw := false;
      if q < next && gm.arena.head[next].pinuse {
        if !gm.arena.head[next].cinuse {
          if next == gm.arena.top {
            FreeIntoTop(q, psize, p, b);
          } else if next == gm.arena.dv {
            FreeIntoDv(q, psize, p, b);
          } else {
            var nsize := gm.ChunkSize(next);
            ReleasedBeforeFree(h, p);
            threw := AbsorbNext(q, psize, next, p, b);
            if q == gm.arena.dv {
              GrowDv(q, psize + nsize, p, h, b);
            } else {
              threw := FileFreed(q, psize + nsize, p, h, b);
            }
          }
        } else {
          ReleasedBeforeInUse(h, p);
          FreeBeforeInUse(q, psize, next, p);
          assert gm.bins.binned == b.binned - {q, next};
          threw := FileFreed(q, psize, p, h, b);
        }
      }
    }

    /** Free: releases the chunk behind `mem`, coalesced with free neighbours. Memory that is null
        or not in use is left alone. The chunk is not top, unless top's word reads as free. */
    method Free(mem: Ptr) returns (threw: bool)
      requires gm.Valid() && (mem == 0 || mem - PAYLOAD_OFFSET in gm.arena.starts)
      requires mem - PAYLOAD_OFFSET == gm.arena.top ==> !Unreadable(gm.View())
      modifies gm
      ensures mem == 0 || mem - PAYLOAD_OFFSET !in old(gm.arena).InUse() ==>
        !threw && gm.arena == old(gm.arena) && gm.bins == old(gm.bins) && gm.leastAddr == old(gm.leastAddr)
      ensures mem != 0 && mem - PAYLOAD_OFFSET in old(gm.arena).InUse() ==>
        var p, h := mem - PAYLOAD_OFFSET, old(gm.arena);
        (&& p in h.head && Next(h, p) in h.head && threw == FreeThrows(old(gm.bins.binned), h, p)
         && (!threw ==> FreeLeaves(h, old(gm.bins.binned), p)))
      ensures mem != 0 && mem - PAYLOAD_OFFSET in old(gm.arena).InUse() && !threw ==>
        if Misread(old(gm.arena), mem - PAYLOAD_OFFSET) then !gm.Valid()
        else gm.Valid() && GivesBack(old(gm.arena), old(gm.View()), gm.View(), mem - PAYLOAD_OFFSET)
      ensures !threw && OneSizePerBin(old(gm.bins.binned)) ==> OneSizePerBin(gm.bins.binned)
    {
      if mem == 0 {
        return false;
      }
      ghost var h := gm.arena;
      var p := mem - PAYLOAD_OFFSET;
      Facts(gm.arena, p);
      TopReads(gm.arena);
      if gm.OkAddress(p) && gm.arena.head[p].IsInuse() {
        threw := FreeChunk(p);
        if !threw { FreeDone(h, p); }
      } else {
        return false;
      }
    }

    lemma FreeDone(h: Arena, p: Ptr)
      requires h.Valid() && p in h.InUse() && p in h.head && Next(h, p) in h.head
      requires !FreeThrows(ViewOf(h).binned, h, p) && FreeLeaves(h, ViewOf(h).binned, p)
      ensures if Misread(h, p) then !gm.Valid() else gm.Valid() && GivesBack(h, ViewOf(h), gm.View(), p)
      ensures OneSizePerBin(ViewOf(h).binned) ==> OneSizePerBin(gm.bins.binned)
    {
      if Misread(h, p) {
        StrayDone(h, p);
      } else {
        FreeView(h, gm.arena, p);
        if OneSizePerBin(ViewOf(h).binned) { GivesBackOneSize(h, gm.arena, p); }
      }
    }

    lemma StrayDone(h: Arena, p: Ptr)
      requires h.Valid() && p in h.InUse() && p in h.head && Next(h, p) in h.head && Misread(h, p)
      requires !FreeThrows(ViewOf(h).binned, h, p) && FreeLeaves(h, ViewOf(h).binned, p)
      ensures !gm.Valid()
      ensures OneSizePerBin(ViewOf(h).binned) ==> OneSizePerBin(gm.bins.binned)
    {
      ReleasedTags(h, p);
      StrayTouches(h, p);
      var q := Lower(h, p);
      if gm.arena.Tagged() { NotBelowTop(gm.arena, q); }
      if OneSizePerBin(ViewOf(h).binned) && q != h.dv { StrayOneSize(h, p); }
    }

    static lemma StrayOneSize(h: Arena, p: Ptr)
      requires h.Valid() && p in h.InUse() && p in h.head && Next(h, p) in h.head && Misread(h, p)
      requires Lower(h, p) != h.dv && OneSizePerBin(ViewOf(h).binned) && !FreeThrows(ViewOf(h).binned, h, p)
      ensures Lower(h, p) <= h.top
      ensures OneSizePerBin((ViewOf(h).binned - {Lower(h, p)})[Lower(h, p) := h.top - Lower(h, p)])
    {
      ReleasedTags(h, p);
      DvFacts(h);
      NotInUse(h);
      var q, b := Lower(h, p), ViewOf(h).binned;
      assert b - {q, h.top} == b - {q};
      OneSizeRemoved(b, {q});
      OneSizeAdded(b - {q}, q, h.top - q);
    }

    // ---- growth ----

    static predicate IsNewLeast(tbase: Ptr, leastAddr: Ptr)
    {
      leastAddr == 0 || tbase < leastAddr
    }

    /** `tbase` and `tsize` are the region the underlying allocator answers with. Only the first
        region is ever used; a later one is dropped. */
    method InitOrExpand(tbase: Ptr, tsize: nat)
      requires gm.Valid() || gm.Zeroed()
      requires 0 < tbase && AlignOffset(tbase + PAYLOAD_OFFSET) + TOP_FOOT_SIZE < tsize < SIZE_LIMIT
      modifies gm
      ensures gm.Valid()
      ensures old(gm.IsInitialized()) ==>
        gm.bins == old(gm.bins) && gm.arena == old(gm.arena) && gm.leastAddr == old(gm.leastAddr)
      ensures !old(gm.IsInitialized()) ==>
        gm.View() == FirstView(tbase, tsize) && OneSizePerBin(gm.bins.binned)
      ensures !old(gm.IsInitialized()) ==>
        && tbase <= gm.arena.base < tbase + 16 && gm.arena.base % 16 == 0 && gm.arena.end + 8 == tbase + tsize
        && gm.arena.top == gm.arena.base && gm.arena.topsize == gm.arena.end - gm.arena.base
        && gm.arena.InUse() == map[] && gm.bins.binned == map[] && gm.arena.dv == 0 && gm.arena.dvsize == 0
        && gm.leastAddr == tbase
    {
      if !gm.IsInitialized() {
        StartsPositive();
        if IsNewLeast(tbase, gm.leastAddr) {
          gm.leastAddr := tbase;
        }
        gm.InitBins();
        gm.InitTop(tbase, tsize - TOP_FOOT_SIZE);
        EmptyIndex(gm.bins);
        assert gm.bins.binned == gm.arena.Free() - {0};
      } else {
        StartsPositive();
      }
    }

    lemma StartsPositive()
      requires gm.Valid() || gm.Zeroed()
      ensures gm.IsInitialized() <==> gm.Valid()
    {
      if gm.Valid() { Positive(gm.arena); }
    }

    /** What Alloc has to work with: a zeroed state is set up with the first region it gets. */
    static ghost function AtHand(zeroed: bool, v: View, regions: seq<(Ptr, nat)>): View
      requires forall t | t in regions :: IsRegion(t)
    {
      if zeroed && regions != [] then
        assert IsRegion(regions[0]);
        FirstView(regions[0].0, regions[0].1)
      else v
    }

    static ghost predicate IsRegion(t: (Ptr, nat))
    {
      0 < t.0 && AlignOffset(t.0 + PAYLOAD_OFFSET) + TOP_FOOT_SIZE < t.1 < SIZE_LIMIT
    }

    /** Alloc as it stands: whenever the heap cannot serve the request, InitOrExpand and try again.
        `regions` are the answers of the underlying allocator. The first one sets up a zeroed state;
        after that, however many there are, a request that does not fit at first never will. */
    method AllocRetrying(bytes: nat, regions: seq<(Ptr, nat)>) returns (r: Outcome)
      requires gm.Usable() && bytes < WORD
      requires forall t | t in regions :: IsRegion(t)
      modifies gm
      ensures var v := AtHand(old(gm.Zeroed()), old(gm.View()), regions);
        (&& (r.NeedsGrowth? <==> OutOfMemory(v, RequestSize(bytes)))
         && (r.NeedsGrowth? ==> gm.Usable() && gm.View() == v)
         && (r.Threw? <==> AllocCollides(v.binned, v.dvsize, RequestSize(bytes)))
         && (r.Returned? ==> gm.Valid() && Chosen(v, RequestSize(bytes), r.mem - PAYLOAD_OFFSET))
         && (r.Returned? ==> gm.View() == Taken(v, RequestSize(bytes), r.mem - PAYLOAD_OFFSET))
         && (!r.Threw? && OneSizePerBin(v.binned) ==> OneSizePerBin(gm.bins.binned)))
      decreases |regions|
    {
      if gm.Zeroed() { gm.ZeroedFacts(); }
      r := Alloc(bytes);
      if r.NeedsGrowth? && regions != [] {
        StartsPositive();
        assert IsRegion(regions[0]);
        InitOrExpand(regions[0].0, regions[0].1);
        r := AllocRetrying(bytes, regions[1..]);
      }
    }
  }
}
