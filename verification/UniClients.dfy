/** Clients of UniAllocator: what a call followed by another, or any run of calls, amounts to, and
    inputs on which the code throws although nothing is corrupted. */
module UniClients {
  import opened Words
  import opened Rings
  import opened TreeIndex
  import opened Tries
  import opened Chunks
  import opened BinIndex
  import opened TreeSearch
  import opened SmallSearch
  import opened Collisions
  import opened Heap
  import opened HeapLaws
  import opened HeapViews
  import opened UniLaws
  import opened IndexLaws
  import opened UniAllocators

  // ---- Alloc followed by Free ----

  /** Free undoes Alloc: the layout is as before, unless the chunk is cut from a top that cannot be
      read. Free throws instead exactly if the tree bin refuses the chunk. With one size per bin that
      is the case exactly if Alloc used up a colliding designated victim, or cut such a chunk from a
      top that cannot be read. */
  method RoundTrip(u: UniAllocator, bytes: nat) returns (r: Outcome, threw: bool)
    requires u.gm.Valid() && bytes < WORD
    modifies u.gm
    ensures r.Threw? <==> AllocCollides(old(u.gm.bins.binned), old(u.gm.arena.dvsize), RequestSize(bytes))
    ensures r.NeedsGrowth? <==> UniAllocator.OutOfMemory(old(u.gm.View()), RequestSize(bytes))
    ensures r.Returned? ==> Serves(old(u.gm.View()), RequestSize(bytes), r.mem - PAYLOAD_OFFSET)
    ensures r.Returned? ==> threw == ReturnCollides(old(u.gm.View()), RequestSize(bytes), r.mem - PAYLOAD_OFFSET)
    ensures r.Returned? && OneSizePerBin(old(u.gm.bins.binned)) ==>
      threw == ReturnThrows(old(u.gm.View()), RequestSize(bytes))
    ensures r.Returned? && !threw ==> u.gm.Valid() == !FromUnreadable(old(u.gm.View()), RequestSize(bytes))
    ensures r.Returned? && !threw && u.gm.Valid() ==> SameLayout(old(u.gm.arena), u.gm.arena)
  {
    ghost var h := u.gm.arena;
    r := u.Alloc(bytes);
    threw := false;
    if r.Returned? {
      ghost var g := u.gm.arena;
      ReturnedChunk(h, g, bytes, r.mem - PAYLOAD_OFFSET);
      threw := u.Free(r.mem);
      if !threw && u.gm.Valid() { Restored(h, g, u.gm.arena, RequestSize(bytes), r.mem - PAYLOAD_OFFSET); }
    }
  }

  ghost predicate ReturnThrows(v: View, nb: nat)
  {
    ExhaustsCollidingVictim(v, nb) || CollidesBelowTop(v, nb)
  }

  /** Only top can serve `nb`, and it cannot be read. */
  ghost predicate FromUnreadable(v: View, nb: nat)
  {
    Unreadable(v) && v.dvsize < nb && NoneFits(v.binned, nb)
  }

  lemma ReturnedChunk(h: Arena, g: Arena, bytes: nat, p: Ptr)
    requires h.Valid() && g.Valid() && Chosen(ViewOf(h), RequestSize(bytes), p)
    requires ViewOf(g) == Taken(ViewOf(h), RequestSize(bytes), p)
    ensures p > 0 && p in g.starts && p != g.top && p in g.InUse() && p in g.head && Next(g, p) in g.head
    ensures FreeThrows(ViewOf(g).binned, g, p) == ReturnCollides(ViewOf(h), RequestSize(bytes), p)
    ensures OneSizePerBin(ViewOf(h).binned) ==>
      FreeThrows(ViewOf(g).binned, g, p) == ReturnThrows(ViewOf(h), RequestSize(bytes))
    ensures Misread(g, p) == FromUnreadable(ViewOf(h), RequestSize(bytes))
  {
    AlignedWhenServed(h, bytes, p);
    ThrowsAfterAlloc(h, g, RequestSize(bytes), p);
    Positive(g);
    if OneSizePerBin(ViewOf(h).binned) { ReturnThrowsIff(ViewOf(h), RequestSize(bytes), p); }
  }

  lemma Restored(h: Arena, g: Arena, f: Arena, nb: nat, p: Ptr)
    requires h.Valid() && g.Valid() && f.Valid() && Served(ViewOf(h), ViewOf(g), nb, p) && TakesBack(g, f, p)
    ensures SameLayout(h, f)
  {
    assert h.InUse()[p := g.InUse()[p]] - {p} == h.InUse();
    Determined(h, f);
  }

  ghost predicate SameLayout(h: Arena, g: Arena)
  {
    && g.base == h.base && g.end == h.end && g.InUse() == h.InUse() && g.Free() == h.Free()
    && g.starts == h.starts && g.top == h.top && g.topsize == h.topsize
  }

  lemma AlignedWhenServed(h: Arena, bytes: nat, p: Ptr)
    requires h.Valid() && Serves(ViewOf(h), RequestSize(bytes), p)
    ensures MIN_CHUNK_SIZE <= RequestSize(bytes) && RequestSize(bytes) % CHUNK_ALIGN == 0
  {
    ServedBelowLimit(h, RequestSize(bytes), p);
    if bytes < MAX_REQUEST { RequestSizeOk(bytes); }
  }

  // ---- inputs on which the code throws ----

  /** An arena of more than 4096 bytes of which nothing has been handed out yet. */
  ghost predicate Untouched(u: UniAllocator)
    reads u.gm
  {
    var v := u.gm.View();
    && u.gm.Valid() && v.inUse == map[] && v.binned == map[] && v.dv == 0 && v.dvsize == 0
    && v.top == v.base && v.topsize > 4096
  }

  method FirstRegion(u: UniAllocator, tbase: Ptr, tsize: nat)
    requires u.gm.Zeroed() && 0 < tbase && 5000 < tsize < SIZE_LIMIT
    modifies u.gm
    ensures Untouched(u)
  {
    u.InitOrExpand(tbase, tsize);
  }

  /** A request that only top can serve. */
  method AllocFromTop(u: UniAllocator, bytes: nat, ghost nb: nat) returns (mem: Ptr)
    requires u.gm.Valid() && bytes < WORD && RequestSize(bytes) == nb
    requires u.gm.View().binned == map[] && u.gm.View().dvsize < nb < u.gm.View().topsize
    modifies u.gm
    ensures u.gm.Valid() && mem == old(u.gm.View()).top + PAYLOAD_OFFSET && u.gm.View() == TakeTop(old(u.gm.View()), nb)
  {
    NothingTaken(u.gm.bins.binned, u.gm.arena.dvsize, nb);
    var r := u.Alloc(bytes);
    mem := r.mem;
  }

  ghost predicate Refused(v: View, p: Ptr)
  {
    p in v.inUse && v.inUse[p] >= MIN_LARGE_SIZE && Collides(v.binned, v.inUse[p])
  }

  ghost function Rebinned(v: View, p: Ptr): View
    requires p in v.inUse
  {
    v.(inUse := v.inUse - {p}, binned := v.binned[p := v.inUse[p]])
  }

  /** Releasing a chunk between chunks in use. */
  method FreeEnclosed(u: UniAllocator, mem: Ptr) returns (threw: bool)
    requires u.gm.Valid() && Enclosed(u.gm.View().base, u.gm.View().inUse, mem - PAYLOAD_OFFSET)
    modifies u.gm
    ensures threw == Refused(old(u.gm.View()), mem - PAYLOAD_OFFSET)
    ensures !threw ==> u.gm.Valid() && u.gm.View() == Rebinned(old(u.gm.View()), mem - PAYLOAD_OFFSET)
  {
    ghost var h, p := u.gm.arena, mem - PAYLOAD_OFFSET;
    EnclosedFree(h, p);
    Positive(h);
    threw := u.Free(mem);
    if !threw { EnclosedGivesBack(h, u.gm.View(), p); }
  }

  lemma EnclosedFree(h: Arena, p: Ptr)
    requires h.Valid() && Enclosed(h.base, h.InUse(), p)
    ensures p in h.starts && p in h.InUse() && p != h.top && !Misread(h, p)
    ensures p in h.head && Next(h, p) in h.head && FreeThrows(ViewOf(h).binned, h, p) == Refused(ViewOf(h), p)
  {
    EnclosedAround(h, p);
    assert ViewOf(h).binned - {p, Next(h, p)} == ViewOf(h).binned;
  }

  lemma EnclosedGivesBack(h: Arena, v: View, p: Ptr)
    requires h.Valid() && Enclosed(h.base, h.InUse(), p) && GivesBack(h, ViewOf(h), v, p)
    ensures v == Rebinned(ViewOf(h), p)
  {
    EnclosedAround(h, p);
    assert ViewOf(h).binned - {p, Next(h, p)} == ViewOf(h).binned;
  }

  lemma InThirdBin(s: nat)
    requires 768 <= s < 1024
    ensures ComputeTreeIndex(s) == 3
  {
    Pow2Values();
    IndexInBin(s);
    BinUnique(s, ComputeTreeIndex(s), 3);
  }

  lemma SecondSizeCollides(p: Ptr)
    ensures Collides(map[p := 816], 912) && !Collides(map[], 816)
  {
    InThirdBin(816);
    InThirdBin(912);
    var binned := map[p := 816];
    assert p in binned && binned[p] == 816;
  }

  // ---- four chunks at the bottom of the arena ----

  ghost function Four(b: Ptr, s: nat, t: nat): map<Ptr, nat>
  {
    map[b := s][b + s := 32][b + s + 32 := t][b + s + 32 + t := 32]
  }

  ghost function WithFour(v: View, s: nat, t: nat): View
    requires v.topsize >= s + t + 64
  {
    v.(inUse := Four(v.base, s, t), top := v.base + s + t + 64, topsize := v.topsize - s - t - 64)
  }

  /** The first of them lies at the base; the third is enclosed even when the first is gone. */
  lemma FourEnclosed(b: Ptr, s: nat, t: nat)
    requires s > 0 && t > 0
    ensures b in Four(b, s, t) && Four(b, s, t)[b] == s && Enclosed(b, Four(b, s, t), b)
    ensures b + s + 32 in Four(b, s, t) && Four(b, s, t)[b + s + 32] == t && Enclosed(b, Four(b, s, t), b + s + 32)
    ensures Enclosed(b, Four(b, s, t) - {b}, b + s + 32) && Enclosed(b, Four(b, s, t) - {b + s + 32}, b)
  {
    assert EndsAt(Four(b, s, t), b + s, b + s + 32);
    assert EndsAt(Four(b, s, t) - {b}, b + s, b + s + 32);
  }

  /** Chunks of 816, 32, `t` and 32 bytes are handed out, and nothing else is amiss. */
  ghost predicate FourOnly(v: View, t: nat)
  {
    v.inUse == Four(v.base, 816, t) && v.binned == map[] && v.dv == 0 && v.dvsize == 0 && v.topsize > 1000
  }

  lemma FourTaken(v: View, s: nat, t: nat)
    requires v.inUse == map[] && v.top == v.base && 64 + s + t <= v.topsize
    ensures TakeTop(TakeTop(TakeTop(TakeTop(v, s), 32), t), 32) == WithFour(v, s, t)
  {
  }

  /** Requests of 800, 1, `third` and 1 bytes, served from the first region. */
  method FourChunks(u: UniAllocator, tbase: Ptr, tsize: nat, third: nat, ghost t: nat) returns (m: Ptr, n: Ptr)
    requires u.gm.Zeroed() && 0 < tbase && 5000 < tsize < SIZE_LIMIT
    requires third < WORD && RequestSize(third) == t && 0 < t <= 2000
    modifies u.gm
    ensures u.gm.Valid() && m == u.gm.View().base + PAYLOAD_OFFSET && n == m + 848
    ensures FourOnly(u.gm.View(), t)
  {
    FirstRegion(u, tbase, tsize);
    ghost var s := 816;
    FourTaken(u.gm.View(), s, t);
    m := AllocFromTop(u, 800, s);
    var x := AllocFromTop(u, 1, 32);
    n := AllocFromTop(u, third, t);
    x := AllocFromTop(u, 1, 32);
  }

  /** The same, and the first chunk, of 816 bytes, is binned again. */
  ghost predicate FirstBinned(v: View, t: nat)
  {
    v.inUse == Four(v.base, 816, t) - {v.base} && v.binned == map[v.base := 816] && v.dv == 0 && v.dvsize == 0
  }

  lemma FirstRebinned(v: View, t: nat)
    requires FourOnly(v, t) && t > 0
    ensures v.base in v.inUse && Enclosed(v.base, v.inUse, v.base) && !Refused(v, v.base)
    ensures FirstBinned(Rebinned(v, v.base), t)
  {
    FourEnclosed(v.base, 816, t);
    NothingCollides(816);
  }

  lemma ThirdEnclosed(v: View, t: nat)
    requires FirstBinned(v, t) && t > 0
    ensures var p := v.base + 848;
      p in v.inUse && v.inUse[p] == t && Enclosed(v.base, v.inUse, p) &&
        Rebinned(v, p).binned == map[v.base := 816][p := t]
  {
    FourEnclosed(v.base, 816, t);
  }

  method FirstReleased(u: UniAllocator, tbase: Ptr, tsize: nat, third: nat, ghost t: nat) returns (n: Ptr)
    requires u.gm.Zeroed() && 0 < tbase && 5000 < tsize < SIZE_LIMIT
    requires third < WORD && RequestSize(third) == t && 0 < t <= 2000
    modifies u.gm
    ensures u.gm.Valid() && FirstBinned(u.gm.View(), t) && n == u.gm.View().base + 848 + PAYLOAD_OFFSET
  {
    var m;
    m, n := FourChunks(u, tbase, tsize, third, t);
    FirstRebinned(u.gm.View(), t);
    var threw := FreeEnclosed(u, m);
  }

  /** Chunks of 816 and 912 bytes belong to the same tree bin: releasing the second one throws. */
  method FreeMayThrow(u: UniAllocator, tbase: Ptr, tsize: nat) returns (threw: bool)
    requires u.gm.Zeroed() && 0 < tbase && 5000 < tsize < SIZE_LIMIT
    modifies u.gm
    ensures threw
  {
    var n := FirstReleased(u, tbase, tsize, 900, 912);
    ThirdEnclosed(u.gm.View(), 912);
    SecondSizeCollides(u.gm.View().base);
    threw := FreeEnclosed(u, n);
  }

  ghost predicate BothBinned(v: View)
  {
    v.binned == map[v.base := 816][v.base + 848 := 1808] && v.dvsize == 0
  }

  method BothReleased(u: UniAllocator, tbase: Ptr, tsize: nat)
    requires u.gm.Zeroed() && 0 < tbase && 5000 < tsize < SIZE_LIMIT
    modifies u.gm
    ensures u.gm.Valid() && BothBinned(u.gm.View())
  {
    var n := FirstReleased(u, tbase, tsize, 1800, 1808);
    ghost var v := u.gm.View();
    OtherBin(v);
    var threw := FreeEnclosed(u, n);
  }

  /** The remainder of a large request would be the second size in its tree bin: Alloc throws. */
  method AllocMayThrow(u: UniAllocator, tbase: Ptr, tsize: nat) returns (r: Outcome)
    requires u.gm.Zeroed() && 0 < tbase && 5000 < tsize < SIZE_LIMIT
    modifies u.gm
    ensures r.Threw?
  {
    BothReleased(u, tbase, tsize);
    RemainderCollides(u.gm.View());
    r := u.Alloc(880);
  }

  lemma RemainderCollides(v: View)
    requires BothBinned(v)
    ensures AllocCollides(v.binned, v.dvsize, RequestSize(880))
  {
    BestOfTwo(v.base);
    SecondSizeCollides(v.base);
    CollisionFound(v.binned, 0, 896, v.base + 848, 1808);
  }

  /** A third chunk of 1808 bytes goes to another tree bin than the first one. */
  lemma OtherBin(v: View)
    requires FirstBinned(v, 1808)
    ensures var p := v.base + 848;
      p in v.inUse && Enclosed(v.base, v.inUse, p) && !Refused(v, p) && BothBinned(Rebinned(v, p))
  {
    ThirdEnclosed(v, 1808);
    InThirdBin(816);
    InFifthBin(1808);
  }

  lemma BestOfTwo(b: Ptr)
    ensures var binned := map[b := 816][b + 848 := 1808];
      IsBestFit(binned, 896, b + 848, 1808) && binned - {b + 848} == map[b := 816]
  {
  }

  lemma InFifthBin(s: nat)
    requires 1536 <= s < 2048
    ensures ComputeTreeIndex(s) == 5
  {
    Pow2Values();
    IndexInBin(s);
    BinUnique(s, ComputeTreeIndex(s), 5);
  }

  // ---- Free need not undo Alloc ----

  /** The third chunk, of 944 bytes, is the only binned one. */
  ghost predicate ThirdBinned(v: View)
  {
    v.inUse == Four(v.base, 816, 944) - {v.base + 848} && v.binned == map[v.base + 848 := 944] && v.dv == 0 &&
      v.dvsize == 0
  }

  lemma ThirdRebinned(v: View)
    requires FourOnly(v, 944)
    ensures var p := v.base + 848;
      p in v.inUse && Enclosed(v.base, v.inUse, p) && !Refused(v, p) && ThirdBinned(Rebinned(v, p))
  {
    FourEnclosed(v.base, 816, 944);
    NothingCollides(944);
  }

  method ThirdReleased(u: UniAllocator, tbase: Ptr, tsize: nat) returns (m: Ptr)
    requires u.gm.Zeroed() && 0 < tbase && 5000 < tsize < SIZE_LIMIT
    modifies u.gm
    ensures u.gm.Valid() && ThirdBinned(u.gm.View()) && m == u.gm.View().base + PAYLOAD_OFFSET
  {
    var n;
    m, n := FourChunks(u, tbase, tsize, 930, 944);
    ghost var v := u.gm.View();
    ThirdRebinned(v);
    var threw := FreeEnclosed(u, n);
  }

  ghost predicate VictimLeft(v: View)
  {
    v.binned == map[v.base := 816] && v.dvsize == 912
  }

  /** The front of the third chunk has been handed out, the rest is the designated victim. */
  ghost predicate VictimElected(w: View)
  {
    && w.inUse == (Four(w.base, 816, 944) - {w.base + 848})[w.base + 848 := 32]
    && w.binned == map[] && w.dv != 0 && w.dvsize == 912
  }

  lemma FirstJoins(w: View)
    requires VictimElected(w)
    ensures w.base in w.inUse && Enclosed(w.base, w.inUse, w.base) && !Refused(w, w.base)
    ensures VictimLeft(Rebinned(w, w.base))
  {
    NothingCollides(816);
  }

  /** The chunk of 944 bytes serves a small request, so that its remainder of 912 bytes becomes the
      designated victim; then the chunk of 816 bytes is released. */
  method VictimCollides(u: UniAllocator, tbase: Ptr, tsize: nat)
    requires u.gm.Zeroed() && 0 < tbase && 5000 < tsize < SIZE_LIMIT
    modifies u.gm
    ensures u.gm.Valid() && VictimLeft(u.gm.View())
  {
    var m := ThirdReleased(u, tbase, tsize);
    SmallFromTree(u, u.gm.View().base + 848);
    FirstJoins(u.gm.View());
    var threw := FreeEnclosed(u, m);
  }

  lemma NothingCollides(s: nat)
    ensures !Collides(map[], s)
  {
  }

  /** A request of one byte when the third chunk, `c`, is the only binned one. */
  method SmallFromTree(u: UniAllocator, ghost c: Ptr)
    requires u.gm.Valid() && ThirdBinned(u.gm.View()) && c == u.gm.View().base + 848
    modifies u.gm
    ensures u.gm.Valid() && VictimElected(u.gm.View()) && u.gm.View().base == old(u.gm.View()).base
  {
    ghost var v := u.gm.View();
    ThirdServes(v);
    Positive(u.gm.arena);
    var r := u.Alloc(1);
    VictimIs(v, u.gm.View(), r.mem - PAYLOAD_OFFSET);
  }

  lemma ThirdServes(v: View)
    requires ThirdBinned(v)
    ensures RequestSize(1) == 32 && !UniAllocator.OutOfMemory(v, 32) && !AllocCollides(v.binned, v.dvsize, 32)
  {
    assert v.base + 848 in v.binned;
  }

  lemma VictimIs(v: View, v': View, p: Ptr)
    requires ThirdBinned(v) && Chosen(v, 32, p) && v' == Taken(v, 32, p) && v.base > 0
    ensures VictimElected(v') && v'.base == v.base
  {
    var c := v.base + 848;
    assert c in v.binned && map[c := 944] - {c} == map[];
  }

  /** A request of 890 bytes uses up that victim; releasing the memory throws. */
  method RoundTripMayThrow(u: UniAllocator, tbase: Ptr, tsize: nat) returns (r: Outcome, threw: bool)
    requires u.gm.Zeroed() && 0 < tbase && 5000 < tsize < SIZE_LIMIT
    modifies u.gm
    ensures r.Returned? && threw
  {
    VictimCollides(u, tbase, tsize);
    VictimUsedUp(u.gm.View());
    r, threw := RoundTrip(u, 890);
  }

  lemma VictimUsedUp(v: View)
    requires VictimLeft(v)
    ensures OneSizePerBin(v.binned) && RequestSize(890) == 912 && ExhaustsCollidingVictim(v, 912)
    ensures !AllocCollides(v.binned, v.dvsize, 912) && !UniAllocator.OutOfMemory(v, 912)
  {
    SecondSizeCollides(v.base);
    NothingTaken(v.binned, v.dvsize, 912);
    NothingCollides(816);
    OneSizeAdded(map[], v.base, 816);
  }

  // ---- regions whose top cannot be read ----

  /** In every region whose end leaves bit 1 of the top size set, a request of one byte followed by
      its release already leaves two free chunks next to each other. */
  method TopStrays(u: UniAllocator, tbase: Ptr, tsize: nat) returns (threw: bool)
    requires u.gm.Zeroed() && 0 < tbase && 100 < tsize < SIZE_LIMIT && (tbase + tsize) / 2 % 2 == 1
    modifies u.gm
    ensures !threw && !u.gm.Valid() && StrayLeft(u.gm.arena)
  {
    u.InitOrExpand(tbase, tsize);
    FirstReadable(tbase, tsize);
    ghost var h := u.gm.arena;
    var mem := AllocFromTop(u, 1, 32);
    OneBelowTop(h, u.gm.arena);
    threw := u.Free(mem);
  }

  /** Two free chunks and nothing else: one of 32 bytes at the base, and top right behind it. */
  ghost predicate StrayLeft(f: Arena)
  {
    && f.starts == {f.base, f.base + 32} && f.top == f.base + 32
    && f.base in f.head && !f.head[f.base].cinuse && f.head[f.base].size == 32
  }

  lemma OneBelowTop(h: Arena, g: Arena)
    requires h.Valid() && g.Valid() && h.InUse() == map[] && h.top == h.base && Unreadable(ViewOf(h))
    requires h.dvsize == 0 && 32 < h.topsize && ViewOf(g) == TakeTop(ViewOf(h), 32) && ViewOf(h).binned == map[]
    ensures var p := h.base;
      (&& p in g.InUse() && p in g.head && Next(g, p) in g.head && p != g.top && Misread(g, p)
       && !FreeThrows(ViewOf(g).binned, g, p) && Lower(g, p) != g.dv && StrayLeft(Released(g, p)))
  {
    AfterTop(h, g, 32);
    TopLayout(h, g, 32);
    AllFree(h);
    TopAround(h, g);
    TopSplitOk(h, 32);
    Determined(TopSplit(h, 32), g);
    Positive(g);
  }

  // ---- whole runs ----

  /** A client's call: a request, or the release of the `k`-th of the pointers it holds. */
  datatype Call = Malloc(bytes: nat) | Release(k: nat)

  /** What a run has come to: the arena, and the pointers the client holds. */
  datatype Moment = Moment(h: Arena, held: seq<Ptr>)

  /** The call throws. */
  ghost predicate Throws(m: Moment, c: Call)
  {
    match c
    case Malloc(bytes) => AllocCollides(ViewOf(m.h).binned, m.h.dvsize, RequestSize(bytes))
    case Release(k) =>
      k < |m.held| &&
      (var p := m.held[k] - PAYLOAD_OFFSET;
       p in m.h.head && Next(m.h, p) in m.h.head && FreeThrows(ViewOf(m.h).binned, m.h, p))
  }

  /** One call: a chunk is chosen and handed out, or nothing fits and nothing changes, or a chunk is
      given back. */
  ghost predicate Moves(m: Moment, c: Call, m': Moment)
  {
    var v, v' := ViewOf(m.h), ViewOf(m'.h);
    !Throws(m, c) && m'.h.Valid() &&
    match c
    case Malloc(bytes) =>
      if UniAllocator.OutOfMemory(v, RequestSize(bytes)) then v' == v && m'.held == m.held
      else exists p {:trigger Chosen(v, RequestSize(bytes), p)} | Chosen(v, RequestSize(bytes), p) ::
             v' == Taken(v, RequestSize(bytes), p) && m'.held == m.held + [p + PAYLOAD_OFFSET]
    case Release(k) =>
      if k < |m.held| then
        GivesBack(m.h, v, v', m.held[k] - PAYLOAD_OFFSET) && m'.held == m.held[..k] + m.held[k + 1..]
      else v' == v && m'.held == m.held
  }

  /** `trace` is what happens from the first region on, call by call. */
  ghost predicate Follows(trace: seq<Moment>, first: View, calls: seq<Call>)
  {
    && 0 < |trace| <= |calls| + 1
    && trace[0].h.Valid() && ViewOf(trace[0].h) == first && trace[0].held == []
    && forall i {:trigger MovesAt(trace, calls, i)} | 0 <= i < |trace| - 1 :: MovesAt(trace, calls, i)
  }

  ghost predicate MovesAt(trace: seq<Moment>, calls: seq<Call>, i: int)
    requires 0 <= i < |trace| - 1 && i < |calls|
  {
    Moves(trace[i], calls[i], trace[i + 1])
  }

  /** The pointers `held` are those of the chunks in use, each once. */
  ghost predicate Owned(held: seq<Ptr>, inUse: map<Ptr, nat>)
  {
    && (forall m {:trigger m in held} :: m in held <==> m - PAYLOAD_OFFSET in inUse)
    && (forall i, j | 0 <= i < j < |held| :: held[i] != held[j])
  }

  lemma OneMoreOwned(held: seq<Ptr>, inUse: map<Ptr, nat>, m: Ptr, n: nat)
    requires Owned(held, inUse) && m - PAYLOAD_OFFSET !in inUse
    ensures Owned(held + [m], inUse[m - PAYLOAD_OFFSET := n])
  {
    assert m !in held;
  }

  lemma OneLessOwned(held: seq<Ptr>, inUse: map<Ptr, nat>, k: nat)
    requires Owned(held, inUse) && k < |held|
    ensures Owned(held[..k] + held[k + 1..], inUse - {held[k] - PAYLOAD_OFFSET})
  {
    var rest := held[..k] + held[k + 1..];
    forall m ensures m in rest <==> m in held && m != held[k] {
      if m in held && m != held[k] {
        var i :| 0 <= i < |held| && held[i] == m;
        assert rest[if i < k then i else i - 1] == m;
      }
    }
  }

  /** What holds at every moment: the arena is tagged, no tree bin has two sizes, exactly the
      client's pointers are in use, and top can be read. */
  ghost predicate Safe(m: Moment)
  {
    && m.h.Valid() && OneSizePerBin(ViewOf(m.h).binned) && Owned(m.held, m.h.InUse())
    && !Unreadable(ViewOf(m.h))
  }

  lemma MallocSafe(m: Moment, bytes: nat, m': Moment)
    requires Safe(m) && Moves(m, Malloc(bytes), m')
    ensures Safe(m')
  {
    var v, nb := ViewOf(m.h), RequestSize(bytes);
    if !UniAllocator.OutOfMemory(v, nb) {
      var p :| Chosen(v, nb, p) && ViewOf(m'.h) == Taken(v, nb, p) && m'.held == m.held + [p + PAYLOAD_OFFSET];
      ServedSafe(m, nb, p, m');
    }
  }

  lemma ServedSafe(m: Moment, nb: nat, p: Ptr, m': Moment)
    requires Safe(m) && m'.h.Valid() && nb > 0 && Chosen(ViewOf(m.h), nb, p)
    requires !AllocCollides(ViewOf(m.h).binned, m.h.dvsize, nb)
    requires ViewOf(m'.h) == Taken(ViewOf(m.h), nb, p) && m'.held == m.held + [p + PAYLOAD_OFFSET]
    ensures Safe(m')
  {
    TakenServes(m.h, nb, p);
    TakenOneSize(ViewOf(m.h), nb, p);
    OneMoreOwned(m.held, m.h.InUse(), p + PAYLOAD_OFFSET, m'.h.InUse()[p]);
  }

  lemma ReleaseSafe(m: Moment, k: nat, m': Moment)
    requires Safe(m) && Moves(m, Release(k), m')
    ensures Safe(m')
  {
    if k < |m.held| {
      assert m.held[k] in m.held;
      GivesBackOneSize(m.h, m'.h, m.held[k] - PAYLOAD_OFFSET);
      OneLessOwned(m.held, m.h.InUse(), k);
    }
  }

  /** Every moment of every run is safe, if the first region ends where top can be read. */
  lemma {:induction false} RunSafe(trace: seq<Moment>, first: View, calls: seq<Call>, i: nat)
    requires Follows(trace, first, calls) && i < |trace|
    requires first.inUse == map[] && first.binned == map[] && !Unreadable(first)
    ensures Safe(trace[i])
  {
    if i > 0 {
      RunSafe(trace, first, calls, i - 1);
      assert MovesAt(trace, calls, i - 1);
      match calls[i - 1] {
        case Malloc(bytes) => MallocSafe(trace[i - 1], bytes, trace[i]);
        case Release(k) => ReleaseSafe(trace[i - 1], k, trace[i]);
      }
    }
  }

  // ---- the classes make these runs ----

  /** The state of the allocator and the client's pointers at a safe moment of a run. */
  ghost predicate Reached(u: UniAllocator, held: seq<Ptr>)
    reads u.gm
  {
    u.gm.Valid() && Safe(Moment(u.gm.arena, held))
  }

  /** Every trie is then a single node with its ring. */
  lemma ReachedFlat(u: UniAllocator, held: seq<Ptr>, p: Path)
    requires Reached(u, held) && p in u.gm.bins.tree
    ensures p.Root?
  {
    TriesAreFlat(u.gm.bins, p);
  }

  /** If nothing is held any more, the arena is one top chunk again. */
  lemma ReachedEmpty(u: UniAllocator)
    requires Reached(u, [])
    ensures u.gm.arena.starts == {u.gm.arena.base} && u.gm.arena.topsize == u.gm.arena.end - u.gm.arena.base
    ensures u.gm.bins.binned == map[]
  {
    forall p ensures p !in u.gm.arena.InUse() {
      assert p + PAYLOAD_OFFSET !in [];
    }
    assert u.gm.arena.InUse() == map[];
    AllFree(u.gm.arena);
  }

  /** One call on the allocator. */
  method Step(u: UniAllocator, held: seq<Ptr>, c: Call) returns (threw: bool, held': seq<Ptr>)
    requires Reached(u, held) && (c.Malloc? ==> c.bytes < WORD)
    modifies u.gm
    ensures threw == Throws(Moment(old(u.gm.arena), held), c)
    ensures !threw ==> Reached(u, held')
    ensures !threw ==> Moves(Moment(old(u.gm.arena), held), c, Moment(u.gm.arena, held'))
  {
    threw, held' := false, held;
    match c {
      case Malloc(bytes) =>
        threw, held' := StepMalloc(u, held, bytes);
      case Release(k) =>
        if k < |held| {
          threw, held' := StepRelease(u, held, k);
        }
    }
  }

  method StepMalloc(u: UniAllocator, held: seq<Ptr>, bytes: nat) returns (threw: bool, held': seq<Ptr>)
    requires Reached(u, held) && bytes < WORD
    modifies u.gm
    ensures threw == Throws(Moment(old(u.gm.arena), held), Malloc(bytes))
    ensures !threw ==> Reached(u, held')
    ensures !threw ==> Moves(Moment(old(u.gm.arena), held), Malloc(bytes), Moment(u.gm.arena, held'))
  {
    ghost var m := Moment(u.gm.arena, held);
    var r := u.Alloc(bytes);
    threw := r.Threw?;
    held' := if r.Returned? then held + [r.mem] else held;
    if !threw {
      if r.Returned? { FitsSomewhere(m.h, RequestSize(bytes), r.mem - PAYLOAD_OFFSET); }
      MallocSafe(m, bytes, Moment(u.gm.arena, held'));
    }
  }

  /** Memory is not exhausted for a request that is served. */
  lemma FitsSomewhere(h: Arena, nb: nat, p: Ptr)
    requires Serves(ViewOf(h), nb, p)
    ensures !UniAllocator.OutOfMemory(ViewOf(h), nb)
  {
  }

  method StepRelease(u: UniAllocator, held: seq<Ptr>, k: nat) returns (threw: bool, held': seq<Ptr>)
    requires Reached(u, held) && k < |held|
    modifies u.gm
    ensures threw == Throws(Moment(old(u.gm.arena), held), Release(k))
    ensures !threw ==> Reached(u, held')
    ensures !threw ==> Moves(Moment(old(u.gm.arena), held), Release(k), Moment(u.gm.arena, held'))
  {
    ghost var m := Moment(u.gm.arena, held);
    assert held[k] in held;
    Positive(u.gm.arena);
    TopReads(u.gm.arena);
    threw := u.Free(held[k]);
    held' := held[..k] + held[k + 1..];
    if !threw { ReleaseSafe(m, k, Moment(u.gm.arena, held')); }
  }

  /** Any sequence of calls from a zeroed MallocState. It goes as `trace` says, and stops early exactly
      at the first call that throws. A request that does not fit is not served. */
  method Run(u: UniAllocator, tbase: Ptr, tsize: nat, calls: seq<Call>)
    returns (threw: bool, held: seq<Ptr>, ghost trace: seq<Moment>)
    requires u.gm.Zeroed() && UniAllocator.IsRegion((tbase, tsize)) && (tbase + tsize) / 2 % 2 == 0
    requires forall c | c in calls && c.Malloc? :: c.bytes < WORD
    modifies u.gm
    ensures Follows(trace, FirstView(tbase, tsize), calls)
    ensures threw ==> |trace| <= |calls| && Throws(trace[|trace| - 1], calls[|trace| - 1])
    ensures !threw ==> |trace| == |calls| + 1 && trace[|calls|] == Moment(u.gm.arena, held) && Reached(u, held)
  {
    trace := Begin(u, tbase, tsize, calls);
    threw, held := false, [];
    for i := 0 to |calls|
      invariant !threw && |trace| == i + 1 && Now(u, held, trace, FirstView(tbase, tsize), calls)
    {
      threw, held, trace := Advance(u, held, FirstView(tbase, tsize), calls, i, trace);
      if threw {
        return;
      }
    }
  }

  /** The run has got as far as `trace` says. */
  ghost predicate Now(u: UniAllocator, held: seq<Ptr>, trace: seq<Moment>, first: View, calls: seq<Call>)
    reads u.gm
  {
    Reached(u, held) && Follows(trace, first, calls) && trace[|trace| - 1] == Moment(u.gm.arena, held)
  }

  method Begin(u: UniAllocator, tbase: Ptr, tsize: nat, ghost calls: seq<Call>) returns (ghost trace: seq<Moment>)
    requires u.gm.Zeroed() && UniAllocator.IsRegion((tbase, tsize)) && (tbase + tsize) / 2 % 2 == 0
    modifies u.gm
    ensures |trace| == 1 && Now(u, [], trace, FirstView(tbase, tsize), calls)
  {
    u.InitOrExpand(tbase, tsize);
    FirstReadable(tbase, tsize);
    trace := [Moment(u.gm.arena, [])];
  }

  method Advance(u: UniAllocator, held: seq<Ptr>, ghost first: View, calls: seq<Call>, i: nat, ghost trace: seq<Moment>)
    returns (threw: bool, held': seq<Ptr>, ghost trace': seq<Moment>)
    requires Now(u, held, trace, first, calls) && i < |calls| && |trace| == i + 1
    requires forall c | c in calls && c.Malloc? :: c.bytes < WORD
    modifies u.gm
    ensures threw ==> trace' == trace && Throws(trace[i], calls[i])
    ensures !threw ==> |trace'| == i + 2 && Now(u, held', trace', first, calls)
  {
    threw, held' := Step(u, held, calls[i]);
    trace' := trace;
    if !threw {
      FollowsOn(trace, first, calls, Moment(u.gm.arena, held'));
      trace' := trace + [Moment(u.gm.arena, held')];
    }
  }

  lemma FollowsOn(trace: seq<Moment>, first: View, calls: seq<Call>, m: Moment)
    requires Follows(trace, first, calls) && |trace| <= |calls|
    requires Moves(trace[|trace| - 1], calls[|trace| - 1], m)
    ensures Follows(trace + [m], first, calls)
  {
    forall i | 0 <= i < |trace| ensures MovesAt(trace + [m], calls, i) {
      if i < |trace| - 1 { assert MovesAt(trace, calls, i); }
    }
  }
}
