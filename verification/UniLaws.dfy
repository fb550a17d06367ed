/** When Free throws, and what happens to memory that is handed out and released again. */
module UniLaws {
  import opened Rings
  import opened TreeIndex
  import opened Chunks
  import opened BinIndex
  import opened TreeSearch
  import opened SmallSearch
  import opened Heap
  import opened HeapLaws
  import opened HeapViews
  import opened Collisions

  /** The chunk that results from releasing `p` is filed in a bin, unless it joins the designated
      victim or a top that reads as free. */
  ghost predicate Refiled(h: Arena, p: Ptr)
    requires p in h.head
  {
    (Next(h, p) != h.top || Misread(h, p)) && (h.dv == 0 || (Lower(h, p) != h.dv && Next(h, p) != h.dv))
  }

  /** Releasing `p` throws exactly when its tree bin refuses the coalesced size. */
  ghost predicate FreeThrows(binned: map<Ptr, nat>, h: Arena, p: Ptr)
    requires p in h.head && Next(h, p) in h.head
  {
    && Refiled(h, p) && Upper(h, p) - Lower(h, p) >= MIN_LARGE_SIZE
    && Collides(binned - {Lower(h, p), Next(h, p)}, Upper(h, p) - Lower(h, p))
  }

  /** `v'` is what `v`, the view of `h`, becomes when `p` is released and coalesced with its free
      neighbours. */
  ghost predicate GivesBack(h: Arena, v: View, v': View, p: Ptr)
  {
    && p in h.head && Next(h, p) in h.head && Lower(h, p) <= Next(h, p) && Lower(h, p) <= Upper(h, p)
    && v' == GivenBack(v, p, Lower(h, p), Next(h, p), Upper(h, p))
  }

  // ---- one size per bin, step by step ----

  /** Alloc keeps one size per tree bin. */
  lemma TakenOneSize(v: View, nb: nat, p: Ptr)
    requires Serves(v, nb, p) && OneSizePerBin(v.binned) && !AllocCollides(v.binned, v.dvsize, nb)
    requires p in v.binned ==> IsBestFit(v.binned, nb, p, v.binned[p])
    requires p in v.binned && nb <= v.dvsize ==> v.binned[p] == nb || (nb >= MIN_LARGE_SIZE && v.binned[p] < v.dvsize)
    ensures OneSizePerBin(Taken(v, nb, p).binned)
  {
    if p in v.binned {
      var rest, r := v.binned - {p}, v.binned[p] - nb;
      OneSizeRemoved(v.binned, {p});
      if nb >= MIN_LARGE_SIZE {
        OneSizeAdded(rest, p + nb, r);
      } else if r >= MIN_CHUNK_SIZE {
        OneSizeAdded(rest, v.dv, v.dvsize);
      }
    }
  }

  /** Free keeps one size per tree bin. */
  lemma GivenBackOneSize(v: View, p: Ptr, q: Ptr, n: Ptr, u: Ptr)
    requires q <= n && q <= u && OneSizePerBin(v.binned)
    requires n != v.top && (v.dv == 0 || (q != v.dv && n != v.dv)) && u - q >= MIN_LARGE_SIZE ==>
      !Collides(v.binned - {q, n}, u - q)
    ensures OneSizePerBin(GivenBack(v, p, q, n, u).binned)
  {
    OneSizeRemoved(v.binned, {q, n});
    if n != v.top && (v.dv == 0 || (q != v.dv && n != v.dv)) {
      OneSizeAdded(v.binned - {q, n}, q, u - q);
    }
  }

  lemma GivesBackOneSize(h: Arena, g: Arena, p: Ptr)
    requires h.Valid() && GivesBack(h, ViewOf(h), ViewOf(g), p) && p in h.InUse() && OneSizePerBin(ViewOf(h).binned)
    requires !FreeThrows(ViewOf(h).binned, h, p)
    ensures OneSizePerBin(ViewOf(g).binned)
  {
    GivenBackOneSize(ViewOf(h), p, Lower(h, p), Next(h, p), Upper(h, p));
  }

  // ---- the steps spelled out ----

  /** A binned chunk serves a small request. */
  lemma SmallTaken(v: View, nb: nat, p: Ptr)
    requires Serves(v, nb, p) && p in v.binned && nb <= 240
    ensures var s, w := v.binned[p], Taken(v, nb, p);
      if s - nb >= 32 then
        && w.inUse == v.inUse[p := nb] && w.dv == p + nb && w.dvsize == s - nb
        && (v.dv != 0 && v.dv != p ==> w.binned == (v.binned - {p})[v.dv := v.dvsize])
        && (v.dv == 0 ==> w.binned == v.binned - {p})
      else w.inUse == v.inUse[p := s] && w.binned == v.binned - {p} && w.dv == v.dv && w.dvsize == v.dvsize
    ensures Taken(v, nb, p).top == v.top && Taken(v, nb, p).topsize == v.topsize
  {
  }

  /** A binned chunk serves a large request: a remainder of 32 bytes or more is binned. */
  lemma LargeTaken(v: View, nb: nat, p: Ptr)
    requires Serves(v, nb, p) && p in v.binned && nb >= 256
    ensures var s, w := v.binned[p], Taken(v, nb, p);
      if s - nb >= 32 then w.inUse == v.inUse[p := nb] && w.binned == (v.binned - {p})[p + nb := s - nb]
      else w.inUse == v.inUse[p := s] && w.binned == v.binned - {p}
    ensures var w := Taken(v, nb, p); w.dv == v.dv && w.dvsize == v.dvsize && w.top == v.top && w.topsize == v.topsize
  {
  }

  /** The designated victim or top serves a request. */
  lemma DvOrTopTaken(v: View, nb: nat, p: Ptr)
    requires Serves(v, nb, p) && p !in v.binned
    ensures Taken(v, nb, p).binned == v.binned
    ensures nb <= v.dvsize ==> p == v.dv && Taken(v, nb, p).top == v.top && Taken(v, nb, p).topsize == v.topsize
    ensures nb <= v.dvsize && v.dvsize - nb >= 32 ==> var w := Taken(v, nb, p);
      w.inUse == v.inUse[p := nb] && w.dv == p + nb && w.dvsize == v.dvsize - nb
    ensures nb <= v.dvsize && v.dvsize - nb < 32 ==> var w := Taken(v, nb, p);
      w.inUse == v.inUse[p := v.dvsize] && w.dv == 0 && w.dvsize == 0
    ensures v.dvsize < nb ==> var w := Taken(v, nb, p);
      (&& p == v.top && w.inUse == v.inUse[p := nb] && w.top == p + nb && w.topsize == v.topsize - nb
       && w.dv == v.dv && w.dvsize == v.dvsize)
  {
  }

  /** Where a small request is served: by a chunk of its size; failing that by the designated victim;
      failing that by a least binned chunk that fits; failing that by top. */
  lemma SmallChoice(v: View, nb: nat, p: Ptr)
    requires Chosen(v, nb, p) && nb <= 240
    ensures (exists e :: e in v.binned && v.binned[e] == nb) ==> p in v.binned && v.binned[p] == nb
    ensures (forall e | e in v.binned :: v.binned[e] != nb) && nb <= v.dvsize ==> p !in v.binned && p == v.dv
    ensures v.dvsize < nb && (exists e :: e in v.binned && v.binned[e] >= nb) ==> p in v.binned && v.binned[p] >= nb
    ensures forall e | p in v.binned && e in v.binned && v.binned[e] >= nb :: v.binned[p] <= v.binned[e]
    ensures v.dvsize < nb && (forall e | e in v.binned :: v.binned[e] < nb) ==> p == v.top && nb < v.topsize
  {
    if exists e :: e in v.binned && v.binned[e] == nb {
      var e :| e in v.binned && v.binned[e] == nb;
      assert HasSize(v.binned, nb);
    }
  }

  /** Where a large request is served: by a least binned chunk that fits and is smaller than a
      designated victim that would do; failing that by that victim; failing that by top. */
  lemma LargeChoice(v: View, nb: nat, p: Ptr)
    requires Chosen(v, nb, p) && nb >= 256
    ensures nb <= v.dvsize && (exists e :: e in v.binned && nb <= v.binned[e] < v.dvsize) ==> p in v.binned
    ensures nb <= v.dvsize && (forall e | e in v.binned && nb <= v.binned[e] :: v.dvsize <= v.binned[e]) ==>
      p !in v.binned && p == v.dv
    ensures v.dvsize < nb && (exists e :: e in v.binned && v.binned[e] >= nb) ==> p in v.binned && v.binned[p] >= nb
    ensures forall e | p in v.binned && e in v.binned && v.binned[e] >= nb :: v.binned[p] <= v.binned[e]
    ensures v.dvsize < nb && (forall e | e in v.binned :: v.binned[e] < nb) ==> p == v.top && nb < v.topsize
  {
  }

  /** What a release leaves where top can be read, with `q` the start of the coalesced chunk: top, the
      designated victim, or a binned chunk. */
  lemma BackGiven(h: Arena, v': View, p: Ptr)
    requires h.Valid() && p in h.InUse() && !Misread(h, p) && GivesBack(h, ViewOf(h), v', p)
    ensures v'.inUse == h.InUse() - {p}
    ensures var q, n := Lower(h, p), p + h.InUse()[p];
      if n == h.top then
        v'.top == q && v'.topsize == h.topsize + (n - q) && (q == h.dv ==> v'.dv == 0 && v'.dvsize == 0)
      else v'.top == h.top && v'.topsize == h.topsize
    ensures var q, n := Lower(h, p), p + h.InUse()[p];
      h.dv != 0 && n == h.dv ==> v'.dv == q && v'.dvsize == h.dvsize + (n - q)
    ensures var q, n := Lower(h, p), p + h.InUse()[p];
      h.dv != 0 && q == h.dv && n != h.top ==>
        v'.dv == q && v'.dvsize == (n - q) + if n in h.Free() then h.Free()[n] else 0
    ensures var q, n := Lower(h, p), p + h.InUse()[p];
      n != h.top && (h.dv == 0 || (q != h.dv && n != h.dv)) ==>
        && v'.dv == h.dv && v'.dvsize == h.dvsize
        && q in v'.binned && v'.binned[q] == (n - q) + if n in h.Free() then h.Free()[n] else 0
    ensures p + h.InUse()[p] !in v'.binned
  {
    Around(h, p);
    ReleasedTags(h, p);
    DvFacts(h);
    NotInUse(h);
  }

  // ---- the neighbours of a chunk just handed out ----

  /** Nothing free lies before a chunk that was free. */
  lemma NothingBefore(h: Arena, g: Arena, p: Ptr)
    requires h.Valid() && g.Valid() && p in h.Free() && p in g.InUse()
    requires forall e | e in g.Free() && e < p :: e in h.Free() && h.Free()[e] == g.Free()[e]
    ensures p in g.head && Lower(g, p) == p
  {
    ReleasedTags(g, p);
    FreeFacts(h, p);
    var q := Lower(g, p);
    if q in h.Free() && h.Free()[q] == p - q {
      FreeFacts(h, q);
      TagsTell(h, q);
    }
  }

  /** `p`, free in `h`, has been handed out whole. */
  lemma WholeAround(h: Arena, g: Arena, p: Ptr)
    requires h.Valid() && g.Valid() && p in h.Free() && HandsOut(h, g, p, h.Free()[p])
    ensures p in g.head && Next(g, p) == p + h.Free()[p] && Next(g, p) in g.head && Lower(g, p) == p
    ensures Upper(g, p) == Next(g, p)
    ensures Next(g, p) != g.top && Next(g, p) !in g.Free() && Next(g, p) !in h.Free()
  {
    WholeLayout(h, g, p);
    assert p in g.InUse() && g.InUse()[p] == h.Free()[p];
    NothingBefore(h, g, p);
    FreeFacts(h, p);
    TagsTell(h, p);
    assert p + h.Free()[p] in g.InUse();
    ReleasedTags(g, p);
    NotInUse(h);
  }

  /** The front of `p`, free in `h`, has been handed out. */
  lemma FrontAround(h: Arena, g: Arena, p: Ptr, nb: nat)
    requires h.Valid() && g.Valid() && Splittable(h, p, nb) && HandsOut(h, g, p, nb)
    ensures p in g.head && Next(g, p) == p + nb && Next(g, p) in g.head && Lower(g, p) == p
    ensures Upper(g, p) == p + h.Free()[p]
    ensures Next(g, p) != g.top && Next(g, p) in g.Free() && Next(g, p) !in h.Free()
  {
    FrontLayout(h, g, p, nb);
    assert p in g.InUse() && g.InUse()[p] == nb;
    NothingBefore(h, g, p);
    ReleasedTags(g, p);
    FreeFacts(g, p + nb);
  }

  /** A chunk between two chunks in use, or at the base of the arena and followed by one. */
  ghost predicate Enclosed(base: Ptr, inUse: map<Ptr, nat>, p: Ptr)
  {
    && p in inUse && p + inUse[p] in inUse
    && (p == base || exists a {:trigger EndsAt(inUse, a, p)} :: EndsAt(inUse, a, p))
  }

  ghost predicate EndsAt(inUse: map<Ptr, nat>, a: Ptr, p: Ptr)
  {
    a in inUse && a + inUse[a] == p
  }

  /** Releasing it coalesces with nothing. */
  lemma EnclosedAround(h: Arena, p: Ptr)
    requires h.Valid() && Enclosed(h.base, h.InUse(), p)
    ensures p in h.head && h.head[p].size == h.InUse()[p] && Next(h, p) in h.head && Lower(h, p) == p
    ensures Upper(h, p) == Next(h, p)
    ensures Next(h, p) != h.top && Next(h, p) !in h.Free() && p !in h.Free() && Refiled(h, p)
  {
    ReleasedTags(h, p);
    DvFacts(h);
    NotInUse(h);
    if p == h.base {
      Facts(h, p);
    } else {
      var a :| EndsAt(h.InUse(), a, p);
      Facts(h, a);
      TagsTell(h, a);
    }
  }

  // ---- Alloc followed by Free ----

  /** Where `nb` bytes come from. A binned chunk is always a best fit among the binned chunks and,
      if the designated victim would do, exact (small request) or strictly better (large one).
      Top is split only if neither a binned chunk nor the designated victim fits. */
  ghost predicate Chosen(v: View, nb: nat, p: Ptr)
  {
    && Serves(v, nb, p)
    && if p in v.binned then
         && IsBestFit(v.binned, nb, p, v.binned[p])
         && (nb <= v.dvsize ==> if nb < MIN_LARGE_SIZE then v.binned[p] == nb else v.binned[p] < v.dvsize)
       else if nb <= v.dvsize then
         if nb < MIN_LARGE_SIZE then !HasSize(v.binned, nb) else DvAsGood(v.binned, nb, v.dvsize)
       else
         NoneFits(v.binned, nb)
  }

  /** The chunk `p` is new among the chunks handed out, and only it; its size is that of the
      padded request or less than a minimal chunk more. */
  ghost predicate Served(v: View, v': View, nb: nat, p: Ptr)
  {
    && p !in v.inUse && p in v'.inUse && nb <= v'.inUse[p] < nb + MIN_CHUNK_SIZE
    && v'.inUse == v.inUse[p := v'.inUse[p]] && v'.base == v.base && v'.end == v.end
  }

  /** Whatever is served is far below the bound for requests. */
  lemma ServedBelowLimit(h: Arena, nb: nat, p: Ptr)
    requires h.Valid() && Serves(ViewOf(h), nb, p)
    ensures nb < SIZE_LIMIT
  {
    NotInUse(h);
    if p in h.Free() { FreeFacts(h, p); }
  }

  lemma TakenServes(h: Arena, nb: nat, p: Ptr)
    requires h.Valid() && nb > 0 && Serves(ViewOf(h), nb, p)
    ensures Served(ViewOf(h), Taken(ViewOf(h), nb, p), nb, p)
  {
    NotInUse(h);
    VictimSize(h);
  }

  /** Of the chunk `p` that has just served `nb`, the tree bin it would now go to refuses it. A chunk
      from top goes to a bin only if top cannot be read. */
  ghost predicate ReturnCollides(v: View, nb: nat, p: Ptr)
    requires Serves(v, nb, p)
  {
    if p in v.binned then
      var s := v.binned[p];
      s >= MIN_LARGE_SIZE && (s - nb < MIN_CHUNK_SIZE || nb >= MIN_LARGE_SIZE) && Collides(v.binned - {p}, s)
    else if nb <= v.dvsize then
      v.dvsize - nb < MIN_CHUNK_SIZE && v.dvsize >= MIN_LARGE_SIZE && Collides(v.binned, v.dvsize)
    else
      Unreadable(v) && nb >= MIN_LARGE_SIZE && Collides(v.binned, nb)
  }

  lemma AfterBinned(h: Arena, g: Arena, nb: nat, p: Ptr)
    requires h.Valid() && g.Valid() && p in h.Free() && p != h.dv
    requires MIN_CHUNK_SIZE <= nb <= h.Free()[p] && nb % CHUNK_ALIGN == 0
    requires ViewOf(g) == TakeBinned(ViewOf(h), nb, p)
    ensures p in g.head && Next(g, p) in g.head && p in g.InUse()
    ensures !Misread(g, p)
    ensures FreeThrows(ViewOf(g).binned, g, p) <==> ReturnCollides(ViewOf(h), nb, p)
  {
    if h.Free()[p] - nb < MIN_CHUNK_SIZE {
      VictimSize(h);
      VictimSize(g);
      WholeAround(h, g, p);
      assert ViewOf(h).binned - {p} - {p, Next(g, p)} == ViewOf(h).binned - {p};
    } else {
      AfterFront(h, g, nb, p);
    }
  }

  lemma AfterFront(h: Arena, g: Arena, nb: nat, p: Ptr)
    requires h.Valid() && g.Valid() && p in h.Free() && p != h.dv
    requires MIN_CHUNK_SIZE <= nb && nb + MIN_CHUNK_SIZE <= h.Free()[p] && nb % CHUNK_ALIGN == 0
    requires ViewOf(g) == TakeBinned(ViewOf(h), nb, p)
    ensures p in g.head && Next(g, p) in g.head && p in g.InUse()
    ensures !Misread(g, p)
    ensures FreeThrows(ViewOf(g).binned, g, p) <==> ReturnCollides(ViewOf(h), nb, p)
  {
    var s, b := h.Free()[p], ViewOf(h).binned;
    VictimSize(h);
    VictimSize(g);
    FreeFacts(h, p);
    FrontAround(h, g, p, nb);
    if nb >= MIN_LARGE_SIZE {
      assert (b - {p})[p + nb := s - nb] - {p, p + nb} == b - {p};
    }
  }

  lemma AfterDv(h: Arena, g: Arena, nb: nat)
    requires h.Valid() && g.Valid()
    requires MIN_CHUNK_SIZE <= nb <= h.dvsize && nb % CHUNK_ALIGN == 0
    requires ViewOf(g) == TakeDv(ViewOf(h), nb)
    ensures h.dv in g.head && Next(g, h.dv) in g.head && h.dv in g.InUse()
    ensures !Misread(g, h.dv)
    ensures FreeThrows(ViewOf(g).binned, g, h.dv) <==> ReturnCollides(ViewOf(h), nb, h.dv)
  {
    var b := ViewOf(h).binned;
    VictimSize(h);
    VictimSize(g);
    FreeFacts(h, h.dv);
    if h.dvsize - nb < MIN_CHUNK_SIZE {
      WholeAround(h, g, h.dv);
      assert b - {h.dv, Next(g, h.dv)} == b;
    } else {
      FrontAround(h, g, h.dv, nb);
    }
  }

  lemma AfterTop(h: Arena, g: Arena, nb: nat)
    requires h.Valid() && g.Valid() && h.dvsize < nb
    requires MIN_CHUNK_SIZE <= nb < h.topsize && nb % CHUNK_ALIGN == 0
    requires ViewOf(g) == TakeTop(ViewOf(h), nb)
    ensures h.top in g.head && Next(g, h.top) == g.top && g.top in g.head && h.top in g.InUse()
    ensures Misread(g, h.top) <==> Unreadable(ViewOf(h))
    ensures FreeThrows(ViewOf(g).binned, g, h.top)
       <==> Unreadable(ViewOf(h)) && nb >= MIN_LARGE_SIZE && Collides(ViewOf(h).binned, nb)
  {
    assert h.top in g.InUse() && g.InUse()[h.top] == nb;
    TopReads(g);
    TopLayout(h, g, nb);
    TopAround(h, g);
    assert ViewOf(g).binned - {h.top, g.top} == ViewOf(h).binned;
  }

  /** Nothing free lies before what was top. */
  lemma TopAround(h: Arena, g: Arena)
    requires h.Valid() && g.Valid() && h.top in g.InUse() && g.Free() == h.Free() && g.dv == h.dv
    requires g.top == h.top + g.InUse()[h.top]
    ensures h.top in g.head && Next(g, h.top) == g.top && Lower(g, h.top) == h.top
    ensures g.top !in g.Free() && h.top !in g.Free() && (h.dv != 0 ==> h.dv in h.Free())
  {
    ReleasedTags(g, h.top);
    VictimSize(h);
    var q := Lower(g, h.top);
    if q in h.Free() && h.Free()[q] == h.top - q {
      FreeFacts(h, q);
      NotBelowTop(h, q);
    }
  }

  /** `nb` is served by `p` because it is top, and top cannot be read. */
  ghost predicate BelowUnreadable(v: View, nb: nat, p: Ptr)
  {
    Unreadable(v) && p !in v.binned && v.dvsize < nb
  }

  /** Releasing what Alloc has just handed out throws exactly in these cases. */
  lemma ThrowsAfterAlloc(h: Arena, g: Arena, nb: nat, p: Ptr)
    requires h.Valid() && g.Valid()
    requires MIN_CHUNK_SIZE <= nb && nb % CHUNK_ALIGN == 0
    requires Serves(ViewOf(h), nb, p) && ViewOf(g) == Taken(ViewOf(h), nb, p)
    ensures p in g.head && Next(g, p) in g.head && p in g.InUse()
    ensures FreeThrows(ViewOf(g).binned, g, p) == ReturnCollides(ViewOf(h), nb, p)
    ensures Misread(g, p) == BelowUnreadable(ViewOf(h), nb, p)
  {
    if p in ViewOf(h).binned {
      AfterBinned(h, g, nb, p);
    } else if nb <= h.dvsize {
      AfterDv(h, g, nb);
    } else {
      AfterTop(h, g, nb);
    }
  }

  /** The designated victim is used up by `nb`, and its size is a second one in its tree bin. */
  ghost predicate ExhaustsCollidingVictim(v: View, nb: nat)
  {
    && nb <= v.dvsize < nb + MIN_CHUNK_SIZE && v.dvsize >= MIN_LARGE_SIZE && Collides(v.binned, v.dvsize)
    && if nb < MIN_LARGE_SIZE then !HasSize(v.binned, nb) else DvAsGood(v.binned, nb, v.dvsize)
  }

  /** The request is served from a top that cannot be read, and its size is a second one in its bin. */
  ghost predicate CollidesBelowTop(v: View, nb: nat)
  {
    && Unreadable(v) && nb >= MIN_LARGE_SIZE && Collides(v.binned, nb)
    && v.dvsize < nb < v.topsize && NoneFits(v.binned, nb)
  }

  /** Alloc undone by Free: with one size per tree bin, as in every reachable state, this throws
      exactly if Alloc uses up a designated victim whose size its tree bin refuses, or splits a top
      that cannot be read and the tree bin refuses the size. */
  lemma ReturnThrowsIff(v: View, nb: nat, p: Ptr)
    requires Chosen(v, nb, p) && OneSizePerBin(v.binned)
    ensures ReturnCollides(v, nb, p) <==> ExhaustsCollidingVictim(v, nb) || CollidesBelowTop(v, nb)
  {
    if p in v.binned && v.binned[p] >= MIN_LARGE_SIZE {
      OwnSizeFits(v.binned, p);
    }
  }
}
