/** The heap seen from outside: which chunks are handed out, which are binned, and where the
    designated victim and top are. Every step of Alloc and Free is a function on such views. */
module HeapViews {
  import opened Rings
  import opened TreeIndex
  import opened Chunks
  import opened Heap
  import opened HeapLaws

  datatype View = View(
    base: Ptr, end: Ptr, inUse: map<Ptr, nat>, binned: map<Ptr, nat>, dv: Ptr, dvsize: nat, top: Ptr, topsize: nat)

  /** The view once the region of `tsize` bytes at `tbase` has been set up: all of it is top. */
  function FirstView(tbase: Ptr, tsize: nat): View
    requires 0 < tbase && AlignOffset(tbase + PAYLOAD_OFFSET) + TOP_FOOT_SIZE < tsize
  {
    var base, end := tbase + AlignOffset(tbase + PAYLOAD_OFFSET), tbase + tsize - TOP_FOOT_SIZE;
    View(base, end, map[], map[], 0, 0, base, end - base)
  }

  /** Whether its top can be read is for the caller to see. */
  lemma FirstReadable(tbase: Ptr, tsize: nat)
    requires 0 < tbase && AlignOffset(tbase + PAYLOAD_OFFSET) + TOP_FOOT_SIZE < tsize
    ensures Unreadable(FirstView(tbase, tsize)) <==> (tbase + tsize) / 2 % 2 == 1
  {
    var s: nat := tbase + tsize;
    ByFour(s, s / 4, s % 4);
    ByFour(s - TOP_FOOT_SIZE, s / 4 - 2, s % 4);
  }

  /** The arena ends where the word of top reads as in use, however large top is. */
  predicate Unreadable(v: View) { v.end / 2 % 2 == 1 }

  /** The view of an arena whose bins agree with it. */
  ghost function ViewOf(h: Arena): View
  {
    View(h.base, h.end, h.InUse(), h.Free() - {h.dv}, h.dv, h.dvsize, h.top, h.topsize)
  }

  /** `binned` with the designated victim among the binned chunks, if there is one. */
  ghost function WithVictim(binned: map<Ptr, nat>, dv: Ptr, dvsize: nat): map<Ptr, nat>
  {
    if dv != 0 then binned[dv := dvsize] else binned
  }

  // ---- the steps of Alloc ----

  /** The binned chunk `p` serves `nb`. The remainder of a small request becomes the designated
      victim and the old one is binned; the remainder of a large request is binned. */
  ghost function TakeBinned(v: View, nb: nat, p: Ptr): View
    requires p in v.binned && nb <= v.binned[p]
  {
    var s := v.binned[p];
    var rest := v.binned - {p};
    if s - nb < MIN_CHUNK_SIZE then
      v.(inUse := v.inUse[p := s], binned := rest)
    else if nb < MIN_LARGE_SIZE then
      v.(inUse := v.inUse[p := nb], binned := WithVictim(rest, v.dv, v.dvsize), dv := p + nb, dvsize := s - nb)
    else
      v.(inUse := v.inUse[p := nb], binned := rest[p + nb := s - nb])
  }

  /** The designated victim serves `nb`: its remainder is the next one. */
  ghost function TakeDv(v: View, nb: nat): View
    requires nb <= v.dvsize
  {
    if v.dvsize - nb < MIN_CHUNK_SIZE then
      v.(inUse := v.inUse[v.dv := v.dvsize], dv := 0, dvsize := 0)
    else
      v.(inUse := v.inUse[v.dv := nb], dv := v.dv + nb, dvsize := v.dvsize - nb)
  }

  ghost function TakeTop(v: View, nb: nat): View
    requires nb <= v.topsize
  {
    v.(inUse := v.inUse[v.top := nb], top := v.top + nb, topsize := v.topsize - nb)
  }

  /** `p` can serve `nb`: it is a binned chunk, the designated victim or top, and large enough. */
  ghost predicate Serves(v: View, nb: nat, p: Ptr)
  {
    if p in v.binned then nb <= v.binned[p]
    else if nb <= v.dvsize then p == v.dv
    else p == v.top && nb < v.topsize
  }

  /** The view after `p` has served `nb`. */
  ghost function Taken(v: View, nb: nat, p: Ptr): View
    requires Serves(v, nb, p)
  {
    if p in v.binned then TakeBinned(v, nb, p)
    else if nb <= v.dvsize then TakeDv(v, nb)
    else TakeTop(v, nb)
  }

  // ---- the step of Free ----

  /** The view after the chunk `p` has been released and coalesced to the extent from `q` to `u`:
      it joins top, or the designated victim, or is binned. */
  ghost function GivenBack(v: View, p: Ptr, q: Ptr, n: Ptr, u: Ptr): View
    requires q <= n && q <= u
  {
    var rest := v.(inUse := v.inUse - {p}, binned := v.binned - {q, n});
    if n == v.top then
      rest.(dv := if q == v.dv then 0 else v.dv, dvsize := if q == v.dv then 0 else v.dvsize,
            top := q, topsize := v.topsize + (n - q))
    else if v.dv != 0 && (q == v.dv || n == v.dv) then
      rest.(dv := q, dvsize := u - q)
    else
      rest.(binned := (v.binned - {q, n})[q := u - q])
  }

  // ---- arenas that differ by one chunk handed out ----

  /** The layout is determined by what is handed out, so a chunk handed out whole leaves the rest. */
  lemma WholeLayout(h: Arena, g: Arena, p: Ptr)
    requires h.Valid() && g.Valid() && p in h.Free() && HandsOut(h, g, p, h.Free()[p])
    ensures g.Free() == h.Free() - {p} && g.top == h.top && g.topsize == h.topsize
  {
    WholeOk(h, p);
    Determined(Whole(h, p), g);
  }

  lemma FrontLayout(h: Arena, g: Arena, p: Ptr, nb: nat)
    requires h.Valid() && g.Valid() && Splittable(h, p, nb) && HandsOut(h, g, p, nb)
    ensures g.Free() == (h.Free() - {p})[p + nb := h.Free()[p] - nb] && g.top == h.top && g.topsize == h.topsize
    ensures p + nb !in h.Free() && p + nb > 0
  {
    SplitOk(h, p, nb);
    FreeFacts(h, p);
    RemainderApart(h, p, nb);
    Determined(Split(h, p, nb), g);
  }

  lemma TopLayout(h: Arena, g: Arena, nb: nat)
    requires h.Valid() && g.Valid() && MIN_CHUNK_SIZE <= nb < h.topsize && nb % CHUNK_ALIGN == 0
    requires HandsOut(h, g, h.top, nb)
    ensures g.Free() == h.Free() && g.top == h.top + nb && g.topsize == h.topsize - nb
  {
    TopSplitOk(h, nb);
    Determined(TopSplit(h, nb), g);
  }

  lemma ReleasedLayout(h: Arena, g: Arena, p: Ptr)
    requires h.Valid() && g.Valid() && p in h.InUse() && TakesBack(h, g, p) && !Misread(h, p)
    ensures p in h.head && Next(h, p) in h.head && g.Free() == FreeAfter(h, p)
    ensures Next(h, p) == h.top ==> g.top == Lower(h, p) && g.topsize == h.topsize + (h.top - Lower(h, p))
    ensures Next(h, p) != h.top ==> g.top == h.top && g.topsize == h.topsize
  {
    ReleasedOk(h, p);
    ReleasedTags(h, p);
    Determined(Released(h, p), g);
  }

  // ---- where the designated victim has to be ----

  /** The victim's size follows from where it is. */
  lemma VictimSize(h: Arena)
    requires h.Valid()
    ensures h.dvsize == if h.dv in h.Free() then h.Free()[h.dv] else 0
    ensures h.dv in h.Free() <==> h.dv != 0
    ensures h.dv != 0 <==> h.dvsize != 0
  {
    DvFacts(h);
    if h.dv in h.Free() { FreeFacts(h, h.dv); }
  }

  /** The victim after a binned chunk `p` of size `s` has served `nb`. */
  function NextVictim(dv: Ptr, nb: nat, p: Ptr, s: nat): Ptr
    requires nb <= s
  {
    if s - nb >= MIN_CHUNK_SIZE && nb < MIN_LARGE_SIZE then p + nb else dv
  }

  lemma BinnedView(h: Arena, g: Arena, nb: nat, p: Ptr)
    requires h.Valid() && g.Valid() && p in h.Free() && p != h.dv
    requires MIN_CHUNK_SIZE <= nb <= h.Free()[p] && nb % CHUNK_ALIGN == 0
    requires HandsOut(h, g, p, HandedOut(h.Free()[p], nb)) && g.dv == NextVictim(h.dv, nb, p, h.Free()[p])
    ensures p in ViewOf(h).binned && ViewOf(g) == TakeBinned(ViewOf(h), nb, p)
  {
    if h.Free()[p] - nb < MIN_CHUNK_SIZE {
      VictimSize(h);
      VictimSize(g);
      WholeLayout(h, g, p);
      assert g.Free() - {g.dv} == h.Free() - {h.dv} - {p};
    } else {
      FrontView(h, g, nb, p);
    }
  }

  lemma FrontView(h: Arena, g: Arena, nb: nat, p: Ptr)
    requires h.Valid() && g.Valid() && p in h.Free() && p != h.dv
    requires MIN_CHUNK_SIZE <= nb && nb + MIN_CHUNK_SIZE <= h.Free()[p] && nb % CHUNK_ALIGN == 0
    requires HandsOut(h, g, p, nb) && g.dv == NextVictim(h.dv, nb, p, h.Free()[p])
    ensures p in ViewOf(h).binned && ViewOf(g) == TakeBinned(ViewOf(h), nb, p)
  {
    VictimSize(h);
    VictimSize(g);
    FreeFacts(h, p);
    FrontLayout(h, g, p, nb);
    if nb < MIN_LARGE_SIZE {
      assert g.Free() - {p + nb} == WithVictim(h.Free() - {h.dv} - {p}, h.dv, h.dvsize);
    } else {
      assert g.Free() - {h.dv} == (h.Free() - {h.dv} - {p})[p + nb := h.Free()[p] - nb];
    }
  }

  lemma DvView(h: Arena, g: Arena, nb: nat)
    requires h.Valid() && g.Valid() && MIN_CHUNK_SIZE <= nb <= h.dvsize && nb % CHUNK_ALIGN == 0
    requires HandsOut(h, g, h.dv, HandedOut(h.dvsize, nb))
    requires g.dv == if h.dvsize - nb < MIN_CHUNK_SIZE then 0 else h.dv + nb
    ensures ViewOf(g) == TakeDv(ViewOf(h), nb)
  {
    VictimSize(h);
    VictimSize(g);
    if h.dvsize - nb < MIN_CHUNK_SIZE {
      WholeLayout(h, g, h.dv);
      Positive(h);
      assert g.Free() - {0} == h.Free() - {h.dv};
    } else {
      FreeFacts(h, h.dv);
      FrontLayout(h, g, h.dv, nb);
      assert g.Free() - {h.dv + nb} == h.Free() - {h.dv};
    }
  }

  lemma TopView(h: Arena, g: Arena, nb: nat)
    requires h.Valid() && g.Valid() && MIN_CHUNK_SIZE <= nb < h.topsize && nb % CHUNK_ALIGN == 0
    requires HandsOut(h, g, h.top, nb) && g.dv == h.dv
    ensures ViewOf(g) == TakeTop(ViewOf(h), nb)
  {
    VictimSize(h);
    VictimSize(g);
    TopLayout(h, g, nb);
  }

  /** Where the victim is once `p` has been released. */
  ghost function VictimAfterFree(h: Arena, p: Ptr): Ptr
    requires p in h.head
  {
    if h.dv == 0 || (Lower(h, p) != h.dv && Next(h, p) != h.dv) then h.dv
    else if Next(h, p) == h.top then 0
    else Lower(h, p)
  }

  lemma FreeView(h: Arena, g: Arena, p: Ptr)
    requires h.Valid() && g.Valid() && p in h.InUse() && TakesBack(h, g, p) && !Misread(h, p)
    requires p in h.head && Next(h, p) in h.head && g.dv == VictimAfterFree(h, p)
    ensures Lower(h, p) <= Next(h, p) && Lower(h, p) <= Upper(h, p)
    ensures ViewOf(g) == GivenBack(ViewOf(h), p, Lower(h, p), Next(h, p), Upper(h, p))
  {
    Around(h, p);
    VictimSize(h);
    VictimSize(g);
    ReleasedTags(h, p);
    ReleasedLayout(h, g, p);
    if Next(h, p) == h.top {
      TopGrows(h, g, p);
    } else {
      BinsAfterFree(h, g, p);
    }
  }

  lemma TopGrows(h: Arena, g: Arena, p: Ptr)
    requires h.Valid() && p in h.InUse() && p in h.head && Next(h, p) == h.top && h.top in h.head
    requires g.Free() == FreeAfter(h, p) && g.dv == VictimAfterFree(h, p)
    ensures g.Free() - {g.dv} == h.Free() - {h.dv} - {Lower(h, p), Next(h, p)}
  {
    Around(h, p);
    Positive(h);
    DvFacts(h);
  }

  lemma BinsAfterFree(h: Arena, g: Arena, p: Ptr)
    requires h.Valid() && p in h.InUse() && p in h.head && Next(h, p) in h.head && Next(h, p) != h.top
    requires g.Free() == FreeAfter(h, p) && g.dv == VictimAfterFree(h, p)
    ensures var q, n := Lower(h, p), Next(h, p);
      Upper(h, p) >= q && g.Free() - {g.dv} == if h.dv != 0 && (q == h.dv || n == h.dv) then h.Free() - {h.dv} - {q, n}
        else (h.Free() - {h.dv} - {q, n})[q := Upper(h, p) - q]
  {
    Around(h, p);
    Positive(h);
  }
}
