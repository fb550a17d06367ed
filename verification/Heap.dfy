/** The arena as a row of chunks with boundary tags, and what each way of taking or
    releasing a chunk does to it. */
module Heap {
  import opened Rings
  import opened TreeIndex
  import opened Chunks

  /** Header fields by chunk address, the top chunk and the designated victim.
      `starts` lists the chunks the arena currently consists of. */
  datatype Arena = Arena(
    base: Ptr, end: Ptr, top: Ptr, topsize: nat, dv: Ptr, dvsize: nat,
    head: map<Ptr, Head>, foot: map<Ptr, nat>, ghost starts: set<Ptr>)
  {
    // ---- setters of chunk.h and MallocState ----

    function SetFreeChunk(p: Ptr, s: nat): Arena
    {
      this.(head := head[p := Head(s, false, true)], foot := foot[p + s := s])
    }

    function SetInuseChunk(p: Ptr, s: nat): Arena
    {
      this.(head := head[p := Head(s, true, true)])
    }

    function SetPinuse(p: Ptr, b: bool): Arena
      requires p in head
    {
      this.(head := head[p := head[p].(pinuse := b)])
    }

    function SetFreeWithPinuse(p: Ptr, s: nat, next: Ptr): Arena
      requires next in head
    {
      SetPinuse(next, false).SetFreeChunk(p, s)
    }

    function SetInuseAndPinuse(p: Ptr, s: nat): Arena
      requires p + s in head && s > 0
    {
      SetInuseChunk(p, s).SetPinuse(p + s, true)
    }

    // ---- the invariant ----

    ghost predicate PrevOk(a: Ptr)
    {
      && a in foot && a - foot[a] in starts && a - foot[a] != top && a - foot[a] in head
      && head[a - foot[a]].size == foot[a] && !head[a - foot[a]].cinuse
    }

    ghost predicate NextOk(a: Ptr)
      requires a in head
    {
      var n := a + head[a].size;
      && n in starts && n in head
      && head[n].pinuse == head[a].cinuse
      && (!head[a].cinuse ==> head[a].pinuse && n in foot && foot[n] == head[a].size && n != top && head[n].cinuse)
    }

    ghost predicate ChunkOk(a: Ptr)
    {
      && a in head && base <= a <= top && a % CHUNK_ALIGN == 0
      && (a == base ==> head[a].pinuse)
      && (!head[a].pinuse ==> PrevOk(a))
      && (a != top ==> MIN_CHUNK_SIZE <= head[a].size && head[a].size % CHUNK_ALIGN == 0 && NextOk(a))
    }

    ghost predicate Apart(a: Ptr, b: Ptr)
    {
      a in head && (a < b ==> a + head[a].size <= b)
    }

    ghost predicate DvOk()
    {
      && (dv == 0 <==> dvsize == 0)
      && (dv != 0 ==> dv in starts && dv != top && dv in head && !head[dv].cinuse && head[dv].size == dvsize)
    }

    ghost predicate TopOk()
    {
      && 0 < base && base in starts && top in starts && top + topsize == end && end - base < SIZE_LIMIT
      && 0 < topsize && top in head && head[top] == TopHead(topsize)
    }

    /** Chunks tile the arena, tags agree with the in-use bits, and free chunks never touch. */
    ghost predicate Tagged()
    {
      && TopOk()
      && (forall a {:trigger ChunkOk(a)} | a in starts :: ChunkOk(a))
      && (forall a, b {:trigger Apart(a, b)} | a in starts && b in starts :: Apart(a, b))
    }

    ghost predicate Valid()
    {
      Tagged() && DvOk()
    }

    ghost function UsedSize(a: Ptr): nat
    {
      if a in starts && a != top && a in head && head[a].cinuse then head[a].size else 0
    }

    ghost function FreeSize(a: Ptr): nat
    {
      if a in starts && a != top && a in head && !head[a].cinuse then head[a].size else 0
    }

    /** The chunks handed out, with their sizes. */
    ghost function InUse(): map<Ptr, nat>
    {
      map a | a in starts && a != top && a in head && head[a].cinuse :: UsedSize(a)
    }

    /** The free chunks other than top, with their sizes. */
    ghost function Free(): map<Ptr, nat>
    {
      map a | a in starts && a != top && a in head && !head[a].cinuse :: FreeSize(a)
    }
  }

  /** Of the two arenas the second has the chunk `p` of size `n` handed out in addition. */
  ghost predicate HandsOut(before: Arena, after: Arena, p: Ptr, n: nat)
  {
    after.base == before.base && after.end == before.end && after.InUse() == before.InUse()[p := n]
  }

  /** Of the two arenas the second no longer has the chunk `p` handed out. */
  ghost predicate TakesBack(before: Arena, after: Arena, p: Ptr)
  {
    after.base == before.base && after.end == before.end && after.InUse() == before.InUse() - {p}
  }

  lemma Facts(h: Arena, a: Ptr)
    requires h.Tagged() && a in h.starts
    ensures h.ChunkOk(a) && h.ChunkOk(h.top) && h.ChunkOk(h.base)
    ensures a != h.top ==> h.ChunkOk(a + h.head[a].size) && a + h.head[a].size <= h.top
  {
    assert h.ChunkOk(a);
    if a != h.top {
      assert h.ChunkOk(a + h.head[a].size);
    }
  }

  lemma Positive(h: Arena)
    requires h.Tagged()
    ensures forall a | a in h.starts :: h.base <= a && a > 0
  {
    forall a | a in h.starts ensures h.base <= a && a > 0 {
      assert h.ChunkOk(a);
    }
  }

  lemma FreeFacts(h: Arena, a: Ptr)
    requires h.Tagged() && a in h.Free()
    ensures a in h.starts && a >= h.base > 0 && a in h.head && h.head[a].size == h.Free()[a]
    ensures MIN_CHUNK_SIZE <= h.Free()[a] < SIZE_LIMIT && h.Free()[a] % CHUNK_ALIGN == 0
  {
    Facts(h, a);
  }

  lemma DvFacts(h: Arena)
    requires h.Valid()
    ensures h.dvsize < SIZE_LIMIT && h.dvsize % CHUNK_ALIGN == 0
    ensures h.dvsize > 0 ==> h.dv in h.Free() && h.Free()[h.dv] == h.dvsize
  {
    if h.dv != 0 { FreeFacts(h, h.dv); }
  }

  lemma NotInUse(h: Arena)
    requires h.Valid()
    ensures forall a | a in h.Free() :: a !in h.InUse()
    ensures h.top !in h.InUse() && (h.dvsize > 0 ==> h.dv in h.Free())
    ensures h.dvsize < SIZE_LIMIT && h.topsize < SIZE_LIMIT
  {
    DvFacts(h);
    Facts(h, h.top);
  }

  /** Two chunks that end at the same place are the same chunk. */
  lemma SameEnd(h: Arena, a: Ptr, b: Ptr)
    requires h.Tagged() && a in h.starts && b in h.starts && a != h.top && b != h.top
    requires a in h.head && b in h.head && a + h.head[a].size == b + h.head[b].size
    ensures a == b
  {
    assert h.ChunkOk(a) && h.ChunkOk(b) && h.Apart(a, b) && h.Apart(b, a);
  }

  lemma WithDvTagged(h: Arena, p: Ptr, s: nat)
    requires h.Tagged()
    ensures h.(dv := p, dvsize := s).Tagged()
  {
    var h' := h.(dv := p, dvsize := s);
    forall a | a in h'.starts ensures h'.ChunkOk(a) {
      assert h.ChunkOk(a);
    }
    forall a, b | a in h'.starts && b in h'.starts ensures h'.Apart(a, b) {
      assert h.Apart(a, b);
    }
  }

  /** Electing another designated victim does not concern the tags. */
  lemma WithDv(h: Arena, p: Ptr, s: nat)
    requires h.Tagged() && ((p == 0 && s == 0) || (p in h.Free() && h.Free()[p] == s))
    ensures var h' := h.(dv := p, dvsize := s);
      h'.Valid() && h'.InUse() == h.InUse() && h'.Free() == h.Free()
  {
    WithDvTagged(h, p, s);
    if p in h.Free() { Facts(h, p); }
  }

  /** The designated victim stays one as long as it stays free with its size. */
  lemma StillDv(h: Arena, h': Arena)
    requires h.Valid() && h'.Tagged() && h'.dv == h.dv && h'.dvsize == h.dvsize
    requires h.dv in h.Free() ==> h.dv in h'.Free() && h'.Free()[h.dv] == h.Free()[h.dv]
    ensures h'.Valid()
    ensures h.dv != 0 ==> h.dv in h.Free() && h.Free()[h.dv] == h.dvsize
  {
    if h.dv != 0 { assert h.dv in h.Free(); }
  }

  // ---- taking chunks ----

  ghost function Whole(h: Arena, a: Ptr): Arena
    requires a in h.head && a + h.head[a].size in h.head && h.head[a].size > 0
  {
    h.SetInuseAndPinuse(a, h.head[a].size)
  }

  lemma WholeChunk(h: Arena, a: Ptr, b: Ptr)
    requires h.Tagged() && a in h.Free() && b in h.starts
    requires h.head[a].size > 0 && a + h.head[a].size in h.head
    ensures Whole(h, a).ChunkOk(b)
  {
    Facts(h, a);
    Facts(h, b);
    if b != h.top && b != a && b + h.head[b].size == a + h.head[a].size {
      SameEnd(h, a, b);
    }
  }

  lemma WholeTagged(h: Arena, a: Ptr)
    requires h.Tagged() && a in h.Free()
    requires h.head[a].size > 0 && a + h.head[a].size in h.head
    requires Whole(h, a).TopOk()
    ensures Whole(h, a).Tagged()
  {
    var h' := Whole(h, a);
    forall b | b in h'.starts ensures h'.ChunkOk(b) {
      WholeChunk(h, a, b);
    }
    forall b, c | b in h'.starts && c in h'.starts ensures h'.Apart(b, c) {
      assert h.Apart(b, c);
    }
  }

  /** An entire free chunk is handed out. */
  lemma WholeOk(h: Arena, a: Ptr)
    requires h.Tagged() && a in h.Free()
    ensures h.head[a].size > 0 && a + h.head[a].size in h.head
    ensures Whole(h, a).Tagged()
    ensures Whole(h, a).InUse() == h.InUse()[a := h.head[a].size]
    ensures Whole(h, a).Free() == h.Free() - {a}
  {
    Facts(h, a);
    WholeMaps(h, a);
    WholeTagged(h, a);
  }

  lemma WholeMaps(h: Arena, a: Ptr)
    requires h.Tagged() && a in h.Free()
    requires h.head[a].size > 0 && a + h.head[a].size in h.head
    ensures Whole(h, a).InUse() == h.InUse()[a := h.head[a].size]
    ensures Whole(h, a).Free() == h.Free() - {a}
    ensures Whole(h, a).TopOk()
  {
    Facts(h, a);
    WholeHeads(h, a);
  }

  /** Handing out `a` whole changes its own in-use bit, and of other chunks only `pinuse`. */
  lemma WholeHeads(h: Arena, a: Ptr)
    requires h.Tagged() && a in h.Free()
    requires h.head[a].size > 0 && a + h.head[a].size in h.head
    ensures var g := Whole(h, a);
      (&& g.starts == h.starts && g.top == h.top && g.head.Keys == h.head.Keys
       && g.head[a].cinuse && g.head[a].size == h.head[a].size
       && forall b | b in h.head && b != a :: g.head[b].cinuse == h.head[b].cinuse && g.head[b].size == h.head[b].size)
  {
  }

  ghost function Split(h: Arena, a: Ptr, nb: nat): Arena
    requires a in h.head && nb <= h.head[a].size
  {
    h.SetInuseChunk(a, nb).SetFreeChunk(a + nb, h.head[a].size - nb).(starts := h.starts + {a + nb})
  }

  ghost predicate Splittable(h: Arena, a: Ptr, nb: nat)
  {
    && h.Tagged() && a in h.Free()
    && MIN_CHUNK_SIZE <= nb && nb % CHUNK_ALIGN == 0 && nb + MIN_CHUNK_SIZE <= h.head[a].size
  }

  lemma Inside(h: Arena, a: Ptr, nb: nat, b: Ptr)
    requires Splittable(h, a, nb) && b in h.starts
    ensures b != a + nb && (b <= a || b >= a + h.head[a].size)
    ensures b in h.head && (b < a ==> b + h.head[b].size <= a)
  {
    Facts(h, a);
    Facts(h, b);
    assert h.Apart(a, b) && h.Apart(b, a);
  }

  lemma SplitFront(h: Arena, a: Ptr, nb: nat)
    requires Splittable(h, a, nb)
    ensures Split(h, a, nb).ChunkOk(a) && Split(h, a, nb).ChunkOk(a + nb)
  {
    Facts(h, a);
    var n := a + h.head[a].size;
    assert h.ChunkOk(n);
  }

  lemma SplitOther(h: Arena, a: Ptr, nb: nat, b: Ptr)
    requires Splittable(h, a, nb) && b in h.starts && b != a
    ensures Split(h, a, nb).ChunkOk(b)
  {
    Facts(h, a);
    Facts(h, b);
    Inside(h, a, nb, b);
    if b == a + h.head[a].size {
      SplitNext(h, a, nb);
    } else {
      if b != h.top {
        Inside(h, a, nb, b + h.head[b].size);
        if b + h.head[b].size == a + h.head[a].size { SameEnd(h, a, b); }
      }
      if !h.head[b].pinuse {
        Inside(h, a, nb, b - h.foot[b]);
      }
    }
  }

  lemma SplitNext(h: Arena, a: Ptr, nb: nat)
    requires Splittable(h, a, nb)
    ensures Split(h, a, nb).ChunkOk(a + h.head[a].size)
  {
    Facts(h, a);
    var n := a + h.head[a].size;
    Facts(h, n);
    Inside(h, a, nb, n);
  }

  lemma SplitChunk(h: Arena, a: Ptr, nb: nat, b: Ptr)
    requires Splittable(h, a, nb) && b in h.starts + {a + nb}
    ensures Split(h, a, nb).ChunkOk(b)
  {
    SplitFront(h, a, nb);
    if b in h.starts && b != a {
      SplitOther(h, a, nb, b);
    }
  }

  lemma SplitApart(h: Arena, a: Ptr, nb: nat, b: Ptr, c: Ptr)
    requires Splittable(h, a, nb) && b in h.starts + {a + nb} && c in h.starts + {a + nb}
    ensures Split(h, a, nb).Apart(b, c)
  {
    Facts(h, a);
    if b in h.starts {
      Facts(h, b);
      Inside(h, a, nb, b);
      if c in h.starts { assert h.Apart(b, c); }
    }
    if c in h.starts { Inside(h, a, nb, c); }
  }

  /** The front of a free chunk is handed out; the remainder is a free chunk of its own. */
  lemma SplitOk(h: Arena, a: Ptr, nb: nat)
    requires Splittable(h, a, nb)
    ensures Split(h, a, nb).Tagged()
    ensures Split(h, a, nb).InUse() == h.InUse()[a := nb]
    ensures Split(h, a, nb).Free() == (h.Free() - {a})[a + nb := h.head[a].size - nb]
  {
    var h' := Split(h, a, nb);
    forall b | b in h'.starts ensures h'.ChunkOk(b) {
      SplitChunk(h, a, nb, b);
    }
    forall b, c | b in h'.starts && c in h'.starts ensures h'.Apart(b, c) {
      SplitApart(h, a, nb, b, c);
    }
    SplitMaps(h, a, nb);
  }

  lemma SplitMaps(h: Arena, a: Ptr, nb: nat)
    requires Splittable(h, a, nb)
    ensures Split(h, a, nb).InUse() == h.InUse()[a := nb]
    ensures Split(h, a, nb).Free() == (h.Free() - {a})[a + nb := h.head[a].size - nb]
    ensures Split(h, a, nb).TopOk()
  {
    Facts(h, a);
    Inside(h, a, nb, h.top);
    if a + nb in h.starts { Inside(h, a, nb, a + nb); }
  }

  lemma RemainderApart(h: Arena, a: Ptr, nb: nat)
    requires Splittable(h, a, nb)
    ensures a + nb !in h.starts && a + nb !in h.Free()
  {
    if a + nb in h.starts { Inside(h, a, nb, a + nb); }
  }

  ghost function DvSplit(h: Arena, nb: nat): Arena
    requires nb <= h.dvsize
  {
    var r, s := h.dv + nb, h.dvsize - nb;
    h.(dv := r, dvsize := s).SetFreeChunk(r, s).SetInuseChunk(h.dv, nb).(starts := h.starts + {r})
  }

  /** Splitting the designated victim: the remainder is the next one. */
  lemma DvSplitOk(h: Arena, nb: nat)
    requires h.Valid() && MIN_CHUNK_SIZE <= nb && nb % CHUNK_ALIGN == 0 && nb + MIN_CHUNK_SIZE <= h.dvsize
    ensures var h' := DvSplit(h, nb);
      h'.Valid() && HandsOut(h, h', h.dv, nb) && h'.Free() - {h'.dv} == h.Free() - {h.dv}
    ensures forall e | e in h.Free() && e != h.dv ::
      e in DvSplit(h, nb).head && DvSplit(h, nb).head[e].size == h.Free()[e]
  {
    DvFacts(h);
    var p, r, s := h.dv, h.dv + nb, h.dvsize - nb;
    SplitOk(h, p, nb);
    RemainderApart(h, p, nb);
    WithDv(Split(h, p, nb), r, s);
    assert DvSplit(h, nb) == Split(h, p, nb).(dv := r, dvsize := s);
  }

  // ---- top ----

  ghost function TopSplit(h: Arena, nb: nat): Arena
    requires nb <= h.topsize
  {
    var r := h.topsize - nb;
    h.(topsize := r, top := h.top + nb, head := h.head[h.top + nb := TopHead(r)][h.top := Head(nb, true, true)],
       starts := h.starts + {h.top + nb})
  }

  /** The front of top is handed out. */
  lemma TopSplitOk(h: Arena, nb: nat)
    requires h.Tagged() && MIN_CHUNK_SIZE <= nb < h.topsize && nb % CHUNK_ALIGN == 0
    ensures TopSplit(h, nb).Tagged()
    ensures TopSplit(h, nb).InUse() == h.InUse()[h.top := nb]
    ensures TopSplit(h, nb).Free() == h.Free()
  {
    var h' := TopSplit(h, nb);
    forall b | b in h'.starts ensures h'.ChunkOk(b) {
      TopSplitChunk(h, nb, b);
    }
    forall b, c | b in h'.starts && c in h'.starts ensures h'.Apart(b, c) {
      if b in h.starts { Facts(h, b); }
      if c in h.starts { Facts(h, c); }
      if b in h.starts && c in h.starts { assert h.Apart(b, c); }
    }
    TopSplitMaps(h, nb);
  }

  lemma TopSplitChunk(h: Arena, nb: nat, b: Ptr)
    requires h.Tagged() && MIN_CHUNK_SIZE <= nb < h.topsize && nb % CHUNK_ALIGN == 0
    requires b in h.starts + {h.top + nb}
    ensures TopSplit(h, nb).ChunkOk(b)
  {
    Facts(h, h.top);
    if b in h.starts && b != h.top {
      TopSplitBelow(h, nb, b);
    } else {
      TopSplitEnds(h, nb);
    }
  }

  /** The two parts of what was top. */
  lemma TopSplitEnds(h: Arena, nb: nat)
    requires h.Tagged() && MIN_CHUNK_SIZE <= nb < h.topsize && nb % CHUNK_ALIGN == 0
    ensures TopSplit(h, nb).ChunkOk(h.top) && TopSplit(h, nb).ChunkOk(h.top + nb)
  {
    Facts(h, h.top);
    AlignedSum(h.top, nb);
  }

  lemma AlignedSum(a: Ptr, n: nat)
    requires a % CHUNK_ALIGN == 0 && n % CHUNK_ALIGN == 0
    ensures (a + n) % CHUNK_ALIGN == 0
  {
  }

  lemma TopSplitBelow(h: Arena, nb: nat, b: Ptr)
    requires h.Tagged() && MIN_CHUNK_SIZE <= nb < h.topsize && b in h.starts && b != h.top
    ensures TopSplit(h, nb).ChunkOk(b)
  {
    Facts(h, b);
    if !h.head[b].pinuse { Facts(h, b - h.foot[b]); }
  }

  lemma TopSplitMaps(h: Arena, nb: nat)
    requires h.Tagged() && 0 < nb < h.topsize
    ensures TopSplit(h, nb).InUse() == h.InUse()[h.top := nb]
    ensures TopSplit(h, nb).Free() == h.Free()
  {
    var h' := TopSplit(h, nb);
    forall b | b in h.starts ensures b <= h.top {
      assert h.ChunkOk(b);
    }
    forall b | b in h.starts ensures b in h.head && b in h'.head && (b != h.top ==> h'.head[b] == h.head[b]) {
      Facts(h, b);
    }
  }

  // ---- releasing chunks ----

  /** Everything from chunk `q` up to chunk `e` becomes one free chunk. */
  ghost function Merge(h: Arena, q: Ptr, e: Ptr): Arena
    requires e in h.head && q <= e
  {
    h.SetFreeWithPinuse(q, e - q, e).(starts := set b | b in h.starts && (b <= q || e <= b))
  }

  ghost predicate Mergeable(h: Arena, q: Ptr, e: Ptr)
  {
    && h.Tagged() && q in h.starts && e in h.starts && q < e
    && q in h.head && h.head[q].pinuse && e in h.head && e != h.top && h.head[e].cinuse
  }

  /** Everything from chunk `q` up joins top. */
  ghost function MergeTop(h: Arena, q: Ptr): Arena
    requires q <= h.end
  {
    h.(top := q, topsize := h.end - q, head := h.head[q := TopHead(h.end - q)],
       starts := set b | b in h.starts && b <= q)
  }

  lemma NotTop(h: Arena, e: Ptr)
    requires h.Tagged() && e in h.starts && e != h.top
    ensures e < h.top
  {
    Facts(h, e);
  }

  lemma MergeChunk(h: Arena, q: Ptr, e: Ptr, b: Ptr)
    requires Mergeable(h, q, e) && b in h.starts && (b <= q || e <= b)
    ensures Merge(h, q, e).ChunkOk(b)
  {
    NotTop(h, e);
    Facts(h, q);
    Facts(h, e);
    assert h.Apart(q, e);
    if b == q {
      MergeLow(h, q, e);
    } else if b == e {
      MergeHigh(h, q, e);
    } else if b < q {
      Facts(h, b);
      assert h.Apart(b, q);
      if !h.head[b].pinuse { Facts(h, b - h.foot[b]); }
    } else {
      MergeAbove(h, q, e, b);
    }
  }

  lemma MergeLow(h: Arena, q: Ptr, e: Ptr)
    requires Mergeable(h, q, e)
    ensures Merge(h, q, e).ChunkOk(q)
  {
    NotTop(h, e);
    Facts(h, q);
    Facts(h, e);
    assert h.Apart(q, e);
    assert (e - q) % CHUNK_ALIGN == 0;
  }

  lemma MergeHigh(h: Arena, q: Ptr, e: Ptr)
    requires Mergeable(h, q, e)
    ensures Merge(h, q, e).ChunkOk(e)
  {
    NotTop(h, e);
    Facts(h, q);
    Facts(h, e);
    assert Merge(h, q, e).PrevOk(e);
  }

  lemma MergeAbove(h: Arena, q: Ptr, e: Ptr, b: Ptr)
    requires Mergeable(h, q, e) && b in h.starts && e < b
    ensures Merge(h, q, e).ChunkOk(b)
  {
    NotTop(h, e);
    Facts(h, b);
    if !h.head[b].pinuse {
      var a := b - h.foot[b];
      Facts(h, a);
      assert h.Apart(a, e) && h.Apart(e, a);
    }
  }

  lemma MergeApart(h: Arena, q: Ptr, e: Ptr, b: Ptr, c: Ptr)
    requires Mergeable(h, q, e) && b in Merge(h, q, e).starts && c in Merge(h, q, e).starts
    ensures Merge(h, q, e).Apart(b, c)
  {
    assert h.Apart(b, c);
    assert h.Apart(b, q);
    assert h.Apart(q, e);
  }

  lemma MergeOk(h: Arena, q: Ptr, e: Ptr)
    requires Mergeable(h, q, e)
    ensures Merge(h, q, e).Tagged()
  {
    var h' := Merge(h, q, e);
    NotTop(h, e);
    Facts(h, q);
    forall b | b in h'.starts ensures h'.ChunkOk(b) {
      MergeChunk(h, q, e, b);
    }
    forall b, c | b in h'.starts && c in h'.starts ensures h'.Apart(b, c) {
      MergeApart(h, q, e, b, c);
    }
  }

  lemma MergeTopTop(h: Arena, q: Ptr)
    requires h.Tagged() && q in h.starts
    ensures q < h.end && MergeTop(h, q).TopOk()
  {
    Facts(h, q);
  }

  lemma MergeTopChunk(h: Arena, q: Ptr, b: Ptr)
    requires h.Tagged() && q in h.starts && q in h.head && h.head[q].pinuse && b in h.starts && b <= q < h.end
    ensures MergeTop(h, q).ChunkOk(b)
  {
    Facts(h, q);
    Facts(h, b);
    if b != q {
      assert h.Apart(b, q);
      if !h.head[b].pinuse { Facts(h, b - h.foot[b]); }
    }
  }

  lemma MergeTopOk(h: Arena, q: Ptr)
    requires h.Tagged() && q in h.starts && q in h.head && h.head[q].pinuse
    ensures q < h.end && MergeTop(h, q).Tagged()
  {
    MergeTopTop(h, q);
    var h' := MergeTop(h, q);
    forall b | b in h'.starts ensures h'.ChunkOk(b) {
      MergeTopChunk(h, q, b);
    }
    forall b, c | b in h'.starts && c in h'.starts ensures h'.Apart(b, c) {
      assert h.Apart(b, c);
    }
  }

  // ---- Free as a whole: coalescing with both neighbours ----

  /** Where the free chunk that results from releasing `p` begins. */
  ghost function Lower(h: Arena, p: Ptr): Ptr
  {
    if p in h.head && !h.head[p].pinuse && p in h.foot then
      var f: int := h.foot[p]; p - f
    else p
  }

  /** The chunk behind `p`. */
  ghost function Next(h: Arena, p: Ptr): Ptr
    requires p in h.head
  {
    p + h.head[p].size
  }

  /** Where the free chunk that results from releasing `p` ends, when that is not in top. */
  ghost function Upper(h: Arena, p: Ptr): Ptr
    requires p in h.head && Next(h, p) in h.head
  {
    var n := Next(h, p);
    if h.head[n].cinuse then n else Next(h, n)
  }

  /** `p` is the chunk below top, but the word of top reads as in use. */
  ghost predicate Misread(h: Arena, p: Ptr)
  {
    p in h.head && Next(h, p) == h.top && h.top in h.head && h.head[h.top].cinuse
  }

  lemma Around(h: Arena, p: Ptr)
    requires h.Tagged() && p in h.InUse()
    ensures p != h.top && Next(h, p) in h.starts && Next(h, p) in h.head && p < Next(h, p)
    ensures Lower(h, p) in h.starts && Lower(h, p) in h.head && h.head[Lower(h, p)].pinuse && Lower(h, p) <= p
    ensures Lower(h, p) != p ==> Lower(h, p) in h.Free() && Next(h, Lower(h, p)) == p
    ensures Lower(h, p) == p <==> h.head[p].pinuse
    ensures Next(h, p) != h.top ==> Mergeable(h, Lower(h, p), Upper(h, p)) && Next(h, p) <= Upper(h, p)
  {
    Facts(h, p);
    var q, n := Lower(h, p), Next(h, p);
    Facts(h, q);
    Facts(h, n);
  }

  /** The arena after releasing `p`. A top that reads as in use is left alone: like any other chunk
      in use it is told that the one below it is free. */
  ghost function Released(h: Arena, p: Ptr): Arena
    requires h.Tagged() && p in h.InUse()
  {
    Around(h, p);
    if Next(h, p) == h.top && !h.head[h.top].cinuse then MergeTop(h, Lower(h, p))
    else Merge(h, Lower(h, p), Upper(h, p))
  }

  /** The free chunks after releasing `p`: its free neighbours are gone, and unless it joined
      top, there is one chunk over their combined extent. */
  ghost function FreeAfter(h: Arena, p: Ptr): map<Ptr, nat>
    requires h.Tagged() && p in h.InUse()
  {
    Around(h, p);
    var q := Lower(h, p);
    var rest := h.Free() - {q, Next(h, p)};
    if Next(h, p) == h.top then rest else rest[q := Upper(h, p) - q]
  }

  lemma Dropped(h: Arena, p: Ptr, b: Ptr)
    requires h.Tagged() && p in h.InUse() && b in h.starts
    ensures p in h.head && Next(h, p) in h.head
    ensures Lower(h, p) <= b < Upper(h, p) ==> b == Lower(h, p) || b == p || b == Next(h, p)
    ensures Next(h, p) == h.top && Lower(h, p) <= b ==> b == Lower(h, p) || b == p || b == h.top
  {
    Around(h, p);
    var q, n := Lower(h, p), Next(h, p);
    assert h.Apart(q, b) && h.Apart(p, b) && h.Apart(n, b);
    assert h.ChunkOk(b);
  }

  lemma ReleasedTagged(h: Arena, p: Ptr)
    requires h.Tagged() && p in h.InUse() && !Misread(h, p)
    ensures Released(h, p).Tagged()
  {
    Around(h, p);
    if Next(h, p) == h.top {
      MergeTopOk(h, Lower(h, p));
    } else {
      MergeOk(h, Lower(h, p), Upper(h, p));
    }
  }

  lemma ReleasedInUse(h: Arena, p: Ptr)
    requires h.Tagged() && p in h.InUse() && !Misread(h, p)
    ensures Released(h, p).InUse() == h.InUse() - {p}
  {
    Around(h, p);
    var h', u := Released(h, p), h.InUse() - {p};
    forall b | b in h.starts ensures b in h'.InUse() <==> b in u {
      Dropped(h, p, b);
    }
    forall b | b in h'.InUse() ensures h'.InUse()[b] == u[b] {
      Dropped(h, p, b);
    }
  }

  lemma ReleasedFree(h: Arena, p: Ptr)
    requires h.Tagged() && p in h.InUse() && !Misread(h, p)
    ensures Released(h, p).Free() == FreeAfter(h, p)
  {
    Around(h, p);
    var h', u := Released(h, p), FreeAfter(h, p);
    forall b | b in h.starts ensures b in h'.Free() <==> b in u {
      Dropped(h, p, b);
    }
    forall b | b in h'.Free() ensures h'.Free()[b] == u[b] {
      Dropped(h, p, b);
    }
  }

  lemma ReleasedOk(h: Arena, p: Ptr)
    requires h.Valid() && p in h.InUse() && !Misread(h, p)
    ensures Released(h, p).Tagged() && Released(h, p).InUse() == h.InUse() - {p}
    ensures Released(h, p).Free() == FreeAfter(h, p)
    ensures p in h.head && Next(h, p) in h.head
    ensures Next(h, p) != h.top ==>
      Lower(h, p) in Released(h, p).Free() && Released(h, p).Free()[Lower(h, p)] == Upper(h, p) - Lower(h, p)
  {
    Around(h, p);
    ReleasedTagged(h, p);
    ReleasedInUse(h, p);
    ReleasedFree(h, p);
  }

  /** What Free reads off the tags around the chunk `p`. */
  lemma ReleasedTags(h: Arena, p: Ptr)
    requires h.Valid() && p in h.InUse()
    ensures p in h.head && h.head[p].cinuse && Next(h, p) in h.head && h.head[Next(h, p)].pinuse
    ensures h.base <= Lower(h, p) <= p < Next(h, p) && (Lower(h, p) == p <==> h.head[p].pinuse)
    ensures Lower(h, p) != p ==>
      p in h.foot && h.foot[p] == p - Lower(h, p) && Lower(h, p) in h.Free() && h.Free()[Lower(h, p)] == p - Lower(h, p)
    ensures Next(h, p) != h.top && h.head[Next(h, p)].cinuse ==> Next(h, p) in h.InUse() && Next(h, p) !in h.Free()
    ensures !h.head[Next(h, p)].cinuse && Next(h, p) != h.top ==>
      Next(h, p) in h.Free() && h.Free()[Next(h, p)] == h.head[Next(h, p)].size
    ensures p !in h.Free() && h.top !in h.Free()
  {
    Around(h, p);
    Facts(h, p);
    Facts(h, Lower(h, p));
    Facts(h, Next(h, p));
  }

  /** The next chunk is in use: its pinuse bit is cleared. */
  lemma ReleasedBeforeInUse(h: Arena, p: Ptr)
    requires h.Valid() && p in h.InUse() && Next(h, p) in h.head && h.head[Next(h, p)].cinuse
    ensures var q, n := Lower(h, p), Next(h, p);
      q < n && Upper(h, p) == n && Released(h, p) == h.SetFreeWithPinuse(q, n - q, n).(starts := Released(h, p).starts)
  {
    ReleasedTags(h, p);
  }

  /** The next chunk is free: it is absorbed. */
  lemma ReleasedBeforeFree(h: Arena, p: Ptr)
    requires h.Valid() && p in h.InUse() && Next(h, p) in h.head && !h.head[Next(h, p)].cinuse && Next(h, p) != h.top
    ensures var q, n := Lower(h, p), Next(h, p);
      q < n && Upper(h, p) == n + h.head[n].size
      && Released(h, p) == h.SetFreeChunk(q, n - q + h.head[n].size).(starts := Released(h, p).starts)
  {
    ReleasedTags(h, p);
    Facts(h, Next(h, p));
  }

  /** The next chunk is top: the released chunk joins it. */
  lemma ReleasedBeforeTop(h: Arena, p: Ptr)
    requires h.Valid() && p in h.InUse() && Next(h, p) == h.top && !Misread(h, p)
    ensures var q, n := Lower(h, p), Next(h, p);
      q < n && Released(h, p) == h.(top := q, topsize := h.topsize + (n - q),
                                    head := h.head[q := TopHead(h.topsize + (n - q))], starts := Released(h, p).starts)
  {
    ReleasedTags(h, p);
  }

  /** If top is misread, the released chunk stays a free chunk of its own right below top. */
  lemma StrayTouches(h: Arena, p: Ptr)
    requires h.Valid() && p in h.InUse() && Misread(h, p)
    ensures var q, g := Lower(h, p), Released(h, p);
      (&& q in g.starts && q in g.head && !g.head[q].cinuse && q + g.head[q].size == g.top == h.top && g.top in g.starts
       && q != h.top && g.base == h.base && g.end == h.end && !g.Tagged())
  {
    ReleasedTags(h, p);
    Facts(h, Lower(h, p));
    if Released(h, p).Tagged() { NotBelowTop(Released(h, p), Lower(h, p)); }
  }

  /** No tagged arena has a free chunk next to top. */
  lemma NotBelowTop(g: Arena, q: Ptr)
    requires g.Tagged() && q in g.starts && q != g.top
    ensures q in g.head && (!g.head[q].cinuse ==> q + g.head[q].size != g.top)
  {
    assert g.ChunkOk(q);
  }

  /** Whether top is misread depends on where the arena ends, not on how much of it is handed out. */
  lemma TopReads(h: Arena)
    requires h.Tagged()
    ensures h.head[h.top].cinuse <==> h.end / 2 % 2 == 1
  {
    assert h.ChunkOk(h.top);
    var q := h.top / CHUNK_ALIGN;
    ByFour(h.topsize, h.topsize / 4, h.topsize % 4);
    ByFour(h.end, 4 * q + h.topsize / 4, h.topsize % 4);
  }

  /** The flags the code tests are those it reads back from the words it wrote. */
  lemma WordsRead(h: Arena, a: Ptr)
    requires h.Tagged() && a in h.starts
    ensures a in h.head && Unpack(Pack(h.head[a])).cinuse == h.head[a].cinuse
    ensures a != h.top ==> Unpack(Pack(h.head[a])) == h.head[a]
    ensures a == h.top && h.head[a].pinuse ==> Unpack(Pack(h.head[a])).pinuse
  {
    assert h.ChunkOk(a);
    FlagsRead(h.head[a]);
    if a != h.top { PackRoundTrip(h.head[a]); }
  }
}
