/** Consequences of the heap invariant for whole arenas. */
module HeapLaws {
  import opened Rings
  import opened Chunks
  import opened Heap
  import opened Sums

  ghost predicate Spans(h: Arena, a: Ptr, x: Ptr)
  {
    a in h.starts && a in h.head && a <= x < a + h.head[a].size
  }

  /** The chunk over address `x`, walking up from chunk `a`. */
  ghost function Owner(h: Arena, a: Ptr, x: Ptr): (o: Ptr)
    requires h.Tagged() && a in h.starts && a <= x < h.end
    ensures Spans(h, o, x)
    decreases x - a
  {
    Facts(h, a);
    if x < a + h.head[a].size then a else Owner(h, a + h.head[a].size, x)
  }

  /** Every address of the arena belongs to exactly one chunk. */
  lemma Tiling(h: Arena, x: Ptr) returns (o: Ptr)
    requires h.Tagged() && h.base <= x < h.end
    ensures Spans(h, o, x) && forall b | Spans(h, b, x) :: b == o
  {
    o := Owner(h, h.base, x);
    forall b | Spans(h, b, x) ensures b == o {
      assert h.Apart(b, o) && h.Apart(o, b);
    }
  }

  /** What the tags of chunk `a` and of the chunk after it tell: sizes are aligned, `pinuse` is the
      in-use state of the predecessor, a free chunk leaves its size in the next one's `prev_foot`,
      and its neighbours are in use. */
  lemma TagsTell(h: Arena, a: Ptr)
    requires h.Tagged() && a in h.starts && a != h.top
    ensures a in h.head && MIN_CHUNK_SIZE <= h.head[a].size && h.head[a].size % CHUNK_ALIGN == 0
    ensures var n := a + h.head[a].size;
      (&& n in h.starts && n in h.head && (h.head[n].pinuse <==> a in h.InUse())
       && (a !in h.InUse() ==> n in h.InUse() && n in h.foot && h.foot[n] == h.head[a].size && h.head[a].pinuse))
  {
    Facts(h, a);
    assert h.ChunkOk(a) && h.NextOk(a);
    Facts(h, a + h.head[a].size);
  }

  ghost predicate SameArena(h: Arena, g: Arena)
  {
    h.Tagged() && g.Tagged() && h.base == g.base && h.end == g.end && h.InUse() == g.InUse()
  }

  /** From a common chunk on, the chunks handed out determine all others. */
  lemma {:induction false} SameNext(h: Arena, g: Arena, a: Ptr)
    requires SameArena(h, g) && a in h.starts && a in g.starts && a != h.top
    ensures a in h.head && a in g.head && a != g.top && h.head[a].size == g.head[a].size
    ensures h.head[a].cinuse == g.head[a].cinuse
  {
    Facts(h, a);
    Facts(g, a);
    if h.head[a].cinuse {
      assert a in g.InUse();
    } else {
      var n := a + h.head[a].size;
      assert n in h.InUse();
      FreeUpTo(g, a, n);
      if a != g.top {
        var m := a + g.head[a].size;
        assert a in g.starts && !g.head[a].cinuse by { assert a !in h.InUse(); }
        assert m in g.InUse();
        FreeUpTo(h, a, m);
      }
    }
  }

  /** A chunk that is not in use reaches at most to the next chunk in use. */
  lemma FreeUpTo(g: Arena, a: Ptr, n: Ptr)
    requires g.Tagged() && a in g.starts && a !in g.InUse() && n in g.InUse() && a < n
    ensures a in g.head && a != g.top && a + g.head[a].size <= n
  {
    Facts(g, a);
    Facts(g, n);
    assert g.Apart(a, n);
  }

  lemma {:induction false} SameFrom(h: Arena, g: Arena, a: Ptr, b: Ptr)
    requires SameArena(h, g) && a in h.starts && a in g.starts && b in h.starts && a <= b
    ensures b in g.starts
    decreases b - a
  {
    Facts(h, a);
    Facts(h, b);
    if a < b {
      SameNext(h, g, a);
      Facts(g, a);
      assert h.Apart(a, b);
      SameFrom(h, g, a + h.head[a].size, b);
    }
  }

  /** The layout of an arena is a function of the chunks handed out: every gap between them is
      one free chunk, and the last one is top. */
  lemma Determined(h: Arena, g: Arena)
    requires SameArena(h, g)
    ensures h.starts == g.starts && h.top == g.top && h.topsize == g.topsize && h.Free() == g.Free()
  {
    forall b ensures b in h.starts <==> b in g.starts {
      if b in h.starts { Facts(h, b); SameFrom(h, g, h.base, b); }
      if b in g.starts { Facts(g, b); SameFrom(g, h, h.base, b); }
    }
    Facts(h, g.top);
    Facts(g, h.top);
    forall b | b in h.starts && b != h.top
      ensures b in h.head && b in g.head && h.head[b].size == g.head[b].size && h.head[b].cinuse == g.head[b].cinuse {
      SameNext(h, g, b);
    }
  }

  /** A chunk before top is in use, or is free and followed by one in use. */
  lemma SomeInUse(h: Arena)
    requires h.Tagged() && h.base != h.top
    ensures h.InUse() != map[]
  {
    Facts(h, h.base);
    assert h.base in h.InUse() || h.base + h.head[h.base].size in h.InUse();
  }

  /** Once everything has been released the arena is one top chunk again. */
  lemma AllFree(h: Arena)
    requires h.Valid() && h.InUse() == map[]
    ensures h.starts == {h.base} && h.top == h.base && h.topsize == h.end - h.base
    ensures h.Free() == map[] && h.dv == 0 && h.dvsize == 0
  {
    Facts(h, h.base);
    if h.base != h.top { SomeInUse(h); }
    forall b | b in h.starts ensures b == h.base {
      Facts(h, b);
    }
  }

  /** Releasing what was handed out restores the layout, wherever the chunk was taken from. */
  lemma RoundTrip(before: Arena, after: Arena, p: Ptr, s: nat)
    requires before.Valid() && after.Valid() && before.base == after.base && before.end == after.end
    requires p !in before.InUse() && after.InUse() == before.InUse()[p := s] && !Misread(after, p)
    ensures var h := Released(after, p);
      h.InUse() == before.InUse() && h.starts == before.starts && h.Free() == before.Free() && h.top == before.top &&
        h.topsize == before.topsize
  {
    ReleasedOk(after, p);
    Around(after, p);
    assert before.InUse()[p := s] - {p} == before.InUse();
    Determined(Released(after, p), before);
  }

  // ---- conservation ----

  ghost function ValueFrom(m: map<Ptr, nat>, a: Ptr, k: Ptr): nat
  {
    if k in m && a <= k then m[k] else 0
  }

  ghost function From(m: map<Ptr, nat>, a: Ptr): map<Ptr, nat>
  {
    map k | k in m && a <= k :: ValueFrom(m, a, k)
  }

  /** One more chunk at the front. */
  lemma FromStep(h: Arena, a: Ptr)
    requires h.Tagged() && a in h.starts && a != h.top && a in h.head
    ensures var n, s := a + h.head[a].size, h.head[a].size;
      if h.head[a].cinuse
      then From(h.InUse(), a) == From(h.InUse(), n)[a := s] && From(h.Free(), a) == From(h.Free(), n)
      else From(h.Free(), a) == From(h.Free(), n)[a := s] && From(h.InUse(), a) == From(h.InUse(), n)
  {
    Facts(h, a);
    forall k | k in h.starts && a < k ensures a + h.head[a].size <= k {
      assert h.Apart(a, k);
    }
  }

  lemma {:induction false} SumFrom(h: Arena, a: Ptr)
    requires h.Tagged() && a in h.starts
    ensures Sum(From(h.InUse(), a)) + Sum(From(h.Free(), a)) + h.topsize == h.end - a
    decreases h.end - a
  {
    Facts(h, a);
    if a == h.top {
      forall k | k in h.starts && a <= k ensures k == a {
        Facts(h, k);
      }
      assert From(h.InUse(), a) == map[] && From(h.Free(), a) == map[];
    } else {
      var n := a + h.head[a].size;
      SumFrom(h, n);
      FromStep(h, a);
      SumInsert(From(if h.head[a].cinuse then h.InUse() else h.Free(), n), a, h.head[a].size);
    }
  }

  /** Bytes in use, bytes free and top together are the arena. */
  lemma Conservation(h: Arena)
    requires h.Tagged()
    ensures Sum(h.InUse()) + Sum(h.Free()) + h.topsize == h.end - h.base
  {
    SumFrom(h, h.base);
    Positive(h);
    assert From(h.InUse(), h.base) == h.InUse();
    assert From(h.Free(), h.base) == h.Free();
  }
}
