/** MetadataCache: descriptors either at the head of their block in memory, or in a side table. */
module MetaCache {
  import opened BlockTable

  /** A descriptor as it is stored, between its two guards. */
  datatype Guarded = Guarded(desc: Desc, begin: nat, end: nat)

  ghost predicate Disjoint(a: Addr, b: Addr)
  {
    a + DESC_SIZE <= b || b + DESC_SIZE <= a
  }

  class MetadataCache {
    const usesGpu: bool

    /** The library's hash of a descriptor for a given seed. */
    const hash: (Desc, nat) -> nat

    /** The side table `cache_`. */
    var side: map<Addr, Guarded>

    /** Memory, as far as it holds descriptors: `a` is present as long as the DESC_SIZE bytes from
        `a` are as some save left them. Any later write into these bytes removes it. */
    var memory: map<Addr, Guarded>

    /** The descriptors the allocator relies on. */
    ghost var live: map<Addr, Desc>

    constructor (gpu: bool, h: (Desc, nat) -> nat)
      ensures Valid() && usesGpu == gpu && hash == h && live == map[]
    {
      usesGpu, hash := gpu, h;
      side, memory, live := map[], map[], map[];
    }

    function Guard(d: Desc): Guarded { Guarded(d, hash(d, 1), hash(d, 2)) }

    predicate CheckGuards(g: Guarded) { g.begin == hash(g.desc, 1) && g.end == hash(g.desc, 2) }

    function Store(): map<Addr, Guarded>
      reads this
    {
      if usesGpu then side else memory
    }

    ghost predicate Held(a: Addr)
      reads this
      requires a in live
    {
      a in Store() && Store()[a] == Guard(live[a])
    }

    /** Live descriptors are where a load looks for them, whichever mode the cache is in. */
    ghost predicate Valid()
      reads this
    {
      && (forall a {:trigger Held(a)} | a in live :: Held(a))
      && (forall a, b {:trigger Disjoint(a, b)} | a in live && b in live && a != b :: Disjoint(a, b))
    }

    /** No live descriptor other than the one at `a` itself is touched by a write at `a`. */
    ghost predicate Clear(a: Addr)
      reads this
    {
      forall b {:trigger Disjoint(a, b)} | b in live && b != a :: Disjoint(a, b)
    }

    method Load(a: Addr) returns (d: Desc)
      requires Valid() && a in live
      ensures d == live[a]
    {
      assert Held(a);
      if usesGpu {
        assert CheckGuards(side[a]);
        d := side[a].desc;
      } else {
        assert CheckGuards(memory[a]);
        d := memory[a].desc;
      }
    }

    /** Stores `d` between its guards, in either mode. A descriptor saved as INVALID_CHUNK is stored
        like any other, but the allocator no longer relies on it. */
    method Save(a: Addr, d: Desc)
      requires Valid() && Clear(a)
      modifies this
      ensures Valid()
      ensures live == if d.kind == INVALID_CHUNK then old(live) - {a} else old(live)[a := d]
      ensures a in Store() && Store()[a] == Guard(d)
      ensures usesGpu ==> side == old(side)[a := Guard(d)] && memory == old(memory)
      ensures !usesGpu ==> side == old(side)
      ensures !usesGpu ==> forall b | b != a :: b in memory <==> b in old(memory) && Disjoint(a, b)
      ensures !usesGpu ==> forall b | b in memory && b != a :: memory[b] == old(memory)[b]
    {
      forall b | b in live && b != a ensures Held(b) && Disjoint(a, b) {
      }
      if usesGpu {
        side := side[a := Guard(d)];
      } else {
        memory := (map b | b in memory && (a + DESC_SIZE <= b || b + DESC_SIZE <= a) :: memory[b])[a := Guard(d)];
      }
      live := if d.kind == INVALID_CHUNK then live - {a} else live[a := d];
      forall b | b in live ensures Held(b) {
        assert b != a ==> b in old(live) && old(Held(b));
      }
    }

    method Invalidate(a: Addr)
      requires Valid()
      modifies this
      ensures Valid() && live == old(live) - {a} && memory == old(memory)
      ensures side == if usesGpu then old(side) - {a} else old(side)
    {
      if usesGpu {
        side := side - {a};
      }
      live := live - {a};
      forall b | b in live ensures Held(b) {
        assert b in old(live) && old(Held(b));
      }
    }

    /** Block `a` goes back to the system with the `size` bytes from `a` on, which may be
        overwritten from now on. */
    method Surrender(a: Addr, size: nat)
      requires Valid()
      requires usesGpu || forall b | b in live && b != a :: a + size <= b || b + DESC_SIZE <= a
      modifies this
      ensures Valid() && live == old(live) - {a} && side == old(side)
      ensures forall b :: b in memory <==> b in old(memory) && (a + size <= b || b + DESC_SIZE <= a)
      ensures forall b | b in memory :: memory[b] == old(memory)[b]
    {
      live := live - {a};
      memory := map b | b in memory && (a + size <= b || b + DESC_SIZE <= a) :: memory[b];
      forall b | b in live ensures Held(b) {
        assert b in old(live) && old(Held(b));
      }
    }

    /** A client overwrites the bytes from `lo` to `hi`. In memory, none of them may belong to a
        live descriptor. */
    method ClientWrite(lo: Addr, hi: Addr)
      requires Valid() && (usesGpu || forall a | a in live :: hi <= a || a + DESC_SIZE <= lo)
      modifies this`memory
      ensures Valid()
      ensures forall b :: b in memory <==> b in old(memory) && (hi <= b || b + DESC_SIZE <= lo)
      ensures forall b | b in memory :: memory[b] == old(memory)[b]
    {
      memory := map a | a in memory && (hi <= a || a + DESC_SIZE <= lo) :: memory[a];
      forall b | b in live ensures Held(b) {
        assert old(Held(b));
      }
    }
  }
}
