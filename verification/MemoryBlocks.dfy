/** The operations of MemoryBlock, which load and save descriptors through a MetadataCache. */
module MemoryBlocks {
  import opened BlockTable
  import opened BuddyModel
  import opened Regions
  import opened MetaCache

  /** `data` */
  function DataOf(a: Addr): Addr { a + DESC_SIZE }

  /** `metadata` */
  function BlockOf(p: Addr): Addr { p - DESC_SIZE }

  /** The cache holds the descriptors of `t`. */
  ghost predicate Holds(cache: MetadataCache, t: Table)
    reads cache
  {
    cache.Valid() && cache.live == t.live
  }

  /** `init` of the only block of a region. */
  method InitBlock(cache: MetadataCache, ghost t: Table, a: Addr, r: Region)
    requires Holds(cache, t) && Adds(t, a, r)
    modifies cache
    ensures Holds(cache, AddRegion(t, a, r))
  {
    forall b | b in t.live && b != a ensures Disjoint(a, b) {
      BlockBeside(t, a, r, b);
      Facts(t, b);
    }
    cache.Save(a, Desc(KindOf(r), r.index, r.size - DESC_SIZE, r.size, 0, 0));
  }

  method SetType(cache: MetadataCache, ghost t: Table, a: Addr, k: Kind)
    requires Holds(cache, t) && a in t.live && k != INVALID_CHUNK
    modifies cache
    ensures Holds(cache, SetKind(t, a, k))
  {
    var metadata := cache.Load(a);
    cache.Save(a, metadata.(kind := k));
  }

  method MarkAsFree(cache: MetadataCache, ghost t: Table, a: Addr)
    requires Holds(cache, t) && a in t.live && t.live[a].kind != FREE_CHUNK && t.live[a].kind != INVALID_CHUNK
    modifies cache
    ensures Holds(cache, Marked(t, a))
  {
    SetType(cache, t, a, FREE_CHUNK);
  }

  lemma CutClear(t: Table, a: Addr, n: nat)
    requires Splits(t, a, n)
    ensures a + n !in t.live && a + n != 0 && 0 !in t.live && t.live[a].kind != INVALID_CHUNK
    ensures forall b | b in t.live :: Disjoint(a + n, b)
    ensures var next := t.live[a].right;
      next != 0 ==> next in t.live && next != a && t.live[next].kind != INVALID_CHUNK
  {
    NoZero(t);
    Facts(t, a);
    if t.live[a].right != 0 { Facts(t, t.live[a].right); }
    if a + n in t.live { SplitInside(t, a, n, a + n); }
    forall b | b in t.live ensures Disjoint(a + n, b) {
      SplitInside(t, a, n, b);
      Facts(t, a);
      Facts(t, b);
    }
  }

  /** `left` becomes the left buddy of the block at `b`, if there is one. */
  method Relink(cache: MetadataCache, b: Addr, left: Addr)
    requires cache.Valid() && 0 !in cache.live
    requires b != 0 ==> b in cache.live && cache.live[b].kind != INVALID_CHUNK
    modifies cache
    ensures cache.Valid() && cache.live == SetLeft(old(cache.live), b, left)
  {
    if b != 0 {
      var buddy := cache.Load(b);
      cache.Save(b, buddy.(left := left));
    }
  }

  method SplitAt(cache: MetadataCache, ghost t: Table, a: Addr, n: nat)
    requires Holds(cache, t) && t.Linked() && a in t.live && a in t.home && t.live[a].kind != HUGE_CHUNK
    requires DESC_SIZE <= n <= t.live[a].total
    modifies cache
    ensures Holds(cache, Split(t, a, n))
  {
    var metadata := cache.Load(a);
    if metadata.total - n <= DESC_SIZE {
      return;
    }
    var right := a + n;
    var remaining := metadata.total - n;
    var next := metadata.right;
    CutClear(t, a, n);
    cache.Save(right, Desc(FREE_CHUNK, metadata.index, remaining - DESC_SIZE, remaining, a, next));
    cache.Save(a, metadata.(right := right, size := n - DESC_SIZE, total := n));
    Relink(cache, next, right);
  }

  /** The block at `a` takes in its right buddy, whose descriptor is left behind marked invalid. */
  method MergeWith(cache: MetadataCache, ghost t: Table, a: Addr, right: Addr)
    requires Holds(cache, t) && Merges(t, a, right) && IsFree(t, a) && IsFree(t, right)
    modifies cache
    ensures Holds(cache, Merge(t, a, right))
    ensures right in cache.Store()
    ensures cache.Store()[right] == cache.Guard(Desc(INVALID_CHUNK, 0, 0, 0, 0, 0))
  {
    MergeFacts(t, a, right);
    Facts(t, right);
    NoZero(t);
    var metadata := cache.Load(a);
    var rightDesc := cache.Load(right);
    metadata := metadata.(right := rightDesc.right);
    Relink(cache, metadata.right, a);
    rightDesc := cache.Load(right);
    metadata := metadata.(size := metadata.size + rightDesc.total, total := metadata.total + rightDesc.total);
    cache.Save(a, metadata);
    cache.Save(right, Desc(INVALID_CHUNK, 0, 0, 0, 0, 0));
  }
}
