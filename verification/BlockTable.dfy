/** Memory blocks: the descriptors of the blocks each region is carved into, and the two
    operations that move block boundaries, split and merge. */
module BlockTable {
  import opened Words

  /** An address; 0 is null. */
  type Addr = int

  /** sizeof(MemoryBlock::Desc) */
  const DESC_SIZE := 64

  datatype Kind = FREE_CHUNK | ARENA_CHUNK | HUGE_CHUNK | INVALID_CHUNK

  datatype Desc = Desc(kind: Kind, index: nat, size: nat, total: nat, left: Addr, right: Addr)

  /** A region obtained from the system allocator: an arena, or one huge allocation. */
  datatype Region = Region(size: nat, index: nat, huge: bool)

  /** The live blocks with their descriptors, the region each block lies in, and the regions. */
  datatype Table = Table(live: map<Addr, Desc>, home: map<Addr, Addr>, regions: map<Addr, Region>)
  {
    ghost predicate LeftOk(a: Addr)
      requires a in live && a in home
    {
      var l := live[a].left;
      if l == 0 then a == home[a]
      else l in live && l in home && home[l] == home[a] && l + live[l].total == a && live[l].right == a
    }

    ghost predicate RightOk(a: Addr)
      requires a in live && a in home && home[a] in regions
    {
      var r := live[a].right;
      if r == 0 then a + live[a].total == home[a] + regions[home[a]].size
      else r == a + live[a].total && r in live && r in home && home[r] == home[a] && live[r].left == a
    }

    ghost predicate BlockOk(a: Addr)
      requires a in live
    {
      && a in home && home[a] in regions
      && (var d, b, r := live[a], home[a], regions[home[a]];
          && 0 < b <= a && a + d.total <= b + r.size
          && DESC_SIZE <= d.total && d.size == d.total - DESC_SIZE && d.index == r.index && d.kind != INVALID_CHUNK
          && (d.kind == HUGE_CHUNK <==> r.huge) && (r.huge ==> a == b && d.total == r.size))
      && LeftOk(a) && RightOk(a)
    }

    ghost predicate Apart(a: Addr, b: Addr)
    {
      a in live && (a < b ==> a + live[a].total <= b)
    }

    ghost predicate RegionOk(b: Addr)
    {
      b in live && b in home && home[b] == b && b in regions && b + regions[b].size <= WORD
    }

    ghost predicate RegionsApart(b: Addr, c: Addr)
    {
      b in regions && (b < c ==> b + regions[b].size <= c)
    }

    /** Every block is linked to its neighbours, and the blocks of a region leave no gap. */
    ghost predicate Linked()
    {
      && home.Keys == live.Keys
      && (forall a {:trigger BlockOk(a)} | a in live :: BlockOk(a))
      && (forall a, b {:trigger Apart(a, b)} | a in live && b in live :: Apart(a, b))
      && (forall b {:trigger RegionOk(b)} | b in regions :: RegionOk(b))
      && (forall b, c {:trigger RegionsApart(b, c)} | b in regions && c in regions :: RegionsApart(b, c))
    }

    ghost predicate NoFreePair(a: Addr)
      requires a in live
    {
      live[a].kind == FREE_CHUNK && live[a].right in live ==> live[live[a].right].kind != FREE_CHUNK
    }

    /** No two buddies are both free. */
    ghost predicate Coalesced()
    {
      forall a {:trigger NoFreePair(a)} | a in live :: NoFreePair(a)
    }
  }

  // ---- the operations of MemoryBlock on the table ----

  function SetKind(t: Table, a: Addr, k: Kind): Table
    requires a in t.live
  {
    t.(live := t.live[a := t.live[a].(kind := k)])
  }

  function SetLeft(live: map<Addr, Desc>, a: Addr, l: Addr): map<Addr, Desc>
  {
    if a in live then live[a := live[a].(left := l)] else live
  }

  /** Block `a` keeps its first `n` bytes; the rest becomes a free block, unless it is too small. */
  function Split(t: Table, a: Addr, n: nat): Table
    requires a in t.live && a in t.home && DESC_SIZE <= n <= t.live[a].total
  {
    var d := t.live[a];
    if d.total - n <= DESC_SIZE then t
    else
      var r, rest := a + n, d.total - n;
      var live := t.live[r := Desc(FREE_CHUNK, d.index, rest - DESC_SIZE, rest, a, d.right)]
                        [a := d.(right := r, size := n - DESC_SIZE, total := n)];
      t.(live := SetLeft(live, d.right, r), home := t.home[r := t.home[a]])
  }

  /** Block `a` takes in its right buddy `r`. */
  function Merge(t: Table, a: Addr, r: Addr): Table
    requires a in t.live && r in t.live
  {
    var d, e := t.live[a], t.live[r];
    var live := SetLeft(t.live, e.right, a);
    t.(live := live[a := d.(right := e.right, size := d.size + e.total, total := d.total + e.total)] - {r},
      home := t.home - {r})
  }

  // ---- they keep the table linked ----

  lemma Facts(t: Table, a: Addr)
    requires t.Linked() && a in t.live
    ensures t.BlockOk(a) && a > 0
    ensures t.live[a].left != 0 ==> t.live[a].left in t.live && t.BlockOk(t.live[a].left)
    ensures t.live[a].right != 0 ==> t.live[a].right in t.live && t.BlockOk(t.live[a].right)
    ensures t.RegionOk(t.home[a]) && a + t.live[a].total <= t.home[a] + t.regions[t.home[a]].size
  {
    assert t.BlockOk(a);
    if t.live[a].left != 0 { assert t.BlockOk(t.live[a].left); }
    if t.live[a].right != 0 { assert t.BlockOk(t.live[a].right); }
    assert t.RegionOk(t.home[a]);
  }

  lemma NoZero(t: Table)
    requires t.Linked()
    ensures 0 !in t.live && 0 !in t.regions
  {
    forall a | a in t.live ensures a > 0 {
      Facts(t, a);
    }
    forall b | b in t.regions ensures b in t.live {
      assert t.RegionOk(b);
    }
  }

  lemma SetKindLinked(t: Table, a: Addr, k: Kind)
    requires t.Linked() && a in t.live && t.live[a].kind != HUGE_CHUNK && k != HUGE_CHUNK && k != INVALID_CHUNK
    ensures SetKind(t, a, k).Linked()
  {
    var t' := SetKind(t, a, k);
    forall b | b in t'.live ensures t'.BlockOk(b) {
      Facts(t, b);
    }
    forall b, c | b in t'.live && c in t'.live ensures t'.Apart(b, c) {
      assert t.Apart(b, c);
    }
    forall b | b in t'.regions ensures t'.RegionOk(b) {
      assert t.RegionOk(b);
    }
    forall b, c | b in t'.regions && c in t'.regions ensures t'.RegionsApart(b, c) {
      assert t.RegionsApart(b, c);
    }
  }

  ghost predicate Splits(t: Table, a: Addr, n: nat)
  {
    && t.Linked() && a in t.live && a in t.home && t.live[a].kind != HUGE_CHUNK
    && DESC_SIZE <= n && n + DESC_SIZE < t.live[a].total
  }

  lemma SplitInside(t: Table, a: Addr, n: nat, b: Addr)
    requires Splits(t, a, n) && b in t.live
    ensures b != a + n && (b <= a || b >= a + t.live[a].total)
    ensures b < a ==> b + t.live[b].total <= a
  {
    assert t.Apart(a, b) && t.Apart(b, a);
  }

  lemma SplitBlock(t: Table, a: Addr, n: nat, b: Addr)
    requires Splits(t, a, n) && b in Split(t, a, n).live
    ensures Split(t, a, n).BlockOk(b)
  {
    Facts(t, a);
    NoZero(t);
    SplitInside(t, a, n, a);
    if b == a || b == a + n {
      SplitSelf(t, a, n);
    } else {
      SplitOther(t, a, n, b);
    }
  }

  lemma SplitSelf(t: Table, a: Addr, n: nat)
    requires Splits(t, a, n)
    ensures Split(t, a, n).BlockOk(a) && Split(t, a, n).BlockOk(a + n)
  {
    Facts(t, a);
    NoZero(t);
    if t.live[a].left != 0 { SplitInside(t, a, n, t.live[a].left); }
    if t.live[a].right != 0 { SplitInside(t, a, n, t.live[a].right); }
  }

  lemma SplitRight(t: Table, a: Addr, n: nat)
    requires Splits(t, a, n) && t.live[a].right != 0
    ensures t.live[a].right in t.live && Split(t, a, n).BlockOk(t.live[a].right)
  {
    Facts(t, a);
    var b := t.live[a].right;
    Facts(t, b);
    SplitInside(t, a, n, b);
    if t.live[b].right != 0 { SplitInside(t, a, n, t.live[b].right); }
  }

  lemma SplitFar(t: Table, a: Addr, n: nat, b: Addr)
    requires Splits(t, a, n) && b in t.live && b != a && b != t.live[a].right
    ensures Split(t, a, n).BlockOk(b)
  {
    Facts(t, b);
    SplitKeeps(t, a, n, b);
    SplitFarLeft(t, a, n, b);
    SplitFarRight(t, a, n, b);
  }

  /** A block away from the split keeps its descriptor. */
  lemma SplitKeeps(t: Table, a: Addr, n: nat, b: Addr)
    requires Splits(t, a, n) && b in t.live && b != a
    ensures var t' := Split(t, a, n);
      (&& b in t'.live && b in t.home && b in t'.home && t'.home[b] == t.home[b] && t'.regions == t.regions
       && (b != t.live[a].right ==> t'.live[b] == t.live[b])
       && t'.live[b] == t.live[b].(left := t'.live[b].left))
  {
    Facts(t, b);
    SplitInside(t, a, n, b);
  }

  lemma SplitFarLeft(t: Table, a: Addr, n: nat, b: Addr)
    requires Splits(t, a, n) && b in t.live && b != a && b != t.live[a].right
    requires b in Split(t, a, n).live && b in Split(t, a, n).home
    ensures Split(t, a, n).LeftOk(b)
  {
    Facts(t, a);
    Facts(t, b);
    SplitKeeps(t, a, n, b);
    var l := t.live[b].left;
    if l != 0 { SplitKeeps(t, a, n, l); }
  }

  lemma SplitFarRight(t: Table, a: Addr, n: nat, b: Addr)
    requires Splits(t, a, n) && b in t.live && b != a && b != t.live[a].right
    requires b in Split(t, a, n).live && b in Split(t, a, n).home && Split(t, a, n).home[b] in Split(t, a, n).regions
    ensures Split(t, a, n).RightOk(b)
  {
    Facts(t, a);
    Facts(t, b);
    SplitKeeps(t, a, n, b);
    SplitInside(t, a, n, a);
    var s := t.live[b].right;
    if s != 0 && s != a { SplitKeeps(t, a, n, s); }
  }

  lemma SplitOther(t: Table, a: Addr, n: nat, b: Addr)
    requires Splits(t, a, n) && b in t.live && b != a
    ensures Split(t, a, n).BlockOk(b)
  {
    NoZero(t);
    if b == t.live[a].right {
      SplitRight(t, a, n);
    } else {
      SplitFar(t, a, n, b);
    }
  }

  lemma SplitApart(t: Table, a: Addr, n: nat, b: Addr, c: Addr)
    requires Splits(t, a, n) && b in Split(t, a, n).live && c in Split(t, a, n).live
    ensures Split(t, a, n).Apart(b, c)
  {
    Facts(t, a);
    SplitInside(t, a, n, a);
    if b in t.live {
      SplitInside(t, a, n, b);
      if c in t.live { assert t.Apart(b, c); }
    }
    if c in t.live { SplitInside(t, a, n, c); }
  }

  lemma RegionsKept(t: Table, t': Table)
    requires t.Linked() && t'.regions == t.regions
    requires forall b | b in t.regions :: b in t.home && b in t'.live && b in t'.home && t'.home[b] == t.home[b]
    ensures forall b {:trigger t'.RegionOk(b)} | b in t'.regions :: t'.RegionOk(b)
    ensures forall b, c {:trigger t'.RegionsApart(b, c)} | b in t'.regions && c in t'.regions :: t'.RegionsApart(b, c)
  {
    forall b | b in t'.regions ensures t'.RegionOk(b) {
      assert t.RegionOk(b);
    }
    forall b, c | b in t'.regions && c in t'.regions ensures t'.RegionsApart(b, c) {
      assert t.RegionsApart(b, c);
    }
  }

  /** Splitting relinks the new block, the block itself and the third neighbour correctly. */
  lemma SplitLinked(t: Table, a: Addr, n: nat)
    requires t.Linked() && a in t.live && a in t.home && t.live[a].kind != HUGE_CHUNK
    requires DESC_SIZE <= n <= t.live[a].total
    ensures Split(t, a, n).Linked()
  {
    if n + DESC_SIZE < t.live[a].total {
      var t' := Split(t, a, n);
      Facts(t, a);
      forall b | b in t'.live ensures t'.BlockOk(b) {
        SplitBlock(t, a, n, b);
      }
      forall b, c | b in t'.live && c in t'.live ensures t'.Apart(b, c) {
        SplitApart(t, a, n, b, c);
      }
      SplitRegions(t, a, n);
      RegionsKept(t, t');
    }
  }

  lemma SplitRegions(t: Table, a: Addr, n: nat)
    requires Splits(t, a, n)
    ensures Split(t, a, n).home.Keys == Split(t, a, n).live.Keys
    ensures forall b | b in t.regions ::
      b in t.home && b in Split(t, a, n).live && b in Split(t, a, n).home && Split(t, a, n).home[b] == t.home[b]
  {
    Facts(t, a);
    forall b | b in t.regions
      ensures b in Split(t, a, n).live && b in Split(t, a, n).home && b in t.home &&
        Split(t, a, n).home[b] == t.home[b] {
      assert t.RegionOk(b);
      SplitInside(t, a, n, b);
    }
  }

  // ---- merge ----

  ghost predicate Merges(t: Table, a: Addr, r: Addr)
  {
    && t.Linked() && a in t.live && r in t.live && t.live[a].right == r && r != 0
    && t.live[a].kind != HUGE_CHUNK
  }

  lemma MergeFacts(t: Table, a: Addr, r: Addr)
    requires Merges(t, a, r)
    ensures r == a + t.live[a].total && a != r && r in t.home && a in t.home && t.home[r] == t.home[a] && r != t.home[a]
    ensures t.live[r].left == a && t.live[r].right != a && t.live[r].right != r && t.live[a].left != r
    ensures t.live[r].kind != HUGE_CHUNK
  {
    Facts(t, a);
    Facts(t, r);
  }

  lemma MergeSelf(t: Table, a: Addr, r: Addr)
    requires Merges(t, a, r)
    ensures a in Merge(t, a, r).live && Merge(t, a, r).BlockOk(a)
  {
    Facts(t, a);
    Facts(t, r);
    MergeFacts(t, a, r);
    NoZero(t);
  }

  lemma MergeThird(t: Table, a: Addr, r: Addr)
    requires Merges(t, a, r) && t.live[r].right != 0
    ensures t.live[r].right in Merge(t, a, r).live && Merge(t, a, r).BlockOk(t.live[r].right)
  {
    Facts(t, a);
    Facts(t, r);
    MergeFacts(t, a, r);
    var b := t.live[r].right;
    Facts(t, b);
    NoZero(t);
  }

  lemma MergeFar(t: Table, a: Addr, r: Addr, b: Addr)
    requires Merges(t, a, r) && b in t.live && b != a && b != r && b != t.live[r].right
    ensures b in Merge(t, a, r).live && Merge(t, a, r).BlockOk(b)
  {
    MergeFacts(t, a, r);
    Facts(t, b);
    MergeKeeps(t, a, r, b);
    MergeFarLeft(t, a, r, b);
    MergeFarRight(t, a, r, b);
  }

  /** A block away from the merge keeps its descriptor. */
  lemma MergeKeeps(t: Table, a: Addr, r: Addr, b: Addr)
    requires Merges(t, a, r) && b in t.live && b != a && b != r
    ensures var t' := Merge(t, a, r);
      (&& b in t'.live && b in t'.home && t'.home[b] == t.home[b] && t'.regions == t.regions
       && (b != t.live[r].right ==> t'.live[b] == t.live[b])
       && t'.live[b] == t.live[b].(left := t'.live[b].left))
  {
    MergeFacts(t, a, r);
    Facts(t, b);
  }

  lemma MergeFarLeft(t: Table, a: Addr, r: Addr, b: Addr)
    requires Merges(t, a, r) && b in t.live && b != a && b != r && b != t.live[r].right
    requires b in Merge(t, a, r).live && b in Merge(t, a, r).home
    ensures Merge(t, a, r).LeftOk(b)
  {
    MergeFacts(t, a, r);
    Facts(t, a);
    Facts(t, r);
    Facts(t, b);
    MergeKeeps(t, a, r, b);
    var l := t.live[b].left;
    if l != 0 { MergeKeeps(t, a, r, l); }
  }

  lemma MergeFarRight(t: Table, a: Addr, r: Addr, b: Addr)
    requires Merges(t, a, r) && b in t.live && b != a && b != r && b != t.live[r].right
    requires b in Merge(t, a, r).live && b in Merge(t, a, r).home && Merge(t, a, r).home[b] in Merge(t, a, r).regions
    ensures Merge(t, a, r).RightOk(b)
  {
    MergeFacts(t, a, r);
    Facts(t, a);
    Facts(t, r);
    Facts(t, b);
    NoZero(t);
    MergeKeeps(t, a, r, b);
    var s := t.live[b].right;
    if s != 0 && s != a { MergeKeeps(t, a, r, s); }
  }

  lemma MergeApart(t: Table, a: Addr, r: Addr, b: Addr, c: Addr)
    requires Merges(t, a, r) && b in Merge(t, a, r).live && c in Merge(t, a, r).live
    ensures Merge(t, a, r).Apart(b, c)
  {
    MergeFacts(t, a, r);
    Facts(t, r);
    assert t.Apart(b, c) && t.Apart(r, c);
  }

  /** Merging relinks the remaining block and the third neighbour correctly. */
  lemma MergeLinked(t: Table, a: Addr, r: Addr)
    requires Merges(t, a, r)
    ensures Merge(t, a, r).Linked()
  {
    var t' := Merge(t, a, r);
    MergeFacts(t, a, r);
    NoZero(t);
    forall b | b in t'.live ensures t'.BlockOk(b) {
      if b == a { MergeSelf(t, a, r); }
      else if b == t.live[r].right { MergeThird(t, a, r); }
      else { MergeFar(t, a, r, b); }
    }
    forall b, c | b in t'.live && c in t'.live ensures t'.Apart(b, c) {
      MergeApart(t, a, r, b, c);
    }
    forall b | b in t.regions ensures b in t.home && b in t'.live && b in t'.home && t'.home[b] == t.home[b] {
      assert t.RegionOk(b);
    }
    RegionsKept(t, t');
  }

  // ---- they undo each other ----

  lemma MergeUndoesSplit(t: Table, a: Addr, n: nat)
    requires Splits(t, a, n)
    ensures a + n in Split(t, a, n).live && Merge(Split(t, a, n), a, a + n) == t
  {
    Facts(t, a);
    NoZero(t);
    SplitInside(t, a, n, a);
    var t', b := Merge(Split(t, a, n), a, a + n), t.live[a].right;
    assert a + n !in t.live by { UnusedInside(t, a, n); }
    assert t'.live[a] == t.live[a];
    if b != 0 { assert t'.live[b] == t.live[b]; }
    assert t'.live == t.live;
    assert t'.home == t.home;
  }

  lemma UnusedInside(t: Table, a: Addr, n: nat)
    requires Splits(t, a, n)
    ensures a + n !in t.live
  {
    if a + n in t.live { SplitInside(t, a, n, a + n); }
  }

  // ---- the tiling ----

  ghost function RegionEnd(t: Table, a: Addr): Addr
    requires t.Linked() && a in t.live
  {
    Facts(t, a);
    t.home[a] + t.regions[t.home[a]].size
  }

  /** The blocks met from `a` on by following `right_buddy`. */
  ghost function Chain(t: Table, a: Addr): seq<Addr>
    requires t.Linked() && a in t.live
    decreases RegionEnd(t, a) - a
  {
    Facts(t, a);
    if t.live[a].right == 0 then [a] else
      assert t.BlockOk(t.live[a].right);
      [a] + Chain(t, t.live[a].right)
  }

  /** `c` lists blocks of region `b` that lie end to end up to the end of the region. */
  ghost predicate TilesFrom(t: Table, b: Addr, a: Addr, c: seq<Addr>)
  {
    && |c| > 0 && c[0] == a
    && (forall i | 0 <= i < |c| :: c[i] in t.live && c[i] in t.home && t.home[c[i]] == b)
    && (forall i | 0 <= i < |c| - 1 :: c[i] + t.live[c[i]].total == c[i + 1])
    && b in t.regions && c[|c| - 1] + t.live[c[|c| - 1]].total == b + t.regions[b].size
  }

  lemma {:induction false} ChainFrom(t: Table, a: Addr)
    requires t.Linked() && a in t.live
    ensures a in t.home && TilesFrom(t, t.home[a], a, Chain(t, a))
    decreases RegionEnd(t, a) - a
  {
    Facts(t, a);
    var r := t.live[a].right;
    if r != 0 {
      Facts(t, r);
      ChainFrom(t, r);
    }
  }

  lemma {:induction false} ChainCovers(t: Table, a: Addr, x: Addr)
    requires t.Linked() && a in t.live && x in t.live && a <= x < RegionEnd(t, a)
    ensures x in Chain(t, a)
    decreases RegionEnd(t, a) - a
  {
    Facts(t, a);
    if x != a {
      assert t.Apart(a, x);
      var r := t.live[a].right;
      Facts(t, r);
      ChainCovers(t, r, x);
    }
  }

  /** The blocks of region `b`, followed by `right_buddy` from its base, tile it exactly. */
  lemma RegionTiled(t: Table, b: Addr)
    requires t.Linked() && b in t.regions
    ensures b in t.live && TilesFrom(t, b, b, Chain(t, b))
    ensures forall x :: x in Chain(t, b) <==> x in t.live && x in t.home && t.home[x] == b
  {
    assert t.RegionOk(b);
    ChainFrom(t, b);
    forall x | x in t.live && x in t.home && t.home[x] == b ensures x in Chain(t, b) {
      Facts(t, x);
      ChainCovers(t, b, x);
    }
  }

  /** A region without occupied blocks is one free block over all of it. */
  lemma IdleRegion(t: Table, b: Addr)
    requires t.Linked() && t.Coalesced() && b in t.regions && !t.regions[b].huge
    requires forall a | a in t.live && a in t.home && t.home[a] == b :: t.live[a].kind != ARENA_CHUNK
    ensures b in t.live && DESC_SIZE <= t.regions[b].size
    ensures t.live[b] == Desc(FREE_CHUNK, t.regions[b].index, t.regions[b].size - DESC_SIZE, t.regions[b].size, 0, 0)
  {
    assert t.RegionOk(b);
    Facts(t, b);
    assert t.NoFreePair(b);
  }
}
