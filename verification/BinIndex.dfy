/** The index of free chunks kept by MallocState: small-bin rings under `smallmap`, tree
    bins under `treemap`. `binned` is its abstract value: each binned chunk and its size. */
module BinIndex {
  import opened Bitmap
  import opened Words
  import opened Rings
  import opened TreeIndex
  import opened Tries
  import opened TreeBins
  import opened TreeUpdates
  import opened Chunks

  const NSMALLBINS := 32

  function SmallIndex(s: nat): nat { s / 8 }

  /** The address of the header of small bin `i`. */
  function SmallBinAt(i: nat): Ptr { -1 - i }

  datatype Index = Index(
    smallmap: Word, treemap: Word, treebins: seq<Ptr>, links: Links,
    ghost small: seq<seq<Ptr>>, ghost tree: Tree, ghost slot: map<Ptr, Path>, ghost binned: map<Ptr, nat>)
  {
    /** A marked small bin is the ring of its chunks, all of the bin's size. */
    ghost predicate SmallBinOk(i: nat)
      requires i < |small|
    {
      && (i in Bins(smallmap) <==> small[i] != [])
      && (small[i] != [] ==> Ring(links.fd, links.bk, [SmallBinAt(i)] + small[i]))
      && forall e | e in small[i] :: e > 0 && e in binned && binned[e] == 8 * i
    }

    ghost predicate SmallOk()
    {
      && |small| == NSMALLBINS
      && forall i: nat {:trigger SmallBinOk(i)} | i < NSMALLBINS :: SmallBinOk(i)
    }

    /** A tree bin is marked when its root slot is occupied, and then holds the root node. */
    ghost predicate TreeBinOk(i: nat)
      requires i < |treebins|
    {
      && treebins[i] == NodeAt(tree, Root(i))
      && (i in Bins(treemap) <==> Root(i) in tree)
    }

    ghost predicate TreesOk()
    {
      && |treebins| == NTREEBINS
      && TreeOk(tree, slot, binned)
      && TreeLinked(links, tree)
      && forall i: nat {:trigger TreeBinOk(i)} | i < NTREEBINS :: TreeBinOk(i)
    }

    /** Every binned chunk is in the one bin its size maps to. */
    ghost predicate Filed(e: Ptr)
      requires e in binned && |small| == NSMALLBINS
    {
      && MIN_CHUNK_SIZE <= binned[e] && binned[e] % 16 == 0
      && if binned[e] < MIN_LARGE_SIZE then e in small[SmallIndex(binned[e])] else e in slot
    }

    ghost predicate Together(d: Ptr, e: Ptr)
      requires d in slot && e in slot
    {
      d in binned && e in binned && binned[d] == binned[e] ==> slot[d] == slot[e]
    }

    /** All tree chunks of one size share a slot. */
    ghost predicate OneSlotPerSize()
    {
      forall d, e {:trigger Together(d, e)} | d in slot && e in slot :: Together(d, e)
    }

    ghost predicate Valid()
    {
      && SmallOk()
      && TreesOk()
      && OneSlotPerSize()
      && forall e {:trigger Filed(e)} | e in binned :: Filed(e)
    }
  }

  // ---- frames: the two kinds of bins do not share chunks ----

  lemma TreeFrame(l: Links, l': Links, tr: Tree, slot: map<Ptr, Path>, sz: map<Ptr, nat>)
    requires TreeOk(tr, slot, sz) && TreeLinked(l, tr)
    requires forall e | e in slot :: AgreeAt(l, l', e)
    ensures TreeLinked(l', tr)
  {
    forall q | q in tr ensures SlotLinked(l', tr, q) {
      assert SlotLinked(l, tr, q);
      LocatedIn(tr, slot, sz, q);
      forall k | 0 <= k < |tr[q]| ensures AgreeAt(l, l', tr[q][k]) {
        assert tr[q][k] in tr[q];
      }
      SlotFrame(l, l', tr, tr, q);
    }
  }

  /** Chunks of a large size added to or taken from `sz` leave the trees' sizes alone. */
  lemma TreeSizesFrame(tr: Tree, slot: map<Ptr, Path>, sz: map<Ptr, nat>, sz': map<Ptr, nat>)
    requires TreeOk(tr, slot, sz)
    requires forall e | e in slot && e in sz :: e in sz' && sz'[e] == sz[e]
    ensures TreeOk(tr, slot, sz')
  {
    forall q | q in tr ensures SlotOk(tr, slot, sz', q) {
      assert SlotOk(tr, slot, sz, q);
      InSlot(tr, slot, sz, q, tr[q][0]);
      forall e | e in tr[q] ensures MemberOk(slot, sz', q, sz'[tr[q][0]], e) {
        InSlot(tr, slot, sz, q, e);
      }
    }
    forall e | e in slot ensures Placed(tr, slot, e) {
    }
  }

  // ---- small bins ----

  /** insert_small_chunk: `p` goes right behind the header. */
  ghost function SmallInserted(x: Index, p: Ptr, s: nat): Index
    requires x.Valid() && SmallIndex(s) < NSMALLBINS
  {
    var i := SmallIndex(s);
    var b := SmallBinAt(i);
    var f := if IsMarked(x.smallmap, i) && b in x.links.fd then x.links.fd[b] else b;
    x.(smallmap := if IsMarked(x.smallmap, i) then x.smallmap else Mark(x.smallmap, i),
       links := x.links.(fd := x.links.fd[b := p][p := f], bk := x.links.bk[f := p][p := b]),
       small := x.small[i := [p] + x.small[i]],
       binned := x.binned[p := s])
  }

  lemma SmallFacts(x: Index, i: nat)
    requires x.Valid() && i < NSMALLBINS
    ensures IsMarked(x.smallmap, i) <==> x.small[i] != []
    ensures x.small[i] != [] ==>
      var r := [SmallBinAt(i)] + x.small[i];
      Ring(x.links.fd, x.links.bk, r) && Linked(x.links.fd, x.links.bk, r, 0) &&
        x.links.fd[SmallBinAt(i)] == x.small[i][0]
    ensures forall e | e in x.small[i] :: e > 0 && e in x.binned && x.binned[e] == 8 * i && e !in x.slot
  {
    assert x.SmallBinOk(i);
    MarkBins(x.smallmap, i);
    var r := [SmallBinAt(i)] + x.small[i];
    if x.small[i] != [] {
      assert Linked(x.links.fd, x.links.bk, r, 0);
    }
    forall e | e in x.small[i] && e in x.slot ensures false {
      ChunkFacts(x.tree, x.slot, x.binned, e);
    }
  }

  /** The small part only depends on the list fields of headers and small chunks. */
  lemma SmallBinFrame(x: Index, y: Index, i: nat)
    requires x.Valid() && i < NSMALLBINS && |y.small| == NSMALLBINS && y.small[i] == x.small[i]
    requires i in Bins(y.smallmap) <==> i in Bins(x.smallmap)
    requires forall e | e in x.small[i] && e in x.binned :: e in y.binned && y.binned[e] == x.binned[e]
    requires forall e | e in [SmallBinAt(i)] + x.small[i] ::
      && (e in x.links.fd ==> e in y.links.fd && y.links.fd[e] == x.links.fd[e])
      && (e in x.links.bk ==> e in y.links.bk && y.links.bk[e] == x.links.bk[e])
    ensures y.SmallBinOk(i)
  {
    assert x.SmallBinOk(i);
    if x.small[i] != [] {
      RingFrame(x.links.fd, x.links.bk, y.links.fd, y.links.bk, [SmallBinAt(i)] + x.small[i]);
    }
  }

  /** A list field changed at most for the ring of bin `i` and for `p`. */
  ghost predicate ChangedOnlyAt(f: Field, f': Field, ring: seq<Ptr>, p: Ptr)
  {
    forall k | k in f && k !in ring && k != p :: k in f' && f'[k] == f[k]
  }

  /** `y` differs from `x` only in small bin `i` and in the chunk `p`. */
  ghost predicate SmallStep(x: Index, y: Index, i: nat, p: Ptr)
    requires x.Valid() && i < NSMALLBINS
  {
    && y.treemap == x.treemap && y.treebins == x.treebins && y.tree == x.tree && y.slot == x.slot
    && y.links == x.links.(fd := y.links.fd, bk := y.links.bk)
    && ChangedOnlyAt(x.links.fd, y.links.fd, [SmallBinAt(i)] + x.small[i], p)
    && ChangedOnlyAt(x.links.bk, y.links.bk, [SmallBinAt(i)] + x.small[i], p)
    && |y.small| == NSMALLBINS
    && (forall j | 0 <= j < NSMALLBINS && j != i ::
       y.small[j] == x.small[j] && (j in Bins(y.smallmap) <==> j in Bins(x.smallmap)))
    && y.binned - {p} == x.binned - {p}
    && p > 0 && p !in x.slot
    && (forall j | 0 <= j < NSMALLBINS && j != i :: p !in x.small[j])
  }

  lemma SmallStepTrees(x: Index, y: Index, i: nat, p: Ptr)
    requires x.Valid() && i < NSMALLBINS && SmallStep(x, y, i, p)
    ensures y.TreesOk()
  {
    SmallFacts(x, i);
    forall e | e in x.slot ensures AgreeAt(x.links, y.links, e) {
      ChunkFacts(x.tree, x.slot, x.binned, e);
    }
    TreeFrame(x.links, y.links, x.tree, x.slot, x.binned);
    forall e | e in x.slot && e in x.binned ensures e in y.binned && y.binned[e] == x.binned[e] {
      assert (y.binned - {p})[e] == (x.binned - {p})[e];
    }
    TreeSizesFrame(x.tree, x.slot, x.binned, y.binned);
    forall j: nat | j < NTREEBINS ensures y.TreeBinOk(j) {
      assert x.TreeBinOk(j);
    }
  }

  lemma SmallStepBins(x: Index, y: Index, i: nat, p: Ptr, j: nat)
    requires x.Valid() && i < NSMALLBINS && SmallStep(x, y, i, p) && j < NSMALLBINS && j != i
    ensures y.SmallBinOk(j)
  {
    SmallFacts(x, i);
    SmallFacts(x, j);
    forall e | e in x.small[j] && e in x.binned ensures e in y.binned && y.binned[e] == x.binned[e] {
      assert (y.binned - {p})[e] == (x.binned - {p})[e];
    }
    forall e | e in [SmallBinAt(j)] + x.small[j] ensures e != p && e !in [SmallBinAt(i)] + x.small[i] {
    }
    SmallBinFrame(x, y, j);
  }

  lemma SmallStepSlots(x: Index, y: Index, i: nat, p: Ptr)
    requires x.Valid() && i < NSMALLBINS && SmallStep(x, y, i, p)
    ensures y.OneSlotPerSize()
  {
    forall d, e | d in y.slot && e in y.slot ensures y.Together(d, e) {
      assert x.Together(d, e);
      forall k | k in y.slot && k in y.binned ensures k in x.binned && x.binned[k] == y.binned[k] {
        assert k in y.binned - {p} && (y.binned - {p})[k] == (x.binned - {p})[k];
      }
    }
  }

  lemma SmallStepValid(x: Index, y: Index, i: nat, p: Ptr)
    requires x.Valid() && i < NSMALLBINS && SmallStep(x, y, i, p)
    requires y.SmallBinOk(i)
    requires forall e | e in x.small[i] && e != p :: e in y.small[i]
    requires p in y.binned ==> y.Filed(p)
    ensures y.Valid()
  {
    SmallStepTrees(x, y, i, p);
    SmallStepSlots(x, y, i, p);
    forall j: nat | j < NSMALLBINS ensures y.SmallBinOk(j) {
      if j != i { SmallStepBins(x, y, i, p, j); }
    }
    forall e | e in y.binned ensures y.Filed(e) {
      if e != p {
        assert e in x.binned - {p} && (y.binned - {p})[e] == (x.binned - {p})[e] by { assert e in y.binned - {p}; }
        assert x.Filed(e);
      }
    }
  }

  lemma UnbinnedPlace(x: Index, p: Ptr)
    requires x.Valid() && p !in x.binned
    ensures p !in x.slot && forall j | 0 <= j < NSMALLBINS :: p !in x.small[j]
  {
    if p in x.slot { ChunkFacts(x.tree, x.slot, x.binned, p); }
    forall j: nat | j < NSMALLBINS ensures p !in x.small[j] {
      SmallFacts(x, j);
    }
  }

  lemma SmallInsertedOk(x: Index, p: Ptr, s: nat)
    requires x.Valid() && p > 0 && p !in x.binned
    requires MIN_CHUNK_SIZE <= s < MIN_LARGE_SIZE && s % 16 == 0
    ensures SmallInserted(x, p, s).Valid()
  {
    var i, y := SmallIndex(s), SmallInserted(x, p, s);
    MarkBins(x.smallmap, i);
    SmallFacts(x, i);
    UnbinnedPlace(x, p);
    SmallInsertedBin(x, p, s);
    SmallInsertedStep(x, p, s);
    SmallStepValid(x, y, i, p);
  }

  lemma SmallInsertedStep(x: Index, p: Ptr, s: nat)
    requires x.Valid() && p > 0 && p !in x.binned && SmallIndex(s) < NSMALLBINS
    ensures SmallStep(x, SmallInserted(x, p, s), SmallIndex(s), p)
  {
    var i := SmallIndex(s);
    MarkBins(x.smallmap, i);
    SmallFacts(x, i);
    UnbinnedPlace(x, p);
  }

  /** What insert_small_chunk may rely on, and what it leaves behind. */
  lemma SmallInsertion(x: Index, p: Ptr, s: nat)
    requires x.Valid() && p > 0 && p !in x.binned
    requires MIN_CHUNK_SIZE <= s < MIN_LARGE_SIZE && s % 16 == 0
    ensures SmallInserted(x, p, s).Valid() && SmallIndex(s) < NSMALLBINS == |x.small|
    ensures IsMarked(x.smallmap, SmallIndex(s)) ==>
      var b := SmallBinAt(SmallIndex(s)); b in x.links.fd && x.links.fd[b] in x.binned
  {
    SmallInsertedOk(x, p, s);
    SmallFacts(x, SmallIndex(s));
  }

  lemma SmallInsertedBin(x: Index, p: Ptr, s: nat)
    requires x.Valid() && p > 0 && p !in x.binned
    requires MIN_CHUNK_SIZE <= s < MIN_LARGE_SIZE && s % 16 == 0
    ensures SmallInserted(x, p, s).SmallBinOk(SmallIndex(s))
  {
    var i, y := SmallIndex(s), SmallInserted(x, p, s);
    MarkBins(x.smallmap, i);
    SmallFacts(x, i);
    SmallInsertedRing(x, p, s);
    assert 8 * i == s;
  }

  lemma SmallInsertedRing(x: Index, p: Ptr, s: nat)
    requires x.Valid() && p > 0 && p !in x.binned && SmallIndex(s) < NSMALLBINS
    ensures var y := SmallInserted(x, p, s);
      Ring(y.links.fd, y.links.bk, [SmallBinAt(SmallIndex(s))] + y.small[SmallIndex(s)])
  {
    var i, y := SmallIndex(s), SmallInserted(x, p, s);
    SmallFacts(x, i);
    UnbinnedPlace(x, p);
    var b := SmallBinAt(i);
    if x.small[i] != [] {
      RingInsert(x.links.fd, x.links.bk, [b] + x.small[i], p);
      assert [b, p] + ([b] + x.small[i])[1..] == [b] + y.small[i];
    } else {
      assert [b] + y.small[i] == [b, p];
      forall k: nat | k < 2 ensures Linked(y.links.fd, y.links.bk, [b, p], k) {
      }
    }
  }

  // ---- removing the chunk at position `k` of small bin `i` ----

  /** Unlinking from a small bin: the bin is cleared when the chunk was its only one. */
  ghost function SmallRemoved(x: Index, i: nat, k: nat): Index
    requires x.Valid() && i < NSMALLBINS && k < |x.small[i]|
  {
    var p := x.small[i][k];
    if |x.small[i]| == 1 || p !in x.links.fd || p !in x.links.bk then
      x.(smallmap := Clear(x.smallmap, i), small := x.small[i := []], binned := x.binned - {p})
    else
      x.(links := LeaveLinks(x.links, p), small := x.small[i := Without(x.small[i], k)], binned := x.binned - {p})
  }

  lemma SmallRemovedFacts(x: Index, i: nat, k: nat)
    requires x.Valid() && i < NSMALLBINS && k < |x.small[i]|
    ensures var p := x.small[i][k];
      (&& p > 0 && p in x.binned && x.binned[p] == 8 * i && p !in x.slot
       && p in x.links.fd && p in x.links.bk
       && (|x.small[i]| == 1 <==> x.links.fd[p] == x.links.bk[p])
       && (x.links.fd[p] == SmallBinAt(i) ||
           (x.links.fd[p] in x.small[i] && x.links.fd[p] in x.links.bk && x.links.bk[x.links.fd[p]] == p))
       && (x.links.bk[p] == SmallBinAt(i) ||
           (x.links.bk[p] in x.small[i] && x.links.bk[p] in x.links.fd && x.links.fd[x.links.bk[p]] == p)))
  {
    SmallFacts(x, i);
    var r := [SmallBinAt(i)] + x.small[i];
    assert r[k + 1] == x.small[i][k] && x.small[i][k] in x.small[i];
    RingNeighbours(x.links.fd, x.links.bk, r, k + 1);
  }

  /** What unlinking from a small bin may rely on, and what it leaves behind. */
  lemma SmallRemoval(x: Index, i: nat, k: nat)
    requires x.Valid() && i < NSMALLBINS && k < |x.small[i]|
    ensures SmallRemoved(x, i, k).Valid() && SmallRemoved(x, i, k).binned == x.binned - {x.small[i][k]}
    ensures k == 0 ==> SmallRemoved(x, i, k).small == x.small[i := x.small[i][1..]]
    ensures var p, l := x.small[i][k], x.links;
      (&& p in x.binned && p in l.fd && p in l.bk && (|x.small[i]| == 1 <==> l.fd[p] == l.bk[p])
       && (l.fd[p] == SmallBinAt(i) || (l.fd[p] in x.binned && l.fd[p] in l.bk && l.bk[l.fd[p]] == p))
       && (l.bk[p] == SmallBinAt(i) || (l.bk[p] in x.binned && l.bk[p] in l.fd && l.fd[l.bk[p]] == p)))
  {
    SmallRemovedFacts(x, i, k);
    SmallRemovedOk(x, i, k);
    SmallFacts(x, i);
    assert Without(x.small[i], 0) == x.small[i][1..];
  }

  /** Where a small binned chunk is in its bin. */
  ghost function SmallPosition(x: Index, p: Ptr): (k: nat)
    requires x.Valid() && p in x.binned && x.binned[p] < MIN_LARGE_SIZE
    ensures SmallIndex(x.binned[p]) < NSMALLBINS && k < |x.small[SmallIndex(x.binned[p])]|
    ensures x.small[SmallIndex(x.binned[p])][k] == p
  {
    assert x.Filed(p);
    var k: nat :| k < |x.small[SmallIndex(x.binned[p])]| && x.small[SmallIndex(x.binned[p])][k] == p;
    k
  }

  /** The chunk behind the header points back at it, and forward too when it is alone. */
  lemma FirstSmall(x: Index, i: nat)
    requires x.Valid() && i < NSMALLBINS && |x.small[i]| > 0
    ensures var p := x.small[i][0];
      (&& p in x.links.fd && p in x.links.bk && x.links.bk[p] == SmallBinAt(i)
       && (|x.small[i]| == 1 <==> x.links.fd[p] == SmallBinAt(i)))
  {
    SmallFacts(x, i);
    var r := [SmallBinAt(i)] + x.small[i];
    assert r[1] == x.small[i][0];
    assert Linked(x.links.fd, x.links.bk, r, 1);
    if |x.small[i]| > 1 {
      assert r[2] == x.small[i][1];
    }
  }

  lemma SmallRemovedOk(x: Index, i: nat, k: nat)
    requires x.Valid() && i < NSMALLBINS && k < |x.small[i]|
    ensures SmallRemoved(x, i, k).Valid()
  {
    var p, y := x.small[i][k], SmallRemoved(x, i, k);
    MarkBins(x.smallmap, i);
    SmallFacts(x, i);
    SmallRemovedFacts(x, i, k);
    forall j: nat | j < NSMALLBINS && j != i ensures p !in x.small[j] {
      SmallFacts(x, j);
    }
    SmallRemovedBin(x, i, k);
    SmallStepValid(x, y, i, p);
  }

  lemma SmallRemovedBin(x: Index, i: nat, k: nat)
    requires x.Valid() && i < NSMALLBINS && k < |x.small[i]|
    ensures var y := SmallRemoved(x, i, k);
      y.SmallBinOk(i) && (forall e | e in x.small[i] && e != x.small[i][k] :: e in y.small[i])
  {
    var p, y := x.small[i][k], SmallRemoved(x, i, k);
    MarkBins(x.smallmap, i);
    SmallFacts(x, i);
    SmallRemovedFacts(x, i, k);
    if |x.small[i]| > 1 {
      SmallRemovedRing(x, i, k);
    }
  }

  lemma SmallRemovedRing(x: Index, i: nat, k: nat)
    requires x.Valid() && i < NSMALLBINS && k < |x.small[i]| && |x.small[i]| > 1
    requires x.small[i][k] in x.links.fd && x.small[i][k] in x.links.bk
    ensures var y, s := LeaveLinks(x.links, x.small[i][k]), Without(x.small[i], k);
      Ring(y.fd, y.bk, [SmallBinAt(i)] + s) && |s| > 0 &&
        (forall e :: e in s <==> e in x.small[i] && e != x.small[i][k])
  {
    var r := [SmallBinAt(i)] + x.small[i];
    SmallFacts(x, i);
    RingRemove(x.links.fd, x.links.bk, r, k + 1);
    assert Without(r, k + 1) == [SmallBinAt(i)] + Without(x.small[i], k);
    DistinctTail(r);
    assert r[1..] == x.small[i];
    DistinctWithout(x.small[i], k);
  }

  // ---- tree bins ----

  /** `y` differs from `x` only in tree bins and in the chunk `p`. */
  ghost predicate LargeStep(x: Index, y: Index, p: Ptr)
    requires x.Valid()
  {
    && y.smallmap == x.smallmap && y.small == x.small
    && (forall k | k in x.links.fd && k !in x.slot && k != p :: k in y.links.fd && y.links.fd[k] == x.links.fd[k])
    && (forall k | k in x.links.bk && k !in x.slot && k != p :: k in y.links.bk && y.links.bk[k] == x.links.bk[k])
    && y.binned - {p} == x.binned - {p}
    && (forall e | e in x.slot && e != p :: e in y.slot)
    && p > 0 && (forall j | 0 <= j < NSMALLBINS :: p !in x.small[j])
  }

  lemma LargeStepValid(x: Index, y: Index, p: Ptr)
    requires x.Valid() && LargeStep(x, y, p)
    requires y.TreesOk() && y.OneSlotPerSize()
    requires p in y.binned ==> p in y.slot && MIN_LARGE_SIZE <= y.binned[p] && y.binned[p] % 16 == 0
    ensures y.Valid()
  {
    forall j: nat | j < NSMALLBINS ensures y.SmallBinOk(j) {
      LargeStepSmall(x, y, p, j);
    }
    forall e | e in y.binned ensures y.Filed(e) {
      if e != p {
        assert e in x.binned - {p} && (y.binned - {p})[e] == (x.binned - {p})[e] by { assert e in y.binned - {p}; }
        assert x.Filed(e);
      }
    }
  }

  lemma LargeStepSmall(x: Index, y: Index, p: Ptr, j: nat)
    requires x.Valid() && LargeStep(x, y, p) && j < NSMALLBINS
    ensures y.SmallBinOk(j)
  {
    SmallFacts(x, j);
    forall e | e in x.small[j] && e in x.binned ensures e in y.binned && y.binned[e] == x.binned[e] {
      assert e in x.binned - {p};
      assert (y.binned - {p})[e] == (x.binned - {p})[e];
    }
    forall e | e in [SmallBinAt(j)] + x.small[j] ensures e != p && e !in x.slot {
      if e in x.slot { ChunkFacts(x.tree, x.slot, x.binned, e); }
    }
    SmallBinFrame(x, y, j);
  }

  /** A tree chunk is in no small bin. */
  lemma TreeChunkPlace(x: Index, p: Ptr)
    requires x.Valid() && p in x.slot
    ensures p > 0 && forall j | 0 <= j < NSMALLBINS :: p !in x.small[j]
  {
    ChunkFacts(x.tree, x.slot, x.binned, p);
    forall j: nat | j < NSMALLBINS ensures p !in x.small[j] {
      SmallFacts(x, j);
      assert p in x.small[j] ==> p !in x.slot;
    }
  }

  ghost function LargeJoined(x: Index, q: Path, p: Ptr, s: nat): Index
    requires q in x.tree && |x.tree[q]| > 0 && x.tree[q][0] in x.links.fd
  {
    x.(links := JoinLinks(x.links, x.tree[q][0], p, BinOf(q)),
       tree := JoinTree(x.tree, q, p), slot := x.slot[p := q], binned := x.binned[p := s])
  }

  lemma LargeJoinedOk(x: Index, q: Path, p: Ptr, s: nat)
    requires x.Valid() && p > 0 && p !in x.binned && q in x.tree && |x.tree[q]| > 0
    requires s == SizeAt(x.tree, x.binned, q) && s % 16 == 0
    ensures x.tree[q][0] in x.links.fd && LargeJoined(x, q, p, s).Valid()
  {
    UnbinnedPlace(x, p);
    NodeFacts(x.tree, x.slot, x.binned, q);
    JoinOk(x.tree, x.slot, x.binned, q, p, s);
    JoinLinked(x.links, x.tree, x.slot, x.binned, q, p);
    var y := LargeJoined(x, q, p, s);
    assert SlotLinked(x.links, x.tree, q);
    assert Linked(x.links.fd, x.links.bk, x.tree[q], 0);
    InSlot(x.tree, x.slot, x.binned, q, x.links.fd[x.tree[q][0]]);
    forall j: nat | j < NTREEBINS ensures y.TreeBinOk(j) {
      assert x.TreeBinOk(j);
    }
    JoinedSlots(x, q, p, s);
    LargeStepValid(x, y, p);
  }

  lemma JoinedSlots(x: Index, q: Path, p: Ptr, s: nat)
    requires x.Valid() && p !in x.slot && q in x.tree && |x.tree[q]| > 0 && x.tree[q][0] in x.links.fd
    requires s == SizeAt(x.tree, x.binned, q)
    ensures LargeJoined(x, q, p, s).OneSlotPerSize()
  {
    var y, n := LargeJoined(x, q, p, s), NodeAt(x.tree, q);
    NodeFacts(x.tree, x.slot, x.binned, q);
    forall d, e | d in y.slot && e in y.slot ensures y.Together(d, e) {
      if d != p { assert x.Together(d, n); }
      if e != p { assert x.Together(e, n); }
      if d != p && e != p { assert x.Together(d, e); }
    }
  }

  ghost function LargeRooted(x: Index, i: nat, p: Ptr, s: nat): Index
    requires i < NTREEBINS && i < |x.treebins|
  {
    x.(treemap := Mark(x.treemap, i), treebins := x.treebins[i := p], links := RootLinks(x.links, p, i),
       tree := x.tree[Root(i) := [p]], slot := x.slot[p := Root(i)], binned := x.binned[p := s])
  }

  lemma LargeRootedOk(x: Index, i: nat, p: Ptr, s: nat)
    requires x.Valid() && p > 0 && p !in x.binned && MIN_LARGE_SIZE <= s < SIZE_LIMIT && s % 16 == 0
    requires InBin(s, i) && Root(i) !in x.tree
    ensures LargeRooted(x, i, p, s).Valid()
  {
    UnbinnedPlace(x, p);
    RootOk(x.tree, x.slot, x.binned, i, p, s);
    RootLinked(x.links, x.tree, x.slot, x.binned, i, p);
    LargeRootedBins(x, i, p, s);
    RootedSlots(x, i, p, s);
    LargeStepValid(x, LargeRooted(x, i, p, s), p);
  }

  /** A size whose bin is empty is not in any slot. */
  lemma RootedAlone(x: Index, i: nat, s: nat, e: Ptr)
    requires x.Valid() && InBin(s, i) && Root(i) !in x.tree && e in x.slot
    ensures e in x.binned && x.binned[e] != s
  {
    ChunkFacts(x.tree, x.slot, x.binned, e);
    if x.binned[e] == s {
      BinUnique(s, i, BinOf(x.slot[e]));
      UnderRoot(x.slot[e]);
      AncestorIn(x.tree, x.slot, x.binned, Root(i), x.slot[e]);
    }
  }

  lemma RootedSlots(x: Index, i: nat, p: Ptr, s: nat)
    requires x.Valid() && p !in x.slot && InBin(s, i) && i < |x.treebins| && Root(i) !in x.tree
    ensures LargeRooted(x, i, p, s).OneSlotPerSize()
  {
    var y := LargeRooted(x, i, p, s);
    forall d, e | d in y.slot && e in y.slot ensures y.Together(d, e) {
      if d != p { RootedAlone(x, i, s, d); }
      if e != p { RootedAlone(x, i, s, e); }
      if d != p && e != p { assert x.Together(d, e); }
    }
  }

  lemma LargeRootedBins(x: Index, i: nat, p: Ptr, s: nat)
    requires x.Valid() && i < NTREEBINS
    ensures forall j: nat | j < NTREEBINS :: LargeRooted(x, i, p, s).TreeBinOk(j)
  {
    MarkBins(x.treemap, i);
    forall j: nat | j < NTREEBINS ensures LargeRooted(x, i, p, s).TreeBinOk(j) {
      assert x.TreeBinOk(j);
    }
  }

  /** Whatever way `p` leaves its slot, the rest of the index is unaffected. */
  lemma LargeRemovedValid(x: Index, y: Index, p: Ptr)
    requires x.Valid() && p in x.slot
    requires y.smallmap == x.smallmap && y.small == x.small && y.binned == x.binned - {p}
    requires y.slot.Keys == x.slot.Keys - {p}
    requires forall d, e | d in y.slot && e in y.slot && x.slot[d] == x.slot[e] :: y.slot[d] == y.slot[e]
    requires forall k | k in x.links.fd && k !in x.slot :: k in y.links.fd && y.links.fd[k] == x.links.fd[k]
    requires forall k | k in x.links.bk && k !in x.slot :: k in y.links.bk && y.links.bk[k] == x.links.bk[k]
    requires y.TreesOk()
    ensures y.Valid()
  {
    TreeChunkPlace(x, p);
    assert forall e | e in x.slot && e != p :: e in y.slot;
    forall d, e | d in y.slot && e in y.slot ensures y.Together(d, e) {
      assert x.Together(d, e);
    }
    LargeStepValid(x, y, p);
  }

  // ---- tree bins seen through `binned` ----

  /** Some binned chunk has a size that maps to tree bin `i`. */
  ghost predicate Occupied(binned: map<Ptr, nat>, i: nat)
  {
    exists e :: e in binned && MIN_LARGE_SIZE <= binned[e] && ComputeTreeIndex(binned[e]) == i
  }

  ghost predicate HasSize(binned: map<Ptr, nat>, s: nat)
  {
    exists e :: e in binned && binned[e] == s
  }

  /** The sizes insert_large_chunk refuses: the bin holds chunks, but none of this size. */
  ghost predicate Collides(binned: map<Ptr, nat>, s: nat)
  {
    Occupied(binned, ComputeTreeIndex(s)) && !HasSize(binned, s)
  }

  lemma LargeChunkSlot(x: Index, e: Ptr)
    requires x.Valid() && e in x.binned && x.binned[e] >= MIN_LARGE_SIZE
    ensures e in x.slot && x.slot[e] in x.tree && BinOf(x.slot[e]) == ComputeTreeIndex(x.binned[e]) < NTREEBINS
    ensures SizeAt(x.tree, x.binned, x.slot[e]) == x.binned[e] < SIZE_LIMIT
    ensures Root(BinOf(x.slot[e])) in x.tree
  {
    assert x.Filed(e);
    ChunkFacts(x.tree, x.slot, x.binned, e);
    SlotBin(x, x.slot[e]);
    UnderRoot(x.slot[e]);
    AncestorIn(x.tree, x.slot, x.binned, Root(BinOf(x.slot[e])), x.slot[e]);
  }

  lemma SlotBin(x: Index, p: Path)
    requires x.Valid() && p in x.tree
    ensures BinOf(p) == ComputeTreeIndex(SizeAt(x.tree, x.binned, p)) < NTREEBINS
    ensures NodeAt(x.tree, p) in x.binned && SizeOk(p, SizeAt(x.tree, x.binned, p))
    ensures NodeAt(x.tree, p) in x.slot && x.slot[NodeAt(x.tree, p)] == p && NodeAt(x.tree, p) > 0
  {
    NodeFacts(x.tree, x.slot, x.binned, p);
    var n := SizeAt(x.tree, x.binned, p);
    IndexInBin(n);
    BinUnique(n, BinOf(p), ComputeTreeIndex(n));
  }

  lemma TreeMarked(x: Index, i: nat)
    requires x.Valid() && i < NTREEBINS
    ensures |x.treebins| == NTREEBINS && x.treebins[i] == NodeAt(x.tree, Root(i))
    ensures IsMarked(x.treemap, i) <==> Root(i) in x.tree
    ensures IsMarked(x.treemap, i) <==> Occupied(x.binned, i)
    ensures IsMarked(x.treemap, i) <==> x.treebins[i] != 0
    ensures i in Bins(x.treemap) <==> IsMarked(x.treemap, i)
  {
    assert x.TreeBinOk(i);
    MarkBins(x.treemap, i);
    if Root(i) in x.tree {
      SlotBin(x, Root(i));
      assert NodeAt(x.tree, Root(i)) in x.binned;
    }
    if e :| e in x.binned && MIN_LARGE_SIZE <= x.binned[e] && ComputeTreeIndex(x.binned[e]) == i {
      LargeChunkSlot(x, e);
    }
  }

  /** Rewriting the trie fields of a chunk outside the trees changes nothing. */
  lemma UnbinnedFields(x: Index, l: Links, p: Ptr)
    requires x.Valid() && p !in x.binned
    requires l.fd == x.links.fd && l.bk == x.links.bk
    requires forall e | e != p :: TrieAgreeAt(x.links, l, e)
    ensures x.(links := l).Valid()
  {
    var y := x.(links := l);
    UnbinnedPlace(x, p);
    TreeFrame(x.links, l, x.tree, x.slot, x.binned);
    forall j: nat | j < NTREEBINS ensures y.TreeBinOk(j) {
      assert x.TreeBinOk(j);
    }
    forall j: nat | j < NSMALLBINS ensures y.SmallBinOk(j) {
      assert x.SmallBinOk(j);
    }
    forall d, e | d in y.slot && e in y.slot ensures y.Together(d, e) {
      assert x.Together(d, e);
    }
    forall e | e in y.binned ensures y.Filed(e) {
      assert x.Filed(e);
    }
  }

  // ---- the descent of insert_large_chunk ----

  /** A descent for size `s` has reached slot `p`: any slot holding `s` lies at or below it. */
  ghost predicate Descended(x: Index, p: Path, s: nat)
  {
    && p in x.tree && BinOf(p) == ComputeTreeIndex(s) && InRange(p, s)
    && forall q {:trigger SizeAt(x.tree, x.binned, q)} |
         q in x.tree && BinOf(q) == ComputeTreeIndex(s) && SizeAt(x.tree, x.binned, q) == s :: Under(p, q)
  }

  lemma DescendStart(x: Index, s: nat)
    requires x.Valid() && MIN_LARGE_SIZE <= s < SIZE_LIMIT && Root(ComputeTreeIndex(s)) in x.tree
    ensures Descended(x, Root(ComputeTreeIndex(s)), s)
    ensures ShiftLeft(s, LeftShift(ComputeTreeIndex(s))) == Register(Root(ComputeTreeIndex(s)), s)
  {
    var i := ComputeTreeIndex(s);
    IndexInBin(s);
    RegisterStart(s, i);
    forall q | q in x.tree && BinOf(q) == i && SizeAt(x.tree, x.binned, q) == s ensures Under(Root(i), q) {
      UnderRoot(q);
    }
  }

  /** The descent from `p` continues towards `s`, or no slot holds `s`. */
  lemma DescendStep(x: Index, p: Path, s: nat)
    requires x.Valid() && Descended(x, p, s) && SizeAt(x.tree, x.binned, p) != s
    ensures Width(p) > 1 && InRange(Toward(p, s), s) && Width(Toward(p, s)) < Width(p)
    ensures TopBit(Register(p, s)) == Toward(p, s).right
    ensures ShiftLeft(Register(p, s), 1) == Register(Toward(p, s), s)
    ensures if Toward(p, s) in x.tree then Descended(x, Toward(p, s), s)
            else forall q {:trigger SizeAt(x.tree, x.binned, q)} |
                   q in x.tree && BinOf(q) == ComputeTreeIndex(s) :: SizeAt(x.tree, x.binned, q) != s
  {
    NodeFacts(x.tree, x.slot, x.binned, p);
    Halves(p);
    RegisterStep(p, s);
    var c := Toward(p, s);
    forall q | q in x.tree && BinOf(q) == ComputeTreeIndex(s) && SizeAt(x.tree, x.binned, q) == s
      ensures Under(c, q) && c in x.tree
    {
      NodeFacts(x.tree, x.slot, x.binned, q);
      UnderToward(p, q, s);
      AncestorIn(x.tree, x.slot, x.binned, c, q);
    }
  }

  /** When no slot of the bin holds `s`, no binned chunk has that size. */
  lemma NoSuchSize(x: Index, s: nat)
    requires x.Valid() && s >= MIN_LARGE_SIZE
    requires forall q {:trigger SizeAt(x.tree, x.binned, q)} |
               q in x.tree && BinOf(q) == ComputeTreeIndex(s) :: SizeAt(x.tree, x.binned, q) != s
    ensures !HasSize(x.binned, s)
  {
    if e :| e in x.binned && x.binned[e] == s {
      LargeChunkSlot(x, e);
    }
  }

  /** The fields of the node of slot `p`. */
  lemma NodeLinks(x: Index, p: Path)
    requires x.Valid() && p in x.tree
    ensures x.links.Has(NodeAt(x.tree, p)) && x.links.index[NodeAt(x.tree, p)] == BinOf(p)
    ensures x.links.child0[NodeAt(x.tree, p)] == NodeAt(x.tree, Step(p, false))
    ensures x.links.child1[NodeAt(x.tree, p)] == NodeAt(x.tree, Step(p, true))
    ensures x.links.child0[NodeAt(x.tree, p)] != 0 <==> Step(p, false) in x.tree
    ensures x.links.child1[NodeAt(x.tree, p)] != 0 <==> Step(p, true) in x.tree
  {
    assert SlotLinked(x.links, x.tree, p);
    forall b: bool ensures NodeAt(x.tree, Step(p, b)) != 0 <==> Step(p, b) in x.tree {
      if Step(p, b) in x.tree { NodeFacts(x.tree, x.slot, x.binned, Step(p, b)); }
    }
  }

  // ---- taking a chunk out of its tree bin ----

  ghost predicate FieldsOk(x: Index, e: Ptr)
  {
    e in x.links.fd && e in x.links.bk && x.links.Has(e)
  }

  ghost function RingOf(x: Index, e: Ptr): seq<Ptr>
  {
    if e in x.slot && x.slot[e] in x.tree then x.tree[x.slot[e]] else []
  }

  /** Where `e` is in its ring; 0 is the trie node. */
  ghost function RingPosition(x: Index, e: Ptr): (k: nat)
    requires x.Valid() && e in x.slot
    ensures x.slot[e] in x.tree && k < |RingOf(x, e)| && RingOf(x, e)[k] == e
  {
    ChunkFacts(x.tree, x.slot, x.binned, e);
    var k: nat :| k < |RingOf(x, e)| && RingOf(x, e)[k] == e;
    k
  }

  /** The list fields of a tree chunk. */
  lemma RingFields(x: Index, e: Ptr)
    requires x.Valid() && e in x.slot
    ensures FieldsOk(x, e) && e > 0 && e in x.binned
    ensures x.links.bk[e] == e <==> |RingOf(x, e)| == 1
    ensures x.links.fd[e] in x.binned && x.links.fd[e] in x.links.bk && x.links.bk[x.links.fd[e]] == e
    ensures x.links.bk[e] in x.binned && x.links.bk[e] in x.links.fd && x.links.fd[x.links.bk[e]] == e
    ensures x.links.parent[e] == 0 <==> RingPosition(x, e) > 0
    ensures x.links.index[e] == BinOf(x.slot[e]) < NTREEBINS
  {
    ChunkFacts(x.tree, x.slot, x.binned, e);
    var p, k, s := x.slot[e], RingPosition(x, e), RingOf(x, e);
    assert SlotLinked(x.links, x.tree, p);
    assert Linked(x.links.fd, x.links.bk, s, k);
    if |s| > 1 {
      RingNeighbours(x.links.fd, x.links.bk, s, k);
      assert s[k] != s[Before(k, |s|)];
    }
    InSlot(x.tree, x.slot, x.binned, p, x.links.fd[e]);
    InSlot(x.tree, x.slot, x.binned, p, x.links.bk[e]);
    NodeFacts(x.tree, x.slot, x.binned, p);
    if p.Step? { NodeFacts(x.tree, x.slot, x.binned, p.up); }
    if k > 0 { assert RestLinked(x.links, BinOf(p), s[k]); }
  }

  /** `e` is behind its node in the ring: it just leaves. */
  ghost function LargeLeft(x: Index, e: Ptr): Index
    requires x.Valid() && e in x.slot && FieldsOk(x, e)
  {
    x.(links := LeaveLinks(x.links, e),
       tree := x.tree[x.slot[e] := Without(RingOf(x, e), RingPosition(x, e))],
       slot := x.slot - {e}, binned := x.binned - {e})
  }

  lemma LargeLeftOk(x: Index, e: Ptr)
    requires x.Valid() && e in x.slot && RingPosition(x, e) > 0
    ensures FieldsOk(x, e) && LargeLeft(x, e).Valid()
  {
    RingFields(x, e);
    var p, k, s, y := x.slot[e], RingPosition(x, e), RingOf(x, e), LargeLeft(x, e);
    LeaveLinked(x.links, x.tree, x.slot, x.binned, p, k);
    assert SlotLinked(x.links, x.tree, p);
    DistinctWithout(s, k);
    LeaveOk(x.tree, x.slot, x.binned, p, e, Without(s, k));
    forall j: nat | j < NTREEBINS ensures y.TreeBinOk(j) {
      assert x.TreeBinOk(j);
    }
    LeaveFields(x, e);
    LargeRemovedValid(x, y, e);
  }

  /** Joining the ring neighbours of `e` touches tree chunks only. */
  lemma LeaveFields(x: Index, e: Ptr)
    requires x.Valid() && e in x.slot && FieldsOk(x, e)
    ensures var l := LeaveLinks(x.links, e);
      (&& (forall k | k in x.links.fd && k !in x.slot :: k in l.fd && l.fd[k] == x.links.fd[k])
       && (forall k | k in x.links.bk && k !in x.slot :: k in l.bk && l.bk[k] == x.links.bk[k]))
  {
    var p, s, k := x.slot[e], RingOf(x, e), RingPosition(x, e);
    assert SlotLinked(x.links, x.tree, p);
    assert Linked(x.links.fd, x.links.bk, s, k);
    InSlot(x.tree, x.slot, x.binned, p, x.links.fd[e]);
    InSlot(x.tree, x.slot, x.binned, p, x.links.bk[e]);
  }

  // In the remaining cases `e` is a trie node; `l` are the links after its replacement `r`
  // (or 0) has been found and detached.

  /** The second half of unlink_large_chunk: `r` goes where `e` was. */
  ghost function PutInPlace(x: Index, l: Links, e: Ptr, r: Ptr): Index
    requires l.Has(e) && e in x.slot
  {
    var p := x.slot[e];
    var i := BinOf(p);
    x.(treebins := if p.Root? && i < |x.treebins| then x.treebins[i := r] else x.treebins,
       treemap := if p.Root? && r == 0 && i < NBINS then Clear(x.treemap, i) else x.treemap,
       links := if r != 0 then TakePlace(l, e, r, p.Root?, p.Step? && p.right)
                else if p.Root? then l else SetChild(l, l.parent[e], p.right, 0))
  }

  lemma RootBins(x: Index, y: Index, p: Path)
    requires x.Valid() && p in x.tree && BinOf(p) < NTREEBINS
    requires forall j: nat {:trigger Root(j)} | Root(j) != p :: Root(j) in y.tree <==> Root(j) in x.tree
    requires forall j: nat {:trigger Root(j)} | Root(j) != p :: NodeAt(y.tree, Root(j)) == NodeAt(x.tree, Root(j))
    requires y.treebins == if p.Root? then x.treebins[BinOf(p) := NodeAt(y.tree, p)] else x.treebins
    requires y.treemap == if p.Root? && p !in y.tree then Clear(x.treemap, BinOf(p)) else x.treemap
    ensures |y.treebins| == NTREEBINS && forall j: nat {:trigger y.TreeBinOk(j)} | j < NTREEBINS :: y.TreeBinOk(j)
  {
    MarkBins(x.treemap, BinOf(p));
    forall j: nat | j < NTREEBINS ensures y.TreeBinOk(j) {
      assert x.TreeBinOk(j);
    }
  }

  ghost function LargeRotated(x: Index, e: Ptr): Index
    requires x.Valid() && e in x.slot && FieldsOk(x, e) && |RingOf(x, e)| > 1
  {
    PutInPlace(x, LeaveLinks(x.links, e), e, x.links.bk[e]).(
      tree := x.tree[x.slot[e] := Rotated(Without(RingOf(x, e), 0))], slot := x.slot - {e}, binned := x.binned - {e})
  }

  /** The node `e` has ring company: the chunk before it in the ring becomes the node. */
  lemma LargeRotatedOk(x: Index, e: Ptr)
    requires x.Valid() && e in x.slot && RingPosition(x, e) == 0 && |RingOf(x, e)| > 1
    ensures FieldsOk(x, e) && LargeRotated(x, e).Valid()
    ensures Replaceable(LeaveLinks(x.links, e), x.tree[x.slot[e] := [e]], x.slot, x.slot[e], e,
      Rotated(Without(RingOf(x, e), 0)))
  {
    RingFields(x, e);
    var p, l, rr := x.slot[e], LeaveLinks(x.links, e), Rotated(Without(RingOf(x, e), 0));
    RotateReplaceable(x.links, x.tree, x.slot, x.binned, p, e, rr);
    var tr1 := x.tree[p := [e]];
    ReplacedLinked(l, tr1, x.slot, p, e, rr);
    assert tr1[p := rr] == x.tree[p := rr];
    LeaveOk(x.tree, x.slot, x.binned, p, e, rr);
    assert rr[0] in rr;
    var y := LargeRotated(x, e);
    RootBins(x, y, p);
    LeaveFields(x, e);
    LargeRemovedValid(x, y, e);
  }

  /** A leaf `q` below the lone node `e`: the search for a replacement ends there. */
  ghost predicate ReplacementLeaf(x: Index, e: Ptr, q: Path)
  {
    e in x.slot && x.slot[e] in x.tree && x.tree[x.slot[e]] == [e] && Under(x.slot[e], q) && q != x.slot[e] &&
      IsLeaf(x.tree, q)
  }

  ghost function Cut(x: Index, q: Path): Links
    requires q.Step?
  {
    SetChild(x.links, NodeAt(x.tree, q.up), q.right, 0)
  }

  ghost function LargePromoted(x: Index, e: Ptr, q: Path): Index
    requires ReplacementLeaf(x, e, q) && q.Step? && Cut(x, q).Has(e)
  {
    PutInPlace(x, Cut(x, q), e, NodeAt(x.tree, q)).(
      tree := (x.tree - {q})[x.slot[e] := x.tree[q]], slot := Promote(x.slot, e, x.slot[e], q),
        binned := x.binned - {e})
  }

  lemma LeafStep(x: Index, e: Ptr, q: Path)
    requires x.Valid() && ReplacementLeaf(x, e, q)
    ensures q.Step? && Cut(x, q).Has(e) && Cut(x, q).fd == x.links.fd && Cut(x, q).bk == x.links.bk
    ensures Replaceable(Cut(x, q), x.tree - {q}, x.slot, x.slot[e], e, x.tree[q])
    ensures x.tree[q][0] == NodeAt(x.tree, q)
  {
    RingFields(x, e);
    DetachReplaceable(x.links, x.tree, x.slot, x.binned, x.slot[e], e, q);
  }

  /** The node `e` has descendants: a leaf, with its ring, takes its place. */
  lemma LargePromotedOk(x: Index, e: Ptr, q: Path)
    requires x.Valid() && ReplacementLeaf(x, e, q)
    ensures q.Step? && Cut(x, q).Has(e) && LargePromoted(x, e, q).Valid()
  {
    LeafStep(x, e, q);
    RingFields(x, e);
    var p := x.slot[e];
    ReplacedLinked(Cut(x, q), x.tree - {q}, x.slot, p, e, x.tree[q]);
    PromoteOk(x.tree, x.slot, x.binned, p, e, q);
    NodeFacts(x.tree, x.slot, x.binned, q);
    var y := LargePromoted(x, e, q);
    RootBins(x, y, p);
    LargeRemovedValid(x, y, e);
  }

  ghost function LargeDropped(x: Index, e: Ptr): Index
    requires e in x.slot && x.links.Has(e)
  {
    PutInPlace(x, x.links, e, 0).(tree := x.tree - {x.slot[e]}, slot := x.slot - {e}, binned := x.binned - {e})
  }

  /** The node `e` is a lone leaf: its slot becomes empty. */
  lemma LargeDroppedOk(x: Index, e: Ptr)
    requires x.Valid() && e in x.slot && IsLeaf(x.tree, x.slot[e]) && x.tree[x.slot[e]] == [e]
    ensures x.links.Has(e) && LargeDropped(x, e).Valid()
  {
    RingFields(x, e);
    var p := x.slot[e];
    DropLinked(x.links, x.tree, x.slot, x.binned, p);
    DropOk(x.tree, x.slot, x.binned, p, e);
    assert SlotLinked(x.links, x.tree, p);
    var y := LargeDropped(x, e);
    RootBins(x, y, p);
    LargeRemovedValid(x, y, e);
  }

  /** What the second half of unlink_large_chunk reads, and that its checks pass. */
  ghost predicate PutReady(x: Index, l: Links, e: Ptr, r: Ptr)
  {
    && e in x.slot && l.Has(e)
    && (var p, xp, i := x.slot[e], l.parent[e], l.index[e];
        && i == BinOf(p) < NTREEBINS == |x.treebins|
        && xp != 0 && r != e && (r != 0 ==> l.child0[e] != r && l.child1[e] != r)
        && (x.treebins[i] == e <==> p.Root?)
        && (p.Step? ==> xp in x.binned && xp != e && xp != r && l.Has(xp) && (l.child0[xp] == e <==> !p.right))
        && (l.child0[e] == 0 || l.child0[e] in x.binned)
        && (l.child1[e] == 0 || l.child1[e] in x.binned))
    && (r != 0 ==> r in x.binned && l.Has(r))
  }

  lemma RootNode(x: Index, p: Path, e: Ptr)
    requires x.Valid() && p in x.tree && NodeAt(x.tree, p) == e
    ensures BinOf(p) < NTREEBINS == |x.treebins|
    ensures x.treebins[BinOf(p)] == e <==> p.Root?
  {
    SlotBin(x, p);
    UnderRoot(p);
    AncestorIn(x.tree, x.slot, x.binned, Root(BinOf(p)), p);
    assert x.TreeBinOk(BinOf(p));
    SlotBin(x, Root(BinOf(p)));
  }

  /** With a replacement ring at hand. */
  lemma ReplaceableReady(x: Index, l: Links, tr1: Tree, e: Ptr, rr: seq<Ptr>)
    requires x.Valid() && e in x.slot && RingPosition(x, e) == 0
    requires Replaceable(l, tr1, x.slot, x.slot[e], e, rr) && rr[0] in x.binned
    requires forall q | q in tr1 :: q in x.tree && NodeAt(tr1, q) == NodeAt(x.tree, q)
    ensures PutReady(x, l, e, rr[0])
  {
    var p := x.slot[e];
    RootNode(x, p, e);
    assert rr[0] in rr;
    forall q | q in tr1 && q != p
      ensures NodeAt(tr1, q) > 0 && NodeAt(tr1, q) in x.binned && NodeAt(tr1, q) != e && NodeAt(tr1, q) != rr[0] {
      SlotBin(x, q);
    }
    Neighbours(p);
    assert Located(tr1, x.slot, p);
    assert tr1[p] == [e];
    forall b: bool ensures NodeAt(tr1, Step(p, b)) != rr[0] &&
      (NodeAt(tr1, Step(p, b)) == 0 || NodeAt(tr1, Step(p, b)) in x.binned) {
      assert Step(p, b) in tr1 || NodeAt(tr1, Step(p, b)) == 0;
    }
    if p.Step? {
      assert SlotLinked(l, tr1, p.up);
      assert Located(tr1, x.slot, p.up);
      if p.right && Step(p.up, false) in tr1 {
        assert NodeAt(tr1, Step(p.up, false)) != e;
      }
    }
  }

  lemma RotateReady(x: Index, e: Ptr)
    requires x.Valid() && e in x.slot && RingPosition(x, e) == 0 && |RingOf(x, e)| > 1
    ensures FieldsOk(x, e) && PutReady(x, LeaveLinks(x.links, e), e, x.links.bk[e])
  {
    LargeRotatedOk(x, e);
    RingFields(x, e);
    var rr := Rotated(Without(RingOf(x, e), 0));
    RotateReplaceable(x.links, x.tree, x.slot, x.binned, x.slot[e], e, rr);
    ReplaceableReady(x, LeaveLinks(x.links, e), x.tree[x.slot[e] := [e]], e, rr);
  }

  lemma PromoteReady(x: Index, e: Ptr, q: Path)
    requires x.Valid() && ReplacementLeaf(x, e, q)
    ensures q.Step? && PutReady(x, Cut(x, q), e, NodeAt(x.tree, q))
  {
    LeafStep(x, e, q);
    SlotBin(x, q);
    LoneNode(x, e);
    ReplaceableReady(x, Cut(x, q), x.tree - {q}, e, x.tree[q]);
  }

  lemma LoneNode(x: Index, e: Ptr)
    requires x.Valid() && e in x.slot && x.slot[e] in x.tree && x.tree[x.slot[e]] == [e]
    ensures RingPosition(x, e) == 0 && NodeAt(x.tree, x.slot[e]) == e
  {
  }

  lemma DropReady(x: Index, e: Ptr)
    requires x.Valid() && e in x.slot && IsLeaf(x.tree, x.slot[e]) && x.tree[x.slot[e]] == [e]
    ensures PutReady(x, x.links, e, 0)
  {
    var p := x.slot[e];
    LoneNode(x, e);
    RootNode(x, p, e);
    NodeLinks(x, p);
    RingFields(x, e);
    assert SlotLinked(x.links, x.tree, p);
    if p.Step? {
      NodeFacts(x.tree, x.slot, x.binned, p);
      SlotBin(x, p.up);
      NodeLinks(x, p.up);
      Neighbours(p);
      if p.right && Step(p.up, false) in x.tree { SlotBin(x, Step(p.up, false)); }
    }
  }

  /** One step of a walk down the trie. */
  lemma DescendFurther(x: Index, p: Path, q: Path, right: bool)
    requires x.Valid() && q in x.tree && Under(p, q) && Step(q, right) in x.tree
    ensures Under(p, Step(q, right)) && Step(q, right) != p && Width(Step(q, right)) < Width(q)
    ensures NodeAt(x.tree, Step(q, right)) > 0 && NodeAt(x.tree, Step(q, right)) in x.binned
    ensures NodeAt(x.tree, Step(q, right)) in x.links.child0 && NodeAt(x.tree, Step(q, right)) in x.links.child1
  {
    SlotBin(x, q);
    SlotBin(x, Step(q, right));
    NodeLinks(x, Step(q, right));
    Halves(q);
    UnderDepth(p, q);
  }

  /** The four ways a chunk leaves a tree bin. */
  ghost function UnlinkTarget(x: Index, e: Ptr, r: Ptr, q: Path): (y: Index)
    requires x.Valid() && e in x.slot && FieldsOk(x, e)
    requires |RingOf(x, e)| > 1 ==> r == x.links.bk[e]
    requires |RingOf(x, e)| == 1 ==> RingOf(x, e) == [e]
    requires |RingOf(x, e)| == 1 && r == 0 ==> IsLeaf(x.tree, x.slot[e])
    requires |RingOf(x, e)| == 1 && r != 0 ==> ReplacementLeaf(x, e, q) && r == NodeAt(x.tree, q)
    ensures y.Valid() && y.binned == x.binned - {e} && y.small == x.small && y.slot.Keys == x.slot.Keys - {e}
    ensures x.links.parent[e] != 0 ==>
      var l := if |RingOf(x, e)| > 1 then LeaveLinks(x.links, e)
               else if r != 0 && q.Step? then Cut(x, q)
               else x.links;
      PutReady(x, l, e, r) && l.parent[e] == x.links.parent[e] &&
        y == PutInPlace(x, l, e, r).(tree := y.tree, slot := y.slot, binned := y.binned)
    ensures x.links.parent[e] == 0 ==>
      y == x.(links := LeaveLinks(x.links, e), tree := y.tree, slot := y.slot, binned := y.binned)
                                       && |RingOf(x, e)| > 1
  {
    RingFields(x, e);
    if RingPosition(x, e) > 0 then
      LargeLeftOk(x, e);
      LargeLeft(x, e)
    else if |RingOf(x, e)| > 1 then
      LargeRotatedOk(x, e);
      RotateReady(x, e);
      LargeRotated(x, e)
    else if r != 0 then
      LargePromotedOk(x, e, q);
      PromoteReady(x, e, q);
      LargePromoted(x, e, q)
    else
      LargeDroppedOk(x, e);
      DropReady(x, e);
      LargeDropped(x, e)
  }

  /** The index of a zeroed MallocState, whatever its headers point at. */
  lemma EmptyIndex(x: Index)
    requires x.smallmap == ZERO && x.treemap == ZERO && x.treebins == seq(NTREEBINS, i => 0)
    requires x.small == seq(NSMALLBINS, i => []) && x.tree == map[] && x.slot == map[] && x.binned == map[]
    ensures x.Valid()
  {
    assert forall i: nat | i < NSMALLBINS :: i !in Bins(x.smallmap) && i !in Bins(x.treemap);
    forall i: nat | i < NSMALLBINS ensures x.SmallBinOk(i) {
    }
    forall i: nat | i < NTREEBINS ensures x.TreeBinOk(i) {
    }
  }
}
