/** MallocState: the bins of free chunks and the arena, updated in place. */
module MallocStates {
  import opened Bitmap
  import opened Words
  import opened Rings
  import opened TreeIndex
  import opened Tries
  import opened TreeBins
  import opened TreeUpdates
  import opened Chunks
  import opened BinIndex
  import opened TreeSearch
  import opened Heap
  import opened HeapViews
  import opened SmallSearch
  import opened Collisions

  class MallocState {
    /** smallmap, treemap, treebins and the link fields of binned chunks. */
    var bins: Index
    /** top, topsize, dv, dvsize and the headers of all chunks. */
    var arena: Arena
    var leastAddr: Ptr

    /** The bins are well formed and agree with the sizes in the chunk headers. */
    ghost predicate BinsOk()
      reads this
    {
      && leastAddr > 0
      && bins.Valid()
      && forall e {:trigger e in bins.binned} | e in bins.binned ::
           e >= leastAddr && e in arena.head && arena.head[e].size == bins.binned[e]
    }

    /** Everything a finished operation leaves behind: the arena is tagged, and the bins hold
        exactly the free chunks other than the designated victim and top. */
    ghost predicate Valid()
      reads this
    {
      && BinsOk() && arena.Valid() && leastAddr <= arena.base
      && bins.binned == arena.Free() - {arena.dv}
    }

    /** The heap as its clients can tell it apart. */
    ghost function View(): View
      reads this
    {
      HeapViews.View(arena.base, arena.end, arena.InUse(), bins.binned, arena.dv, arena.dvsize, arena.top,
        arena.topsize)
    }

    predicate OkAddress(a: Ptr)
      reads this`leastAddr
    {
      a >= leastAddr
    }

    function ChunkSize(p: Ptr): nat
      requires p in arena.head
      reads this`arena
    {
      arena.head[p].size
    }

    // ---- initialisation ----

    predicate IsInitialized()
      reads this`arena
    {
      arena.top != 0
    }

    /** A MallocState whose memory is zeroed. */
    ghost predicate Zeroed()
      reads this
    {
      && leastAddr == 0 && arena.top == 0 && arena.topsize == 0 && arena.dv == 0 && arena.dvsize == 0
      && bins.smallmap == ZERO && bins.treemap == ZERO && bins.treebins == seq(NTREEBINS, i => 0)
      && bins.small == seq(NSMALLBINS, i => []) && bins.tree == map[] && bins.slot == map[] && bins.binned == map[]
    }

    /** The states a client can call Alloc in. */
    ghost predicate Usable()
      reads this
    {
      Valid() || Zeroed()
    }

    /** To Alloc a zeroed state looks like one that has nothing to give. */
    lemma ZeroedFacts()
      requires Zeroed()
      ensures bins.Valid() && bins.binned == map[] && !Valid()
      ensures forall i: nat | i < NSMALLBINS :: !IsMarked(bins.smallmap, i)
    {
      EmptyIndex(bins);
      if Valid() { Positive(arena); }
      forall i: nat | i < NSMALLBINS ensures !IsMarked(bins.smallmap, i) {
        MarkBins(bins.smallmap, i);
        ZeroHasNoBit(bins.smallmap);
      }
    }

    /** Makes every small-bin header point at itself. */
    method InitBins()
      modifies this`bins
      ensures bins == old(bins).(links := bins.links)
      ensures bins.links == old(bins.links).(fd := bins.links.fd, bk := bins.links.bk)
      ensures forall i: nat | i < NSMALLBINS :: var b := SmallBinAt(i);
        b in bins.links.fd && b in bins.links.bk && bins.links.fd[b] == b && bins.links.bk[b] == b
    {
      for i := 0 to NSMALLBINS
        invariant bins == old(bins).(links := bins.links)
        invariant bins.links == old(bins.links).(fd := bins.links.fd, bk := bins.links.bk)
        invariant forall j: nat | j < i :: var b := SmallBinAt(j);
          b in bins.links.fd && b in bins.links.bk && bins.links.fd[b] == b && bins.links.bk[b] == b
      {
        var b := SmallBinAt(i);
        bins := bins.(links := bins.links.(fd := bins.links.fd[b := b], bk := bins.links.bk[b := b]));
      }
    }

    /** The whole of `[p0, p0 + psize0)`, aligned, becomes top. */
    method InitTop(p0: Ptr, psize0: nat)
      requires p0 > 0 && psize0 < SIZE_LIMIT && AlignOffset(p0 + PAYLOAD_OFFSET) < psize0
      requires arena.dv == 0 && arena.dvsize == 0
      modifies this`arena
      ensures arena.Valid() && arena.InUse() == map[] && arena.Free() == map[]
      ensures arena.base == p0 + AlignOffset(p0 + PAYLOAD_OFFSET) && arena.end == p0 + psize0
      ensures p0 <= arena.base < p0 + 16 && arena.base % 16 == 0
      ensures arena.top == arena.base && arena.topsize == arena.end - arena.base
    {
      AlignOffsetLeast(p0 + PAYLOAD_OFFSET);
      var offset := AlignOffset(p0 + PAYLOAD_OFFSET);
      var p, psize := p0 + offset, psize0 - offset;
      arena := arena.(top := p, topsize := psize);
      arena := arena.(head := arena.head[p := TopHead(psize)]);
      arena := arena.(base := p, end := p + psize, starts := {p});
    }

    // ---- small bins ----

    method InsertSmallChunk(p: Ptr, s: nat) returns (threw: bool)
      requires BinsOk() && OkAddress(p) && p !in bins.binned && p in arena.head && ChunkSize(p) == s
      requires MIN_CHUNK_SIZE <= s < MIN_LARGE_SIZE && s % CHUNK_ALIGN == 0
      modifies this`bins
      ensures !threw && BinsOk() && bins.binned == old(bins.binned)[p := s]
      ensures bins.tree == old(bins.tree)
      ensures bins.small == old(bins.small)[SmallIndex(s) := [p] + old(bins.small)[SmallIndex(s)]]
    {
      ghost var y := SmallInserted(bins, p, s);
      SmallInsertion(bins, p, s);
      var i := SmallIndex(s);
      var b := SmallBinAt(i);
      var f := b;
      if !IsMarked(bins.smallmap, i) {
        bins := bins.(smallmap := Mark(bins.smallmap, i));
      } else if OkAddress(bins.links.fd[b]) {
        f := bins.links.fd[b];
      } else {
        return true;
      }
      bins := bins.(links := bins.links.(fd := bins.links.fd[b := p][p := f], bk := bins.links.bk[f := p][p := b]));
      bins := bins.(small := bins.small[i := [p] + bins.small[i]], binned := bins.binned[p := s]);
      assert bins == y;
      threw := false;
    }

    /** Removes the chunk `p` right behind the header `b` of bin `i`. */
    method UnlinkFirstSmallChunk(b: Ptr, p: Ptr, i: nat) returns (threw: bool)
      requires BinsOk() && i < NSMALLBINS && i < |bins.small| && bins.small[i] != []
      requires p == bins.small[i][0] && b == SmallBinAt(i)
      modifies this`bins
      ensures !threw && BinsOk() && p in old(bins.binned) && bins.binned == old(bins.binned) - {p}
      ensures bins.tree == old(bins.tree)
      ensures bins.small == old(bins.small)[i := old(bins.small)[i][1..]]
    {
      ghost var y := SmallRemoved(bins, i, 0);
      SmallRemoval(bins, i, 0);
      FirstSmall(bins, i);
      var f := bins.links.fd[p];
      if b == f {
        bins := bins.(smallmap := Clear(bins.smallmap, i));
      } else if OkAddress(f) && bins.links.bk[f] == p {
        bins := bins.(links := bins.links.(bk := bins.links.bk[f := b], fd := bins.links.fd[b := f]));
      } else {
        return true;
      }
      bins := bins.(small := bins.small[i := bins.small[i][1..]], binned := bins.binned - {p});
      assert bins == y;
      threw := false;
    }

    /** Removes the chunk `p` of size `s` from wherever it is in its bin. */
    method UnlinkSmallChunk(p: Ptr, s: nat) returns (threw: bool)
      requires BinsOk() && p in bins.binned && bins.binned[p] == s < MIN_LARGE_SIZE
      modifies this`bins
      ensures !threw && BinsOk() && bins.binned == old(bins.binned) - {p}
      ensures bins.tree == old(bins.tree)
    {
      var i := SmallIndex(s);
      ghost var k := SmallPosition(bins, p);
      ghost var y := SmallRemoved(bins, i, k);
      SmallRemoval(bins, i, k);
      var f := bins.links.fd[p];
      var b := bins.links.bk[p];
      if f == SmallBinAt(i) || (OkAddress(f) && bins.links.bk[f] == p) {
        if b == f {
          bins := bins.(smallmap := Clear(bins.smallmap, i));
        } else if b == SmallBinAt(i) || (OkAddress(b) && bins.links.fd[b] == p) {
          bins := bins.(links := bins.links.(bk := bins.links.bk[f := b], fd := bins.links.fd[b := f]));
        } else {
          return true;
        }
      } else {
        return true;
      }
      bins := bins.(small := y.small, binned := bins.binned - {p});
      assert bins == y;
      threw := false;
    }

    // ---- tree bins ----

    /** Files the chunk `x` of size `s` in its tree bin. As written, only an empty bin or a chunk
        of the very same size lets it return; a second distinct size in a bin makes it throw. */
    method InsertLargeChunk(x: Ptr, s: nat) returns (threw: bool)
      requires BinsOk() && OkAddress(x) && x !in bins.binned && x in arena.head && ChunkSize(x) == s
      requires MIN_LARGE_SIZE <= s < SIZE_LIMIT && s % CHUNK_ALIGN == 0
      modifies this`bins
      ensures BinsOk()
      ensures threw <==> Collides(old(bins.binned), s)
      ensures !threw ==> bins.binned == old(bins.binned)[x := s]
      ensures !threw && !Occupied(old(bins.binned), ComputeTreeIndex(s)) ==>
        bins.tree == old(bins.tree)[Root(ComputeTreeIndex(s)) := [x]]
      ensures !threw && Occupied(old(bins.binned), ComputeTreeIndex(s)) ==> SecondInRing(old(bins), bins, x)
      ensures threw ==> bins.binned == old(bins.binned) && bins.tree == old(bins.tree)
      ensures threw ==> bins.links.fd == old(bins.links.fd) && bins.links.bk == old(bins.links.bk)
      ensures bins.small == old(bins.small)
    {
      var i := ComputeTreeIndex(s);
      IndexInBin(s);
      TreeMarked(bins, i);
      PrepareLargeChunk(x, i);
      if !IsMarked(bins.treemap, i) {
        RootLargeChunk(x, s, i);
        threw := false;
      } else {
        threw := DescendAndJoin(x, s, i);
      }
    }

    method PrepareLargeChunk(x: Ptr, i: nat)
      requires BinsOk() && x !in bins.binned
      modifies this`bins
      ensures BinsOk() && IsPrepared(bins.links, x, i)
      ensures bins == old(bins).(links := Prepared(old(bins.links), x, i))
    {
      UnbinnedFields(bins, Prepared(bins.links, x, i), x);
      bins := bins.(links := Prepared(bins.links, x, i));
    }

    /** The branch for an empty bin: `x` becomes its root, and its own parent. */
    method RootLargeChunk(x: Ptr, s: nat, i: nat)
      requires BinsOk() && OkAddress(x) && x !in bins.binned && x in arena.head && ChunkSize(x) == s
      requires MIN_LARGE_SIZE <= s < SIZE_LIMIT && s % CHUNK_ALIGN == 0 && i == ComputeTreeIndex(s) < NTREEBINS
      requires !IsMarked(bins.treemap, i)
      requires IsPrepared(bins.links, x, i)
      modifies this`bins
      ensures BinsOk() && bins.binned == old(bins.binned)[x := s] && bins.small == old(bins.small)
      ensures bins.tree == old(bins.tree)[Root(i) := [x]]
    {
      IndexInBin(s);
      TreeMarked(bins, i);
      PreparedOnce(bins.links, x, i);
      ghost var y := LargeRooted(bins, i, x, s);
      LargeRootedOk(bins, i, x, s);
      bins := bins.(treemap := Mark(bins.treemap, i), treebins := bins.treebins[i := x]);
      bins := bins.(links := bins.links.(parent := bins.links.parent[x := bins.treebins[i]],
                                         fd := bins.links.fd[x := x], bk := bins.links.bk[x := x]));
      bins := bins.(tree := y.tree, slot := y.slot, binned := y.binned);
      assert bins.links == y.links;
      assert bins == y;
    }

    /** The descent through an occupied bin, looking for a node of size `s`. */
    method DescendAndJoin(x: Ptr, s: nat, i: nat) returns (threw: bool)
      requires BinsOk() && OkAddress(x) && x !in bins.binned && x in arena.head && ChunkSize(x) == s
      requires MIN_LARGE_SIZE <= s < SIZE_LIMIT && s % CHUNK_ALIGN == 0 && i == ComputeTreeIndex(s) < NTREEBINS
      requires IsMarked(bins.treemap, i)
      requires IsPrepared(bins.links, x, i)
      modifies this`bins
      ensures BinsOk() && bins.small == old(bins.small)
      ensures threw <==> !HasSize(old(bins.binned), s)
      ensures !threw ==> bins.binned == old(bins.binned)[x := s]
      ensures !threw ==> SecondInRing(old(bins), bins, x)
      ensures threw ==> bins == old(bins)
    {
      TreeMarked(bins, i);
      DescendStart(bins, s);
      var t := bins.treebins[i];
      var k := ShiftLeft(s, LeftShift(i));
      ghost var p := Root(i);
      while true
        invariant BinsOk() && bins == old(bins) && arena == old(arena) && leastAddr == old(leastAddr)
        invariant Descended(bins, p, s) && t == NodeAt(bins.tree, p) && k == Register(p, s)
        decreases Width(p)
      {
        SlotBin(bins, p);
        if ChunkSize(t) == s {
          JoinRing(x, s, t, p);
          return false;
        }
        NodeLinks(bins, p);
        DescendStep(bins, p, s);
        var c := if TopBit(k) then bins.links.child1[t] else bins.links.child0[t];
        k := ShiftLeft(k, 1);
        if c != 0 {
          t := c;
          p := Toward(p, s);
        } else if OkAddress(c) {
          // `*C = X` would happen here, but null is below least_addr
          assert false;
        } else {
          NoSuchSize(bins, s);
          return true;
        }
      }
    }

    /** `x` has become the second of its ring, right behind the trie node. */
    static ghost predicate SecondInRing(b: Index, b': Index, x: Ptr)
    {
      && x in b'.slot && b'.slot[x] in b.tree && |b.tree[b'.slot[x]]| > 0
      && var ring := b.tree[b'.slot[x]];
         b'.tree == b.tree[b'.slot[x] := [ring[0], x] + ring[1..]]
    }

    /** The same-size branch: `x` joins the ring of node `t`. */
    method JoinRing(x: Ptr, s: nat, t: Ptr, ghost p: Path)
      requires BinsOk() && OkAddress(x) && x !in bins.binned && x in arena.head && ChunkSize(x) == s
      requires s % CHUNK_ALIGN == 0 && p in bins.tree && t == NodeAt(bins.tree, p) && t in bins.binned
      requires bins.binned[t] == s
      requires IsPrepared(bins.links, x, BinOf(p))
      modifies this`bins
      ensures BinsOk() && bins.binned == old(bins.binned)[x := s] && bins.small == old(bins.small)
      ensures bins.slot == old(bins.slot)[x := p] && |old(bins.tree)[p]| > 0
      ensures bins.tree == old(bins.tree)[p := [t, x] + old(bins.tree)[p][1..]]
    {
      SlotBin(bins, p);
      PreparedOnce(bins.links, x, BinOf(p));
      LargeJoinedOk(bins, p, x, s);
      ghost var y := LargeJoined(bins, p, x, s);
      var f := bins.links.fd[t];
      bins := bins.(links := bins.links.(fd := bins.links.fd[t := x][x := f], bk := bins.links.bk[f := x][x := t],
                                         parent := bins.links.parent[x := 0]));
      bins := bins.(tree := y.tree, slot := y.slot, binned := y.binned);
      assert bins.links == y.links;
      assert bins == y;
    }

    /** The loop of unlink_large_chunk: cuts a leaf off below the lone node `x`, if there is one. */
    method DetachLeaf(x: Ptr) returns (threw: bool, r: Ptr, ghost q: Path)
      requires BinsOk() && x in bins.slot && RingOf(bins, x) == [x]
      modifies this`bins
      ensures !threw
      ensures r == 0 ==> bins == old(bins) && IsLeaf(bins.tree, bins.slot[x])
      ensures r != 0 ==> ReplacementLeaf(old(bins), x, q) && r == NodeAt(old(bins).tree, q)
                         && q.Step? && bins == old(bins).(links := Cut(old(bins), q))
      ensures r != 0 ==> GoesRight(old(bins).tree, old(bins).slot[x], q)
    {
      ghost var p := bins.slot[x];
      LoneNode(bins, x);
      NodeLinks(bins, p);
      var owner, right := x, true;
      r := bins.links.child1[x];
      if r == 0 {
        right := false;
        r := bins.links.child0[x];
      }
      q := Step(p, right);
      if r == 0 {
        return false, r, q;
      }
      DescendFurther(bins, p, p, right);
      while bins.links.child1[r] != 0 || bins.links.child0[r] != 0
        invariant BinsOk() && bins == old(bins) && leastAddr == old(leastAddr)
        invariant q in bins.tree && q.Step? && Under(p, q) && q != p && GoesRight(bins.tree, p, q)
        invariant r == NodeAt(bins.tree, q) && owner == NodeAt(bins.tree, q.up) && right == q.right
        invariant r > 0 && r in bins.binned && r in bins.links.child0 && r in bins.links.child1
        decreases Width(q)
      {
        NodeLinks(bins, q);
        owner := r;
        if bins.links.child1[r] != 0 {
          right := true;
          r := bins.links.child1[r];
        } else {
          right := false;
          r := bins.links.child0[r];
        }
        DescendFurther(bins, p, q, right);
        q := Step(q, right);
      }
      NodeLinks(bins, q);
      if OkAddress(r) {
        bins := bins.(links := SetChild(bins.links, owner, right, 0));
        threw := false;
      } else {
        threw := true;
      }
    }

    /** The second half of unlink_large_chunk: `r`, if any, is linked where `x` was. */
    method PutInPlaceOf(x: Ptr, xp: Ptr, r: Ptr, ghost b: Index) returns (threw: bool)
      requires bins == b.(links := bins.links) && PutReady(b, bins.links, x, r) && xp == bins.links.parent[x]
      requires leastAddr > 0 && forall e | e in b.binned :: e >= leastAddr
      modifies this`bins
      ensures !threw && bins == PutInPlace(b, old(bins.links), x, r)
    {
      ghost var l := bins.links;
      var i := bins.links.index[x];
      if x == bins.treebins[i] {
        bins := bins.(treebins := bins.treebins[i := r]);
        if r == 0 {
          bins := bins.(treemap := Clear(bins.treemap, i));
        }
      } else if OkAddress(xp) {
        bins := bins.(links := SetChild(bins.links, xp, bins.links.child0[xp] != x, r));
      } else {
        return true;
      }
      threw := false;
      if r != 0 {
        threw := AdoptChildren(x, xp, r);
      }
      assert bins.links == PutInPlace(b, l, x, r).links;
    }

    /** `r` takes over the parent `xp` and the children of `x`. */
    method AdoptChildren(x: Ptr, xp: Ptr, r: Ptr) returns (threw: bool)
      requires bins.links.Has(x) && OkAddress(r) && r != x
      requires forall c | c in {bins.links.child0[x], bins.links.child1[x]} :: c == 0 || OkAddress(c)
      modifies this`bins
      ensures var l := old(bins.links);
        !threw && bins == old(bins).(links := l.(
          child0 := Adopt(l.child0, x, r), child1 := Adopt(l.child1, x, r),
          parent := Reparent(Reparent(l.parent[r := xp], l.child0[x], r), l.child1[x], r)))
    {
      if !OkAddress(r) {
        return true;
      }
      bins := bins.(links := bins.links.(parent := bins.links.parent[r := xp]));
      var c0 := bins.links.child0[x];
      if c0 != 0 {
        if !OkAddress(c0) {
          return true;
        }
        bins := bins.(links := bins.links.(child0 := bins.links.child0[r := c0], parent := bins.links.parent[c0 := r]));
      }
      var c1 := bins.links.child1[x];
      if c1 != 0 {
        if !OkAddress(c1) {
          return true;
        }
        bins := bins.(links := bins.links.(child1 := bins.links.child1[r := c1], parent := bins.links.parent[c1 := r]));
      }
      threw := false;
    }

    /** The first half of unlink_large_chunk: `x` leaves its ring, or a leaf is cut off below it.
        `r` is the chunk to put in its place, 0 if there is none. */
    method DetachReplacement(x: Ptr) returns (threw: bool, r: Ptr, ghost q: Path)
      requires BinsOk() && x in bins.slot
      modifies this`bins
      ensures !threw && FieldsOk(old(bins), x) && bins == old(bins).(links := bins.links)
      ensures |RingOf(old(bins), x)| > 1 ==> r == old(bins).links.bk[x] && bins.links == LeaveLinks(old(bins).links, x)
      ensures |RingOf(old(bins), x)| == 1 ==> RingOf(old(bins), x) == [x]
      ensures |RingOf(old(bins), x)| == 1 && r == 0 ==> bins == old(bins) && IsLeaf(bins.tree, bins.slot[x])
      ensures |RingOf(old(bins), x)| == 1 && r != 0 ==>
        ReplacementLeaf(old(bins), x, q) && r == NodeAt(old(bins).tree, q) && q.Step? && bins.links == Cut(old(bins), q)
      ensures |RingOf(old(bins), x)| == 1 && r != 0 ==> GoesRight(old(bins).tree, old(bins).slot[x], q)
    {
      RingFields(bins, x);
      q := bins.slot[x];
      ghost var k := RingPosition(bins, x);
      if bins.links.bk[x] != x {
        var f := bins.links.fd[x];
        r := bins.links.bk[x];
        if OkAddress(f) && bins.links.bk[f] == x && bins.links.fd[r] == x {
          bins := bins.(links := bins.links.(bk := bins.links.bk[f := r], fd := bins.links.fd[r := f]));
          threw := false;
        } else {
          threw := true;
        }
      } else {
        assert RingOf(bins, x) == [x];
        threw, r, q := DetachLeaf(x);
      }
    }

    /** Removes the chunk `x` from its tree bin: out of its ring, or out of the trie with another
        chunk put in its place. None of the checks on the way fails. */
    method UnlinkLargeChunk(x: Ptr) returns (threw: bool)
      requires BinsOk() && x in bins.slot
      modifies this`bins
      ensures !threw && BinsOk() && bins.binned == old(bins.binned) - {x} && bins.small == old(bins.small)
      ensures bins.slot.Keys == old(bins.slot.Keys) - {x}
      ensures LeavesTrie(old(bins), bins, x)
    {
      ghost var b := bins;
      RingFields(b, x);
      var xp := bins.links.parent[x];
      var r;
      ghost var q;
      threw, r, q := DetachReplacement(x);
      ghost var y := UnlinkTarget(b, x, r, q);
      if xp != 0 {
        threw := PutInPlaceOf(x, xp, r, b);
      }
      TrieLeft(b, y, x, r, q);
      bins := bins.(tree := y.tree, slot := y.slot, binned := y.binned);
      assert bins == y;
    }

    static lemma TrieLeft(b: Index, y: Index, x: Ptr, r: Ptr, q: Path)
      requires b.Valid() && x in b.slot && FieldsOk(b, x)
      requires |RingOf(b, x)| > 1 ==> r == b.links.bk[x]
      requires |RingOf(b, x)| == 1 ==> RingOf(b, x) == [x]
      requires |RingOf(b, x)| == 1 && r == 0 ==> IsLeaf(b.tree, b.slot[x])
      requires |RingOf(b, x)| == 1 && r != 0 ==>
        ReplacementLeaf(b, x, q) && r == NodeAt(b.tree, q) && GoesRight(b.tree, b.slot[x], q)
      requires y == UnlinkTarget(b, x, r, q)
      ensures LeavesTrie(b, y, x)
    {
      var p, ring, k := b.slot[x], RingOf(b, x), RingPosition(b, x);
      RingFields(b, x);
      if |ring| > 1 {
        assert SlotLinked(b.links, b.tree, p);
        if k > 0 {
          assert ring[0] != ring[k];
        } else {
          assert Rotated(Without(ring, 0)) == [ring[|ring| - 1]] + ring[1..|ring| - 1];
        }
      } else if r != 0 {
        LeafBelow(b, p, q);
        assert RightmostLeaf(b.tree, p, q);
      }
    }

    /** A slot with something below it has a child. */
    static lemma LeafBelow(b: Index, p: Path, q: Path)
      requires b.Valid() && q in b.tree && Under(p, q) && q != p
      ensures Step(p, true) in b.tree || Step(p, false) in b.tree
    {
      UnderChild(p, q);
      if Under(Step(p, false), q) {
        AncestorIn(b.tree, b.slot, b.binned, Step(p, false), q);
      } else {
        AncestorIn(b.tree, b.slot, b.binned, Step(p, true), q);
      }
    }

    /** How the tries change when `x` leaves. A chunk behind its node leaves the ring. A node with a
        ring is replaced by the last of the ring. A lone leaf leaves its slot empty. Any other node is
        replaced, with its whole ring, by the leaf that is reached by going right where possible. */
    static ghost predicate LeavesTrie(b: Index, b': Index, x: Ptr)
    {
      && x in b.slot && b.slot[x] in b.tree
      && var p, ring := b.slot[x], b.tree[b.slot[x]];
         if |ring| > 1 && ring[0] != x then
           exists k {:trigger ring[k]} | 0 < k < |ring| && ring[k] == x ::
             b'.tree == b.tree[p := ring[..k] + ring[k + 1..]]
         else if |ring| > 1 then b'.tree == b.tree[p := [ring[|ring| - 1]] + ring[1..|ring| - 1]]
         else if Step(p, true) !in b.tree && Step(p, false) !in b.tree then b'.tree == b.tree - {p}
         else exists q {:trigger RightmostLeaf(b.tree, p, q)} | RightmostLeaf(b.tree, p, q) ::
                b'.tree == (b.tree - {q})[p := b.tree[q]]
    }

    /** `q` is the leaf reached from `p` by going right where possible, else left. */
    static ghost predicate RightmostLeaf(tr: Tree, p: Path, q: Path)
    {
      IsLeaf(tr, q) && q != p && GoesRight(tr, p, q)
    }

    static ghost predicate GoesRight(tr: Tree, p: Path, q: Path)
    {
      q == p || (q.Step? && GoesRight(tr, p, q.up) && (q.right <==> Step(q.up, true) in tr))
    }

    // ---- either kind of bin ----

    method InsertChunk(p: Ptr, s: nat) returns (threw: bool)
      requires BinsOk() && OkAddress(p) && p !in bins.binned && p in arena.head && ChunkSize(p) == s
      requires MIN_CHUNK_SIZE <= s < SIZE_LIMIT && s % CHUNK_ALIGN == 0
      modifies this`bins
      ensures BinsOk()
      ensures threw <==> s >= MIN_LARGE_SIZE && Collides(old(bins.binned), s)
      ensures bins.binned == if threw then old(bins.binned) else old(bins.binned)[p := s]
    {
      if s < MIN_LARGE_SIZE {
        threw := InsertSmallChunk(p, s);
      } else {
        threw := InsertLargeChunk(p, s);
      }
    }

    method UnlinkChunk(p: Ptr, s: nat) returns (threw: bool)
      requires BinsOk() && p in bins.binned && bins.binned[p] == s
      modifies this`bins
      ensures !threw && BinsOk() && bins.binned == old(bins.binned) - {p}
    {
      if s < MIN_LARGE_SIZE {
        threw := UnlinkSmallChunk(p, s);
      } else {
        LargeChunkSlot(bins, p);
        threw := UnlinkLargeChunk(p);
      }
    }

    /** The chunk `p` becomes the designated victim; the old one, known to be small, is binned. */
    method ReplaceDv(p: Ptr, s: nat) returns (threw: bool)
      requires BinsOk() && arena.Valid() && leastAddr <= arena.base
      requires p in arena.Free() && arena.Free()[p] == s && p != arena.dv && arena.dvsize < MIN_LARGE_SIZE
      requires bins.binned == arena.Free() - {arena.dv, p}
      modifies this
      ensures !threw && Valid() && arena == old(arena).(dv := p, dvsize := s) && leastAddr == old(leastAddr)
    {
      var dvs := arena.dvsize;
      threw := false;
      if dvs != 0 {
        var v := arena.dv;
        Facts(arena, v);
        threw := InsertSmallChunk(v, dvs);
      }
      Positive(arena);
      assert bins.binned == arena.Free() - {p};
      WithDv(arena, p, s);
      arena := arena.(dv := p, dvsize := s);
    }

    // ---- best fit in the tree bins ----

    /** `while (t != 0) { if (t fits better) take it; t = leftmost_child(t) }` from slot `c`. */
    method ScanLeftmost(t0: Ptr, i: nat, nb: nat, v0: Ptr, rsize0: nat, ghost c0: Path) returns (v: Ptr, rsize: nat)
      requires BinsOk() && 0 < nb < WORD && BestInBin(bins, i, nb, v0, rsize0)
      requires t0 == NodeAt(bins.tree, c0) && BinOf(c0) == i
      requires Pending(bins, i, nb, rsize0, c0) && (t0 != 0 ==> Fits(bins, nb, rsize0, c0))
      ensures BestInBin(bins, i, nb, v, rsize) && Scanned(bins, i, nb, rsize) && (v == 0 ==> v0 == 0)
    {
      v, rsize := v0, rsize0;
      var t := t0;
      ghost var c := c0;
      SlotNull(bins, c);
      while t != 0
        invariant BestInBin(bins, i, nb, v, rsize) && Pending(bins, i, nb, rsize, c) && BinOf(c) == i
        invariant t == NodeAt(bins.tree, c) && (t == 0 <==> c !in bins.tree)
        invariant t != 0 ==> Fits(bins, nb, rsize, c)
        invariant v == 0 ==> v0 == 0
        decreases Width(c)
      {
        SlotBin(bins, c);
        ScanStep(bins, i, nb, v, rsize, c);
        Remainder(bins, nb, v, rsize, c);
        NodeLinks(bins, c);
        var trem := SubWord(ChunkSize(t), nb);
        if trem < rsize {
          rsize := trem;
          v := t;
        }
        t := if bins.links.child0[t] != 0 then bins.links.child0[t] else bins.links.child1[t];
        c := Leftmost(bins.tree, c);
        SlotNull(bins, c);
      }
    }

    /** The first loop of tmalloc_large: follows the bits of `nb` down bin `i`. */
    method SearchPath(i: nat, nb: nat) returns (t: Ptr, v: Ptr, rsize: nat, ghost c: Path)
      requires BinsOk() && MIN_LARGE_SIZE <= nb < WORD && i == ComputeTreeIndex(nb) < NTREEBINS
      ensures BestInBin(bins, i, nb, v, rsize) && t == NodeAt(bins.tree, c) && BinOf(c) == i
      ensures Pending(bins, i, nb, rsize, c) && (t != 0 ==> Fits(bins, nb, rsize, c))
    {
      v, rsize := 0, WORD - nb;
      ghost var p := Root(i);
      TreeMarked(bins, i);
      SearchStart(bins, nb, p);
      t := bins.treebins[i];
      c := p;
      if t == 0 {
        SlotNull(bins, p);
        SearchEnd(bins, nb, rsize, p, false, p);
        return;
      }
      var sizebits := ShiftLeft(nb, LeftShift(i));
      var rst := 0;
      ghost var rp := p;
      while true
        invariant BestInBin(bins, i, nb, v, rsize) && BinOf(p) == i
        invariant t == NodeAt(bins.tree, p) && t != 0 && p in bins.tree && rsize > 0
        invariant rst != 0 ==> rst == NodeAt(bins.tree, rp)
        invariant Aside(bins, nb, p, rst != 0, rp) && Searching(bins, nb, rsize, p, rst != 0, rp)
        invariant nb < SIZE_LIMIT ==> InRange(p, nb) && sizebits == Register(p, nb)
        decreases Width(p)
      {
        NodeVisit(bins, nb, v, rsize, p);
        var trem := SubWord(ChunkSize(t), nb);
        if trem < rsize {
          v := t;
          rsize := trem;
          if rsize == 0 {
            c := p;
            return;
          }
        }
        var b := TopBit(sizebits);
        if nb < SIZE_LIMIT { DescentBit(bins, p, nb); }
        SearchStep(bins, nb, v, rsize, p, rst != 0, rp, b);
        var rt := bins.links.child1[t];
        t := if b then bins.links.child1[t] else bins.links.child0[t];
        if rt != 0 && rt != t {
          rst := rt;
          rp := Step(p, true);
        }
        p := Step(p, b);
        if t == 0 {
          SearchEnd(bins, nb, rsize, p, rst != 0, rp);
          c := if rst != 0 then rp else p;
          t := rst;
          return;
        }
        sizebits := ShiftLeft(sizebits, 1);
      }
    }

    /** The least chunk of at least `nb` bytes in all tree bins, for a large request. */
    method FindLargeFit(nb: nat) returns (v: Ptr, rsize: nat)
      requires BinsOk() && MIN_LARGE_SIZE <= nb < WORD
      ensures LeastFit(bins, nb, v, rsize)
    {
      var idx := ComputeTreeIndex(nb);
      IndexBelow(nb);
      BinsFrom(bins, nb);
      var t;
      ghost var c;
      t, v, rsize, c := SearchPath(idx, nb);
      if t == 0 && v == 0 {
        NothingPending(bins, idx, nb, c);
        v, rsize := FindInNextBins(idx, nb);
      } else {
        if v == 0 {
          SlotNull(bins, c);
          AsideFits(bins, nb, rsize, c);
        }
        v, rsize := ScanLeftmost(t, idx, nb, v, rsize, c);
        MetSome(bins, idx, nb, v, rsize, t, c);
        LeastOfBin(bins, idx, nb, v, rsize);
      }
    }

    /** The continuation of the search at the next non-empty tree bin. */
    method FindInNextBins(idx: nat, nb: nat) returns (v: Ptr, rsize: nat)
      requires BinsOk() && MIN_LARGE_SIZE <= nb < WORD && idx == ComputeTreeIndex(nb) < NTREEBINS
      requires Scanned(bins, idx, nb, WORD - nb)
      ensures LeastFit(bins, nb, v, rsize)
    {
      BinsFrom(bins, nb);
      SkipBin(bins, idx, nb);
      NextBin(bins, idx);
      v, rsize := 0, WORD - nb;
      var leftbits := And(LeftBits(Idx2Bit(idx)), bins.treemap);
      if leftbits != ZERO {
        var i := Ctz(LeastBit(leftbits));
        LeastOccupiedFrom(bins, idx + 1, i, nb);
        FreshBin(bins, i, nb);
        v, rsize := ScanLeftmost(bins.treebins[i], i, nb, 0, rsize, Root(i));
        if nb < SIZE_LIMIT { CandidateMet(bins, i, nb, v, rsize, Root(i)); }
        LeastOfBin(bins, i, nb, v, rsize);
      } else {
        NothingRight(bins, idx, nb);
      }
    }

    /** The search of tmalloc_small: the least chunk of the first non-empty tree bin. */
    method FindSmallFit(nb: nat) returns (v: Ptr, rsize: nat)
      requires BinsOk() && 0 < nb < MIN_LARGE_SIZE && bins.treemap != ZERO
      ensures v != 0 && LeastFit(bins, nb, v, rsize)
    {
      FirstBin(bins);
      var i := Ctz(LeastBit(bins.treemap));
      FreshBin(bins, i, nb);
      LeastOccupiedFrom(bins, 0, i, nb);
      var t := bins.treebins[i];
      NodeVisit(bins, nb, 0, WORD - nb, Root(i));
      ScanStep(bins, i, nb, 0, WORD - nb, Root(i));
      v := t;
      rsize := SubWord(ChunkSize(t), nb);
      ghost var c := Leftmost(bins.tree, Root(i));
      var first := if bins.links.child0[t] != 0 then bins.links.child0[t] else bins.links.child1[t];
      v, rsize := ScanLeftmost(first, i, nb, v, rsize, c);
      LeastOfBin(bins, i, nb, v, rsize);
    }

    // ---- handing out a chunk ----

    /** The free chunk `p` of size `s` has just left its bin (or was the designated victim). */
    ghost predicate Taken(p: Ptr, s: nat)
      reads this
    {
      && BinsOk() && arena.Valid() && leastAddr <= arena.base
      && p in arena.Free() && arena.Free()[p] == s
      && bins.binned == arena.Free() - {arena.dv, p}
    }

    /** All of `p` is handed out. */
    method HandOutWhole(p: Ptr, s: nat)
      requires Taken(p, s) && p != arena.dv
      modifies this`arena
      ensures Valid() && HandsOut(old(arena), arena, p, s)
      ensures arena.dv == old(arena.dv) && arena.dvsize == old(arena.dvsize) && arena.top == old(arena.top)
      ensures arena.topsize == old(arena.topsize)
    {
      WholeOk(arena, p);
      Facts(arena, p);
      ghost var h := arena;
      arena := arena.SetInuseAndPinuse(p, s);
      assert arena == Whole(h, p);
      StillDv(h, arena);
      assert bins.binned == arena.Free() - {arena.dv};
    }

    /** The first `nb` bytes of `p` are handed out, the remainder is set up as a free chunk. */
    method HandOutFront(p: Ptr, s: nat, nb: nat)
      requires Taken(p, s) && p != arena.dv
      requires MIN_CHUNK_SIZE <= nb && nb % CHUNK_ALIGN == 0 && nb + MIN_CHUNK_SIZE <= s
      modifies this`arena
      ensures Taken(p + nb, s - nb) && p + nb != arena.dv && HandsOut(old(arena), arena, p, nb)
      ensures arena.dv == old(arena.dv) && arena.dvsize == old(arena.dvsize) && arena.top == old(arena.top)
      ensures arena.topsize == old(arena.topsize)
    {
      ghost var h := arena;
      FrontTaken(h, p, nb, bins.binned);
      Positive(h);
      arena := arena.SetInuseChunk(p, nb);
      var r := p + nb;
      arena := arena.SetFreeChunk(r, s - nb);
      arena := arena.(starts := arena.starts + {r});
      assert arena == Split(h, p, nb);
    }

    static lemma FrontTaken(h: Arena, p: Ptr, nb: nat, binned: map<Ptr, nat>)
      requires h.Valid() && Splittable(h, p, nb) && p != h.dv && binned == h.Free() - {h.dv, p}
      ensures var g := Split(h, p, nb);
        (&& g.Valid() && HandsOut(h, g, p, nb) && p + nb in g.Free() && g.Free()[p + nb] == h.head[p].size - nb
         && binned == g.Free() - {g.dv, p + nb} && p + nb != h.dv)
    {
      SplitOk(h, p, nb);
      Positive(h);
      RemainderApart(h, p, nb);
      StillDv(h, Split(h, p, nb));
    }

    /** The tail of a small allocation: a remainder becomes the designated victim. */
    method HandOutSmall(p: Ptr, s: nat, nb: nat) returns (threw: bool)
      requires Taken(p, s) && p != arena.dv && arena.dvsize < MIN_LARGE_SIZE
      requires MIN_CHUNK_SIZE <= nb <= s && nb % CHUNK_ALIGN == 0
      modifies this
      ensures !threw && Valid() && HandsOut(old(arena), arena, p, HandedOut(s, nb))
      ensures arena.dv == (if s - nb < MIN_CHUNK_SIZE then old(arena.dv) else p + nb)
      ensures arena.dvsize == (if s - nb < MIN_CHUNK_SIZE then old(arena.dvsize) else s - nb)
      ensures arena.top == old(arena.top) && arena.topsize == old(arena.topsize) && leastAddr == old(leastAddr)
    {
      var rsize := s - nb;
      threw := false;
      if rsize < MIN_CHUNK_SIZE {
        HandOutWhole(p, s);
      } else {
        HandOutFront(p, s, nb);
        threw := ReplaceDv(p + nb, rsize);
      }
    }

    /** The tail of tmalloc_large: a remainder is filed in a bin, which may throw. */
    method HandOutLarge(p: Ptr, s: nat, nb: nat) returns (threw: bool)
      requires Taken(p, s) && p != arena.dv
      requires MIN_CHUNK_SIZE <= nb <= s && nb % CHUNK_ALIGN == 0
      modifies this
      ensures threw <==> s - nb >= MIN_LARGE_SIZE && Collides(old(bins.binned), s - nb)
      ensures !threw ==> Valid() && HandsOut(old(arena), arena, p, HandedOut(s, nb))
      ensures arena.dv == old(arena.dv) && arena.dvsize == old(arena.dvsize)
      ensures arena.top == old(arena.top) && arena.topsize == old(arena.topsize) && leastAddr == old(leastAddr)
    {
      var rsize := s - nb;
      threw := false;
      if rsize < MIN_CHUNK_SIZE {
        HandOutWhole(p, s);
      } else {
        HandOutFront(p, s, nb);
        FreeFacts(arena, p + nb);
        threw := InsertChunk(p + nb, rsize);
        assert !threw ==> bins.binned == arena.Free() - {arena.dv};
      }
    }

    /** Serves a small request from the smallest tree chunk; the remainder becomes the designated
        victim. */
    method TmallocSmall(nb: nat) returns (threw: bool, mem: Ptr)
      requires Valid() && bins.treemap != ZERO && arena.dvsize < MIN_LARGE_SIZE
      requires MIN_CHUNK_SIZE <= nb < MIN_LARGE_SIZE && nb % CHUNK_ALIGN == 0
      modifies this
      ensures !threw && Valid() && mem > 0 && mem - PAYLOAD_OFFSET in old(bins.binned)
      ensures old(bins.binned)[mem - PAYLOAD_OFFSET] >= MIN_LARGE_SIZE
      ensures LeastLarge(old(bins.binned), old(bins.binned)[mem - PAYLOAD_OFFSET])
      ensures mem - PAYLOAD_OFFSET in old(bins).slot
      ensures NodeAt(old(bins).tree, old(bins).slot[mem - PAYLOAD_OFFSET]) == mem - PAYLOAD_OFFSET
      ensures View() == TakeBinned(old(View()), nb, mem - PAYLOAD_OFFSET)
      ensures var p, s := mem - PAYLOAD_OFFSET, old(bins.binned)[mem - PAYLOAD_OFFSET];
        if s - nb >= 32 then
          && arena.dv == p + nb && arena.dvsize == s - nb
          && (old(arena.dv) != 0 ==> old(arena.dv) in bins.binned && bins.binned[old(arena.dv)] == old(arena.dvsize))
        else arena.dv == old(arena.dv) && arena.dvsize == old(arena.dvsize)
    {
      var v, rsize := FindSmallFit(nb);
      LeastFitSizes(bins, nb, v, rsize);
      LargeFits(bins, v);
      FreeFacts(arena, v);
      if OkAddress(v) && v < v + nb {
        ghost var h := arena;
        threw := UnlinkLargeChunk(v);
        threw := HandOutSmall(v, rsize + nb, nb);
        BinnedView(h, arena, nb, v);
        mem := v + PAYLOAD_OFFSET;
      } else {
        return true, 0;
      }
    }

    /** Takes the tree chunk `v` of size `s` for a large request. */
    method TakeLarge(v: Ptr, s: nat, nb: nat) returns (threw: bool)
      requires Valid() && v in bins.binned && bins.binned[v] == s && s >= MIN_LARGE_SIZE
      requires MIN_LARGE_SIZE <= nb <= s && nb % CHUNK_ALIGN == 0
      modifies this
      ensures threw <==> s - nb >= MIN_LARGE_SIZE && Collides(old(bins.binned) - {v}, s - nb)
      ensures !threw ==> Valid() && View() == TakeBinned(old(View()), nb, v)
    {
      ghost var h := arena;
      LargeChunkSlot(bins, v);
      threw := UnlinkLargeChunk(v);
      assert bins.binned == arena.Free() - {arena.dv, v};
      threw := HandOutLarge(v, s, nb);
      if !threw { BinnedView(h, arena, nb, v); }
    }

    /** Serves a large request from the best fitting tree chunk, unless the designated victim
        fits at least as well; then, or when nothing fits, it returns null. */
    method TmallocLarge(nb: nat) returns (threw: bool, mem: Ptr)
      requires Valid() && MIN_LARGE_SIZE <= nb < WORD && nb % CHUNK_ALIGN == 0
      modifies this
      ensures threw <==> AllocCollides(old(bins.binned), old(arena.dvsize), nb)
      ensures threw ==> mem == 0
      ensures mem == 0 && !threw ==> bins == old(bins) && arena == old(arena) && leastAddr == old(leastAddr)
      ensures mem == 0 && !threw ==>
        NoneFits(bins.binned, nb) || (nb <= arena.dvsize && DvAsGood(bins.binned, nb, arena.dvsize))
      ensures mem != 0 || threw ==> !NoneFits(old(bins.binned), nb)
      ensures mem != 0 ==> TreeServes(old(bins.binned), old(arena.dvsize), nb, mem - PAYLOAD_OFFSET)
      ensures mem != 0 ==> mem - PAYLOAD_OFFSET in old(bins).slot
      ensures mem != 0 ==> NodeAt(old(bins).tree, old(bins).slot[mem - PAYLOAD_OFFSET]) == mem - PAYLOAD_OFFSET
      ensures mem != 0 ==> Valid() && View() == TakeBinned(old(View()), nb, mem - PAYLOAD_OFFSET)
    {
      ghost var binned, dvs := bins.binned, arena.dvsize;
      var v, rsize := FindBetterThanDv(nb);
      if v != 0 {
        if OkAddress(v) && v < v + nb {
          threw := TakeLarge(v, rsize + nb, nb);
          if threw {
            CollisionFound(binned, dvs, nb, v, rsize + nb);
          } else {
            NoCollision(binned, dvs, nb, v, rsize + nb);
          }
          mem := if threw then 0 else v + PAYLOAD_OFFSET;
        } else {
          return true, 0;
        }
      } else {
        NothingTaken(binned, dvs, nb);
        return false, 0;
      }
    }

    /** The search of tmalloc_large: null if nothing fits or the designated victim is as good. */
    method FindBetterThanDv(nb: nat) returns (v: Ptr, rsize: nat)
      requires Valid() && MIN_LARGE_SIZE <= nb < WORD
      ensures v == 0 ==> NoneFits(bins.binned, nb) || (nb <= arena.dvsize && DvAsGood(bins.binned, nb, arena.dvsize))
      ensures v != 0 ==> TreeServes(bins.binned, arena.dvsize, nb, v) && bins.binned[v] == nb + rsize && v >= leastAddr
      ensures v != 0 ==> v in bins.slot && NodeAt(bins.tree, bins.slot[v]) == v
    {
      v, rsize := FindLargeFit(nb);
      LeastFitSizes(bins, nb, v, rsize);
      DvFacts(arena);
      if v != 0 {
        LargeFits(bins, v);
      }
      if !(v != 0 && rsize < SubWord(arena.dvsize, nb)) {
        v := 0;
      }
    }

    /** `p` is a best fit among the binned chunks and beats the designated victim. */
    static ghost predicate TreeServes(binned: map<Ptr, nat>, dvsize: nat, nb: nat, p: Ptr)
    {
      p in binned && IsBestFit(binned, nb, p, binned[p]) && (dvsize < nb || binned[p] < dvsize)
    }
  }
}
