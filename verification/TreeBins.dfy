/** Tree bins as linked structures: which chunk sits in which trie slot, and how the link
    fields of the chunks must look. One slot holds the ring of all chunks of one size. */
module TreeBins {
  import opened Rings
  import opened TreeIndex
  import opened Tries

  /** Each occupied slot and its ring of same-size chunks, the trie node first. */
  type Tree = map<Path, seq<Ptr>>

  /** The link fields of tree chunks. */
  datatype Links = Links(fd: Field, bk: Field, child0: Field, child1: Field, parent: Field, index: map<Ptr, nat>)
  {
    ghost predicate Has(e: Ptr)
    {
      e in child0 && e in child1 && e in parent && e in index
    }
  }

  ghost function NodeAt(tr: Tree, p: Path): Ptr
  {
    if p in tr && |tr[p]| > 0 then tr[p][0] else 0
  }

  ghost predicate MemberOk(slot: map<Ptr, Path>, sz: map<Ptr, nat>, p: Path, n: nat, e: Ptr)
  {
    e > 0 && e in slot && slot[e] == p && e in sz && sz[e] == n
  }

  ghost predicate SizeOk(p: Path, n: nat)
  {
    MIN_LARGE_SIZE <= n < SIZE_LIMIT && InBin(n, BinOf(p)) && InRange(p, n)
  }

  /** Slot `p` is occupied, by chunks whose common size its path allows. */
  ghost predicate SlotOk(tr: Tree, slot: map<Ptr, Path>, sz: map<Ptr, nat>, p: Path)
    requires p in tr
  {
    && |tr[p]| > 0
    && tr[p][0] in sz
    && SizeOk(p, sz[tr[p][0]])
    && (p.Step? ==> p.up in tr)
    && forall e {:trigger MemberOk(slot, sz, p, sz[tr[p][0]], e)} | e in tr[p] :: MemberOk(slot, sz, p, sz[tr[p][0]], e)
  }

  ghost predicate Placed(tr: Tree, slot: map<Ptr, Path>, e: Ptr)
    requires e in slot
  {
    slot[e] in tr && e in tr[slot[e]]
  }

  ghost predicate TreeOk(tr: Tree, slot: map<Ptr, Path>, sz: map<Ptr, nat>)
  {
    && (forall p {:trigger SlotOk(tr, slot, sz, p)} | p in tr :: SlotOk(tr, slot, sz, p))
    && (forall e {:trigger Placed(tr, slot, e)} | e in slot :: Placed(tr, slot, e))
  }

  /** The node of slot `p` points at its children and its parent. */
  ghost predicate NodeLinked(l: Links, tr: Tree, p: Path, n: Ptr)
  {
    && l.Has(n) && l.index[n] == BinOf(p)
    && l.child0[n] == NodeAt(tr, Step(p, false))
    && l.child1[n] == NodeAt(tr, Step(p, true))
    && (if p.Step? then l.parent[n] == NodeAt(tr, p.up) else l.parent[n] != 0)
  }

  /** Chunks behind the node of a ring are not in the trie themselves. */
  ghost predicate RestLinked(l: Links, i: nat, e: Ptr)
  {
    l.Has(e) && l.index[e] == i && l.child0[e] == l.child1[e] == l.parent[e] == 0
  }

  ghost predicate RingLinked(l: Links, i: nat, s: seq<Ptr>)
  {
    && Ring(l.fd, l.bk, s)
    && forall k {:trigger RestLinked(l, i, s[k])} | 0 < k < |s| :: RestLinked(l, i, s[k])
  }

  ghost predicate SlotLinked(l: Links, tr: Tree, p: Path)
    requires p in tr
  {
    && RingLinked(l, BinOf(p), tr[p])
    && NodeLinked(l, tr, p, NodeAt(tr, p))
  }

  ghost predicate TreeLinked(l: Links, tr: Tree)
  {
    forall p {:trigger SlotLinked(l, tr, p)} | p in tr :: SlotLinked(l, tr, p)
  }

  /** The size held at slot `p`. */
  ghost function SizeAt(tr: Tree, sz: map<Ptr, nat>, p: Path): nat
  {
    if NodeAt(tr, p) in sz then sz[NodeAt(tr, p)] else 0
  }

  // ---- reading facts off the invariant ----

  lemma NodeFacts(tr: Tree, slot: map<Ptr, Path>, sz: map<Ptr, nat>, p: Path)
    requires TreeOk(tr, slot, sz) && p in tr
    ensures NodeAt(tr, p) > 0 && NodeAt(tr, p) in slot && slot[NodeAt(tr, p)] == p
    ensures NodeAt(tr, p) in sz && SizeOk(p, SizeAt(tr, sz, p))
    ensures p.Step? ==> p.up in tr
  {
    assert SlotOk(tr, slot, sz, p);
    var n := tr[p][0];
    assert MemberOk(slot, sz, p, sz[tr[p][0]], n);
  }

  lemma ChunkFacts(tr: Tree, slot: map<Ptr, Path>, sz: map<Ptr, nat>, e: Ptr)
    requires TreeOk(tr, slot, sz) && e in slot
    ensures e > 0 && slot[e] in tr && e in tr[slot[e]]
    ensures e in sz && sz[e] == SizeAt(tr, sz, slot[e]) && SizeOk(slot[e], sz[e])
  {
    assert Placed(tr, slot, e);
    var p := slot[e];
    assert SlotOk(tr, slot, sz, p);
    assert MemberOk(slot, sz, p, sz[tr[p][0]], e);
  }

  /** Slots are occupied from the root down: nothing hangs below an empty one. */
  lemma {:induction false} AncestorIn(tr: Tree, slot: map<Ptr, Path>, sz: map<Ptr, nat>, p: Path, q: Path)
    requires TreeOk(tr, slot, sz) && q in tr && Under(p, q)
    ensures p in tr
  {
    if q != p {
      assert SlotOk(tr, slot, sz, q);
      AncestorIn(tr, slot, sz, p, q.up);
    }
  }

  // ---- search: where the least fitting size is ----

  /** The leftmost child of slot `p`, as `leftmost_child` selects it. */
  ghost function Leftmost(tr: Tree, p: Path): Path
  {
    Step(p, Step(p, false) !in tr)
  }

  /** Below `p` nothing is smaller than both its node and the least under its leftmost child. */
  lemma LeftmostLeast(tr: Tree, slot: map<Ptr, Path>, sz: map<Ptr, nat>, p: Path, q: Path)
    requires TreeOk(tr, slot, sz) && p in tr && q in tr && Under(p, q) && q != p
    ensures var c := Leftmost(tr, p);
            c in tr && (Under(c, q) || SizeAt(tr, sz, c) < SizeAt(tr, sz, q))
  {
    var c := Leftmost(tr, p);
    UnderChild(p, q);
    if Under(Step(p, false), q) {
      AncestorIn(tr, slot, sz, Step(p, false), q);
    } else {
      AncestorIn(tr, slot, sz, Step(p, true), q);
      NodeFacts(tr, slot, sz, q);
      if !c.right {
        NodeFacts(tr, slot, sz, c);
        LeftBelowRight(p, c, q, SizeAt(tr, sz, c), SizeAt(tr, sz, q));
      }
    }
  }
}
