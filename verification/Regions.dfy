/** Regions come from the system allocator as one block and go back as one block. */
module Regions {
  import opened Words
  import opened BlockTable

  /** What the system allocator answers to a request. */
  datatype Answer = Null | Granted(addr: Addr, index: nat)

  ghost predicate Beside(t: Table, b: Addr, size: nat, c: Addr)
    requires c in t.regions
  {
    b + size <= c || c + t.regions[c].size <= b
  }

  /** A granted region lies in the address space, beside all regions held. */
  ghost predicate Fresh(t: Table, answer: Answer, size: nat)
  {
    answer.Granted? ==>
      && 0 < answer.addr && answer.addr + size <= WORD
      && forall c {:trigger Beside(t, answer.addr, size, c)} | c in t.regions :: Beside(t, answer.addr, size, c)
  }

  function KindOf(r: Region): Kind { if r.huge then HUGE_CHUNK else FREE_CHUNK }

  /** Region `r` at `b` joins the table as one block. */
  function AddRegion(t: Table, b: Addr, r: Region): Table
    requires DESC_SIZE <= r.size
  {
    Table(t.live[b := Desc(KindOf(r), r.index, r.size - DESC_SIZE, r.size, 0, 0)], t.home[b := b], t.regions[b := r])
  }

  function DropRegion(t: Table, b: Addr): Table
  {
    Table(t.live - {b}, t.home - {b}, t.regions - {b})
  }

  ghost predicate Adds(t: Table, b: Addr, r: Region)
  {
    t.Linked() && DESC_SIZE <= r.size && Fresh(t, Granted(b, r.index), r.size)
  }

  /** Every block lies beside a fresh region. */
  lemma BlockBeside(t: Table, b: Addr, r: Region, a: Addr)
    requires Adds(t, b, r) && a in t.live
    ensures b + r.size <= a || a + t.live[a].total <= b
    ensures b != a && t.home[a] != b
  {
    Facts(t, a);
    assert Beside(t, b, r.size, t.home[a]);
  }

  lemma AddedUnused(t: Table, b: Addr, r: Region)
    requires Adds(t, b, r)
    ensures b !in t.live && b !in t.home && b !in t.regions && 0 !in t.live
  {
    NoZero(t);
    if b in t.regions { assert t.RegionOk(b); }
    if b in t.live { BlockBeside(t, b, r, b); }
  }

  lemma AddedBlock(t: Table, b: Addr, r: Region, a: Addr)
    requires Adds(t, b, r) && a in AddRegion(t, b, r).live
    ensures AddRegion(t, b, r).BlockOk(a)
  {
    AddedUnused(t, b, r);
    if a != b {
      Facts(t, a);
      BlockBeside(t, b, r, a);
    }
  }

  lemma AddRegionLinked(t: Table, b: Addr, r: Region)
    requires Adds(t, b, r)
    ensures AddRegion(t, b, r).Linked()
  {
    var t' := AddRegion(t, b, r);
    AddedUnused(t, b, r);
    forall a | a in t'.live ensures t'.BlockOk(a) {
      AddedBlock(t, b, r, a);
    }
    forall a, c | a in t'.live && c in t'.live ensures t'.Apart(a, c) {
      if a in t.live { BlockBeside(t, b, r, a); }
      if c in t.live { BlockBeside(t, b, r, c); }
      if a in t.live && c in t.live { assert t.Apart(a, c); }
    }
    forall a | a in t'.regions ensures t'.RegionOk(a) {
      if a != b { assert t.RegionOk(a); }
    }
    forall a, c | a in t'.regions && c in t'.regions ensures t'.RegionsApart(a, c) {
      if a in t.regions { assert Beside(t, b, r.size, a); }
      if c in t.regions { assert Beside(t, b, r.size, c); }
      if a in t.regions && c in t.regions { assert t.RegionsApart(a, c); }
    }
  }

  lemma AddRegionCoalesced(t: Table, b: Addr, r: Region)
    requires Adds(t, b, r) && t.Coalesced()
    ensures AddRegion(t, b, r).Coalesced()
  {
    var t' := AddRegion(t, b, r);
    AddedUnused(t, b, r);
    forall a | a in t'.live ensures t'.NoFreePair(a) {
      if a != b {
        Facts(t, a);
        assert t.NoFreePair(a);
      }
    }
  }

  // ---- giving a region back ----

  /** The block at `b` is all of its region. */
  ghost predicate Whole(t: Table, b: Addr)
  {
    t.Linked() && b in t.live && b in t.regions && t.live[b].total == t.regions[b].size
  }

  lemma WholeAlone(t: Table, b: Addr, a: Addr)
    requires Whole(t, b) && a in t.live && a != b
    ensures a in t.home && t.home[a] != b && t.live[a].left != b && t.live[a].right != b
  {
    Facts(t, a);
    Facts(t, b);
    assert t.RegionOk(b);
    assert t.Apart(a, b) && t.Apart(b, a);
  }

  lemma DropRegionLinked(t: Table, b: Addr)
    requires Whole(t, b)
    ensures DropRegion(t, b).Linked()
  {
    var t' := DropRegion(t, b);
    forall a | a in t'.live ensures t'.BlockOk(a) {
      Facts(t, a);
      WholeAlone(t, b, a);
    }
    forall a, c | a in t'.live && c in t'.live ensures t'.Apart(a, c) {
      assert t.Apart(a, c);
    }
    forall a | a in t'.regions ensures t'.RegionOk(a) {
      assert t.RegionOk(a);
    }
    forall a, c | a in t'.regions && c in t'.regions ensures t'.RegionsApart(a, c) {
      assert t.RegionsApart(a, c);
    }
  }

  lemma DropRegionCoalesced(t: Table, b: Addr)
    requires Whole(t, b) && t.Coalesced()
    ensures DropRegion(t, b).Coalesced()
  {
    forall a | a in DropRegion(t, b).live ensures DropRegion(t, b).NoFreePair(a) {
      assert t.NoFreePair(a);
    }
  }

  /** A region that comes and goes leaves no trace. */
  lemma DropUndoesAdd(t: Table, b: Addr, r: Region)
    requires Adds(t, b, r)
    ensures Whole(AddRegion(t, b, r), b) && DropRegion(AddRegion(t, b, r), b) == t
  {
    AddRegionLinked(t, b, r);
    AddedUnused(t, b, r);
    assert DropRegion(AddRegion(t, b, r), b).live == t.live;
    assert DropRegion(AddRegion(t, b, r), b).home == t.home;
    assert DropRegion(AddRegion(t, b, r), b).regions == t.regions;
  }
}
