/** The structural updates of a tree bin: joining a ring, starting a bin, leaving a ring,
    and taking a node out of the trie by putting another chunk in its place. */
module TreeUpdates {
  import opened Rings
  import opened TreeIndex
  import opened Tries
  import opened TreeBins

  function SetChild(l: Links, n: Ptr, right: bool, v: Ptr): Links
  {
    if right then l.(child1 := l.child1[n := v]) else l.(child0 := l.child0[n := v])
  }

  /** The link fields of `e` are the same in `l` and `l'`. */
  ghost predicate AgreeAt(l: Links, l': Links, e: Ptr)
  {
    && (e in l.fd ==> e in l'.fd && l'.fd[e] == l.fd[e])
    && (e in l.bk ==> e in l'.bk && l'.bk[e] == l.bk[e])
    && TrieAgreeAt(l, l', e)
  }

  ghost predicate TrieAgreeAt(l: Links, l': Links, e: Ptr)
  {
    l.Has(e) ==>
      && l'.Has(e) && l'.child0[e] == l.child0[e] && l'.child1[e] == l.child1[e]
      && l'.parent[e] == l.parent[e] && l'.index[e] == l.index[e]
  }

  lemma RingLinkedFrame(l: Links, l': Links, i: nat, s: seq<Ptr>)
    requires RingLinked(l, i, s)
    requires forall k | 0 <= k < |s| ::
      && (s[k] in l.fd ==> s[k] in l'.fd && l'.fd[s[k]] == l.fd[s[k]])
      && (s[k] in l.bk ==> s[k] in l'.bk && l'.bk[s[k]] == l.bk[s[k]])
    requires forall k | 0 < k < |s| :: TrieAgreeAt(l, l', s[k])
    ensures RingLinked(l', i, s)
  {
    RingFrame(l.fd, l.bk, l'.fd, l'.bk, s);
    forall k | 0 < k < |s| ensures RestLinked(l', i, s[k]) {
      assert RestLinked(l, i, s[k]);
    }
  }

  /** A slot whose members and neighbours are untouched stays linked. */
  lemma SlotFrame(l: Links, l': Links, tr: Tree, tr': Tree, p: Path)
    requires p in tr && p in tr' && tr'[p] == tr[p] && |tr[p]| > 0 && SlotLinked(l, tr, p)
    requires forall k | 0 <= k < |tr[p]| :: AgreeAt(l, l', tr[p][k])
    requires NodeAt(tr', Step(p, false)) == NodeAt(tr, Step(p, false))
    requires NodeAt(tr', Step(p, true)) == NodeAt(tr, Step(p, true))
    requires p.Step? ==> NodeAt(tr', p.up) == NodeAt(tr, p.up)
    ensures SlotLinked(l', tr', p)
  {
    assert AgreeAt(l, l', tr[p][0]);
    forall k | 0 <= k < |tr[p]|
      ensures tr[p][k] in l.fd ==> tr[p][k] in l'.fd && l'.fd[tr[p][k]] == l.fd[tr[p][k]]
      ensures tr[p][k] in l.bk ==> tr[p][k] in l'.bk && l'.bk[tr[p][k]] == l.bk[tr[p][k]]
      ensures TrieAgreeAt(l, l', tr[p][k])
    {
      assert AgreeAt(l, l', tr[p][k]);
    }
    RingLinkedFrame(l, l', BinOf(p), tr[p]);
  }

  lemma InSlot(tr: Tree, slot: map<Ptr, Path>, sz: map<Ptr, nat>, p: Path, e: Ptr)
    requires TreeOk(tr, slot, sz) && p in tr && e in tr[p]
    ensures e > 0 && e in slot && slot[e] == p && e in sz && sz[e] == SizeAt(tr, sz, p)
  {
    assert SlotOk(tr, slot, sz, p);
    assert MemberOk(slot, sz, p, sz[tr[p][0]], e);
  }

  lemma ParentIn(tr: Tree, slot: map<Ptr, Path>, sz: map<Ptr, nat>, q: Path)
    requires TreeOk(tr, slot, sz)
    ensures q in tr && q.Step? ==> q.up in tr
  {
    if q in tr {
      assert SlotOk(tr, slot, sz, q);
    }
  }

  /** Two slots have no chunk in common. */
  lemma SlotsDisjoint(tr: Tree, slot: map<Ptr, Path>, sz: map<Ptr, nat>, p: Path, q: Path)
    requires TreeOk(tr, slot, sz) && p in tr && q in tr && p != q
    ensures forall e | e in tr[p] :: e !in tr[q]
    ensures |tr[p]| > 0
  {
    assert SlotOk(tr, slot, sz, p);
    forall e | e in tr[p] && e in tr[q] ensures false {
      InSlot(tr, slot, sz, p, e);
      InSlot(tr, slot, sz, q, e);
    }
  }

  lemma Members(l: Links, tr: Tree, p: Path)
    requires p in tr && SlotLinked(l, tr, p) && |tr[p]| > 0
    ensures forall k | 0 <= k < |tr[p]| :: l.Has(tr[p][k]) && l.index[tr[p][k]] == BinOf(p)
    ensures Ring(l.fd, l.bk, tr[p])
  {
    forall k | 0 <= k < |tr[p]| ensures l.Has(tr[p][k]) && l.index[tr[p][k]] == BinOf(p) {
      if k > 0 { assert RestLinked(l, BinOf(p), tr[p][k]); }
    }
  }

  // ---- insertion ----

  /** `X->index = I; X->child[0] = X->child[1] = 0` */
  function Prepared(l: Links, x: Ptr, i: nat): Links
  {
    l.(index := l.index[x := i], child0 := l.child0[x := 0], child1 := l.child1[x := 0])
  }

  ghost predicate IsPrepared(l: Links, x: Ptr, i: nat)
  {
    x in l.child0 && x in l.child1 && x in l.index && l.child0[x] == l.child1[x] == 0 && l.index[x] == i
  }

  lemma PreparedOnce(l: Links, x: Ptr, i: nat)
    requires IsPrepared(l, x, i)
    ensures l.index[x := i] == l.index && l.child0[x := 0] == l.child0 && l.child1[x := 0] == l.child1
  {
  }

  /** The links after `x` joined the ring of the chunk `t` (the same-size branch). */
  function JoinLinks(l: Links, t: Ptr, x: Ptr, i: nat): Links
    requires t in l.fd
  {
    var f := l.fd[t];
    Links(l.fd[t := x][x := f], l.bk[f := x][x := t],
          l.child0[x := 0], l.child1[x := 0], l.parent[x := 0], l.index[x := i])
  }

  ghost function JoinTree(tr: Tree, p: Path, x: Ptr): Tree
    requires p in tr && |tr[p]| > 0
  {
    tr[p := [tr[p][0], x] + tr[p][1..]]
  }

  lemma JoinOk(tr: Tree, slot: map<Ptr, Path>, sz: map<Ptr, nat>, p: Path, x: Ptr, s: nat)
    requires TreeOk(tr, slot, sz) && p in tr && |tr[p]| > 0 && x > 0 && x !in slot && s == SizeAt(tr, sz, p)
    ensures TreeOk(JoinTree(tr, p, x), slot[x := p], sz[x := s])
  {
    var tr', slot', sz' := JoinTree(tr, p, x), slot[x := p], sz[x := s];
    NodeFacts(tr, slot, sz, p);
    forall q | q in tr' ensures SlotOk(tr', slot', sz', q) {
      assert SlotOk(tr, slot, sz, q);
      InSlot(tr, slot, sz, q, tr[q][0]);
      assert tr'[q][0] == tr[q][0] && sz'[tr[q][0]] == SizeAt(tr, sz, q);
      forall e | e in tr'[q] ensures MemberOk(slot', sz', q, SizeAt(tr, sz, q), e) {
        if e != x {
          assert e in tr[q];
          InSlot(tr, slot, sz, q, e);
        } else {
          NotIn(tr, slot, sz, q, x);
        }
      }
    }
    forall e | e in slot ensures Placed(tr, slot, e) {
    }
    forall e | e in slot' ensures Placed(tr', slot', e) {
      if e == x {
        assert tr'[p][1] == x;
      } else {
        JoinPlaced(tr, slot, p, x, e);
      }
    }
  }

  lemma JoinPlaced(tr: Tree, slot: map<Ptr, Path>, p: Path, x: Ptr, e: Ptr)
    requires p in tr && |tr[p]| > 0 && e in slot && Placed(tr, slot, e) && e != x
    ensures Placed(JoinTree(tr, p, x), slot[x := p], e)
  {
    if slot[e] == p {
      var k :| 0 <= k < |tr[p]| && tr[p][k] == e;
      assert if k == 0 then JoinTree(tr, p, x)[p][0] == e else JoinTree(tr, p, x)[p][k + 1] == e;
    }
  }

  lemma JoinLinked(l: Links, tr: Tree, slot: map<Ptr, Path>, sz: map<Ptr, nat>, p: Path, x: Ptr)
    requires TreeOk(tr, slot, sz) && TreeLinked(l, tr)
    requires p in tr && |tr[p]| > 0 && x > 0 && x !in slot
    ensures tr[p][0] in l.fd
    ensures TreeLinked(JoinLinks(l, tr[p][0], x, BinOf(p)), JoinTree(tr, p, x))
  {
    var t := tr[p][0];
    assert SlotLinked(l, tr, p);
    NotIn(tr, slot, sz, p, x);
    RingInsert(l.fd, l.bk, tr[p], x);
    var l', tr' := JoinLinks(l, t, x, BinOf(p)), JoinTree(tr, p, x);
    forall q | q in tr' ensures SlotLinked(l', tr', q) {
      if q != p {
        JoinOther(l, tr, slot, sz, p, x, q);
      } else {
        JoinedSlot(l, tr, p, x);
      }
    }
  }

  lemma NotIn(tr: Tree, slot: map<Ptr, Path>, sz: map<Ptr, nat>, p: Path, x: Ptr)
    requires TreeOk(tr, slot, sz) && p in tr && x !in slot
    ensures x !in tr[p]
  {
    if x in tr[p] { InSlot(tr, slot, sz, p, x); }
  }

  lemma JoinOther(l: Links, tr: Tree, slot: map<Ptr, Path>, sz: map<Ptr, nat>, p: Path, x: Ptr, q: Path)
    requires TreeOk(tr, slot, sz) && TreeLinked(l, tr)
    requires p in tr && |tr[p]| > 0 && x !in slot && q in tr && q != p
    requires tr[p][0] in l.fd && l.fd[tr[p][0]] in tr[p]
    ensures SlotLinked(JoinLinks(l, tr[p][0], x, BinOf(p)), JoinTree(tr, p, x), q)
  {
    var l', tr' := JoinLinks(l, tr[p][0], x, BinOf(p)), JoinTree(tr, p, x);
    SlotsDisjoint(tr, slot, sz, q, p);
    NotIn(tr, slot, sz, q, x);
    forall k | 0 <= k < |tr[q]| ensures AgreeAt(l, l', tr[q][k]) {
      assert tr[q][k] in tr[q];
    }
    assert SlotLinked(l, tr, q);
    SlotFrame(l, l', tr, tr', q);
  }

  lemma JoinedSlot(l: Links, tr: Tree, p: Path, x: Ptr)
    requires p in tr && |tr[p]| > 0 && SlotLinked(l, tr, p) && x !in tr[p] && tr[p][0] in l.fd
    requires Ring(JoinLinks(l, tr[p][0], x, BinOf(p)).fd, JoinLinks(l, tr[p][0], x, BinOf(p)).bk,
      [tr[p][0], x] + tr[p][1..])
    ensures SlotLinked(JoinLinks(l, tr[p][0], x, BinOf(p)), JoinTree(tr, p, x), p)
  {
    var t := tr[p][0];
    var l', tr' := JoinLinks(l, t, x, BinOf(p)), JoinTree(tr, p, x);
    forall k | 0 < k < |tr'[p]| ensures RestLinked(l', BinOf(p), tr'[p][k]) {
      if k > 1 {
        assert tr'[p][k] == tr[p][k - 1];
        assert RestLinked(l, BinOf(p), tr[p][k - 1]);
      }
    }
    assert forall r :: NodeAt(tr', r) == NodeAt(tr, r);
  }

  /** The links after `x` became the root of the empty bin `i`. */
  function RootLinks(l: Links, x: Ptr, i: nat): Links
  {
    Links(l.fd[x := x], l.bk[x := x],
          l.child0[x := 0], l.child1[x := 0], l.parent[x := x], l.index[x := i])
  }

  lemma RootOk(tr: Tree, slot: map<Ptr, Path>, sz: map<Ptr, nat>, i: nat, x: Ptr, s: nat)
    requires TreeOk(tr, slot, sz) && Root(i) !in tr && x > 0 && x !in slot
    requires MIN_LARGE_SIZE <= s < SIZE_LIMIT && InBin(s, i)
    ensures TreeOk(tr[Root(i) := [x]], slot[x := Root(i)], sz[x := s])
  {
    var tr', slot', sz' := tr[Root(i) := [x]], slot[x := Root(i)], sz[x := s];
    RootRange(s, i);
    forall q | q in tr' ensures SlotOk(tr', slot', sz', q) {
      if q == Root(i) {
        assert MemberOk(slot', sz', q, s, x);
      } else {
        assert SlotOk(tr, slot, sz, q);
        InSlot(tr, slot, sz, q, tr[q][0]);
        forall e | e in tr'[q] ensures MemberOk(slot', sz', q, sz'[tr'[q][0]], e) {
          InSlot(tr, slot, sz, q, e);
        }
      }
    }
    forall e | e in slot' ensures Placed(tr', slot', e) {
      if e != x {
        assert Placed(tr, slot, e);
      }
    }
  }

  lemma RootLinked(l: Links, tr: Tree, slot: map<Ptr, Path>, sz: map<Ptr, nat>, i: nat, x: Ptr)
    requires TreeOk(tr, slot, sz) && TreeLinked(l, tr) && Root(i) !in tr && x > 0 && x !in slot
    ensures TreeLinked(RootLinks(l, x, i), tr[Root(i) := [x]])
  {
    var l', tr' := RootLinks(l, x, i), tr[Root(i) := [x]];
    forall q | q in tr' ensures SlotLinked(l', tr', q) {
      if q == Root(i) {
        assert Linked(l'.fd, l'.bk, [x], 0);
        ParentIn(tr, slot, sz, Step(q, false));
        ParentIn(tr, slot, sz, Step(q, true));
      } else {
        assert SlotLinked(l, tr, q);
        assert SlotOk(tr, slot, sz, q);
        NotIn(tr, slot, sz, q, x);
        ParentIn(tr, slot, sz, q);
        forall k | 0 <= k < |tr[q]| ensures AgreeAt(l, l', tr[q][k]) {
          assert tr[q][k] in tr[q];
        }
        SlotFrame(l, l', tr, tr', q);
      }
    }
  }

  // ---- removal: leaving a ring ----

  lemma LeaveOk(tr: Tree, slot: map<Ptr, Path>, sz: map<Ptr, nat>, p: Path, x: Ptr, s: seq<Ptr>)
    requires TreeOk(tr, slot, sz) && x in slot && slot[x] == p && |s| > 0
    requires forall e :: e in s <==> p in tr && e in tr[p] && e != x
    ensures TreeOk(tr[p := s], slot - {x}, sz - {x})
  {
    var tr', slot', sz' := tr[p := s], slot - {x}, sz - {x};
    ChunkFacts(tr, slot, sz, x);
    forall q | q in tr' ensures SlotOk(tr', slot', sz', q) {
      assert SlotOk(tr, slot, sz, q);
      var n := tr'[q][0];
      assert n in tr[q] && n != x by { SameSlot(tr, slot, sz, p, x, q); }
      InSlot(tr, slot, sz, q, n);
      forall e | e in tr'[q] ensures MemberOk(slot', sz', q, sz'[n], e) {
        SameSlot(tr, slot, sz, p, x, q);
        InSlot(tr, slot, sz, q, e);
      }
    }
    forall e | e in slot' ensures Placed(tr', slot', e) {
      assert Placed(tr, slot, e);
    }
  }

  lemma SameSlot(tr: Tree, slot: map<Ptr, Path>, sz: map<Ptr, nat>, p: Path, x: Ptr, q: Path)
    requires TreeOk(tr, slot, sz) && x in slot && slot[x] == p && q in tr
    ensures |tr[q]| > 0 && (x in tr[q] <==> q == p)
  {
    assert SlotOk(tr, slot, sz, q);
    assert Placed(tr, slot, x);
    if x in tr[q] {
      InSlot(tr, slot, sz, q, x);
    }
  }

  /** Unlinking the ring member at `k`: its neighbours are joined. */
  function LeaveLinks(l: Links, x: Ptr): Links
    requires x in l.fd && x in l.bk
  {
    l.(fd := l.fd[l.bk[x] := l.fd[x]], bk := l.bk[l.fd[x] := l.bk[x]])
  }

  lemma LeaveLinked(l: Links, tr: Tree, slot: map<Ptr, Path>, sz: map<Ptr, nat>, p: Path, k: nat)
    requires TreeOk(tr, slot, sz) && TreeLinked(l, tr) && p in tr && 0 < k < |tr[p]|
    ensures Linked(l.fd, l.bk, tr[p], k)
    ensures TreeLinked(LeaveLinks(l, tr[p][k]), tr[p := Without(tr[p], k)])
  {
    assert SlotLinked(l, tr, p);
    RingRemove(l.fd, l.bk, tr[p], k);
    var x := tr[p][k];
    var l', tr' := LeaveLinks(l, x), tr[p := Without(tr[p], k)];
    forall q | q in tr' ensures SlotLinked(l', tr', q) {
      if q == p {
        LeftSlot(l, tr, p, k);
      } else {
        LeaveOther(l, tr, slot, sz, p, k, q);
      }
    }
  }

  lemma LeftSlot(l: Links, tr: Tree, p: Path, k: nat)
    requires p in tr && 0 < k < |tr[p]| && SlotLinked(l, tr, p) && Linked(l.fd, l.bk, tr[p], k)
    requires Ring(LeaveLinks(l, tr[p][k]).fd, LeaveLinks(l, tr[p][k]).bk, Without(tr[p], k))
    ensures SlotLinked(LeaveLinks(l, tr[p][k]), tr[p := Without(tr[p], k)], p)
  {
    var l', tr' := LeaveLinks(l, tr[p][k]), tr[p := Without(tr[p], k)];
    forall j | 0 < j < |tr'[p]| ensures RestLinked(l', BinOf(p), tr'[p][j]) {
      assert tr'[p][j] == tr[p][Old(k, j)];
      assert RestLinked(l, BinOf(p), tr[p][Old(k, j)]);
    }
  }

  lemma LeaveOther(l: Links, tr: Tree, slot: map<Ptr, Path>, sz: map<Ptr, nat>, p: Path, k: nat, q: Path)
    requires TreeOk(tr, slot, sz) && TreeLinked(l, tr) && p in tr && 0 < k < |tr[p]|
    requires Linked(l.fd, l.bk, tr[p], k) && q in tr && q != p
    ensures SlotLinked(LeaveLinks(l, tr[p][k]), tr[p := Without(tr[p], k)], q)
  {
    var l', tr' := LeaveLinks(l, tr[p][k]), tr[p := Without(tr[p], k)];
    SlotsDisjoint(tr, slot, sz, q, p);
    assert l.fd[tr[p][k]] in tr[p] && l.bk[tr[p][k]] in tr[p];
    forall j | 0 <= j < |tr[q]| ensures AgreeAt(l, l', tr[q][j]) {
      assert tr[q][j] in tr[q];
    }
    assert SlotLinked(l, tr, q);
    SlotFrame(l, l', tr, tr', q);
  }

  // ---- removal: another ring takes the place of a trie node ----

  /** `R->child[b] = C` when `C = X->child[b]` is not null. */
  function Adopt(child: Field, x: Ptr, r: Ptr): Field
    requires x in child
  {
    if child[x] != 0 then child[r := child[x]] else child
  }

  /** `C->parent = R` when `C` is not null. */
  function Reparent(parent: Field, c: Ptr, r: Ptr): Field
  {
    if c != 0 then parent[c := r] else parent
  }

  /** Linking `r` where `x` was: the parent (unless `x` is a root) and the children of `x`
      are pointed at `r`, and `r` at them. */
  function TakePlace(l: Links, x: Ptr, r: Ptr, isRoot: bool, right: bool): Links
    requires l.Has(x)
  {
    var up := if isRoot then l else SetChild(l, l.parent[x], right, r);
    up.(child0 := Adopt(up.child0, x, r),
        child1 := Adopt(up.child1, x, r),
        parent := Reparent(Reparent(l.parent[r := l.parent[x]], l.child0[x], r), l.child1[x], r))
  }

  /** Only the parent of `x` and the children of `x` see a change, besides `r` itself. */
  lemma TakePlaceFields(l: Links, x: Ptr, r: Ptr, isRoot: bool, right: bool, e: Ptr)
    requires l.Has(x) && l.Has(r) && l.Has(e) && x != r && e != r && l.child0[r] == l.child1[r] == 0
    requires isRoot || l.parent[x] !in {x, r}
    requires l.child0[x] != r && l.child1[x] != r
    ensures var l' := TakePlace(l, x, r, isRoot, right);
      && l'.Has(e) && l'.Has(r)
      && l'.child0[e] == (if !isRoot && e == l.parent[x] && !right then r else l.child0[e])
      && l'.child1[e] == (if !isRoot && e == l.parent[x] && right then r else l.child1[e])
      && l'.parent[e] == (if e != 0 && (e == l.child0[x] || e == l.child1[x]) then r else l.parent[e])
      && l'.child0[r] == l.child0[x] && l'.child1[r] == l.child1[x] && l'.parent[r] == l.parent[x]
  {
  }

  ghost predicate Located(tr: Tree, slot: map<Ptr, Path>, q: Path)
    requires q in tr
  {
    && |tr[q]| > 0 && (q.Step? ==> q.up in tr)
    && forall e | e in tr[q] :: e > 0 && e in slot && slot[e] == q
  }

  /** `x` alone still occupies slot `p`, and the detached ring `rr` may replace it. */
  ghost predicate Replaceable(l: Links, tr: Tree, slot: map<Ptr, Path>, p: Path, x: Ptr, rr: seq<Ptr>)
  {
    && (forall q {:trigger Located(tr, slot, q)} | q in tr :: Located(tr, slot, q))
    && p in tr && tr[p] == [x] && NodeLinked(l, tr, p, x)
    && (forall q {:trigger SlotLinked(l, tr, q)} | q in tr && q != p :: SlotLinked(l, tr, q))
    && |rr| > 0 && RingLinked(l, BinOf(p), rr)
    && l.Has(rr[0]) && l.index[rr[0]] == BinOf(p) && l.child0[rr[0]] == l.child1[rr[0]] == 0
    && (forall e | e in rr :: e > 0 && e != x && e in slot && (slot[e] == p || slot[e] !in tr))
  }

  lemma NodeApart(tr: Tree, slot: map<Ptr, Path>, p: Path, q: Path, e: Ptr)
    requires forall r {:trigger Located(tr, slot, r)} | r in tr :: Located(tr, slot, r)
    requires q in tr && e in tr[q] && p != q
    ensures e != NodeAt(tr, p) && e > 0
  {
    assert Located(tr, slot, q);
    if p in tr { assert Located(tr, slot, p); }
  }

  lemma Neighbours(p: Path)
    ensures forall b :: Step(p, b) != p && (p.Step? ==> Step(p, b) != p.up)
    ensures p.Step? ==> p.up != p
  {
    forall b ensures Step(p, b) != p && (p.Step? ==> Step(p, b) != p.up) {
      assert Depth(Step(p, b)) == Depth(p) + 1;
    }
  }

  lemma ReplacedFields(l: Links, tr: Tree, slot: map<Ptr, Path>, p: Path, x: Ptr, rr: seq<Ptr>, e: Ptr)
    requires Replaceable(l, tr, slot, p, x, rr) && l.Has(e) && e != rr[0]
    ensures var r, l' := rr[0], TakePlace(l, x, rr[0], p.Root?, p.Step? && p.right);
      && l'.fd == l.fd && l'.bk == l.bk && l'.index == l.index && l'.Has(e) && l'.Has(r)
      && l'.child0[e] == (if p.Step? && e == NodeAt(tr, p.up) && !p.right then r else l.child0[e])
      && l'.child1[e] == (if p.Step? && e == NodeAt(tr, p.up) && p.right then r else l.child1[e])
      && l'.parent[e] == (if e != 0 && e in {NodeAt(tr, Step(p, false)), NodeAt(tr, Step(p, true))} then r
                          else l.parent[e])
      && l'.child0[r] == l.child0[x] && l'.child1[r] == l.child1[x] && l'.parent[r] == l.parent[x]
  {
    var r := rr[0];
    assert r in rr;
    forall q | q in tr && q != p ensures NodeAt(tr, q) != r && NodeAt(tr, q) != x {
      assert Located(tr, slot, q);
      assert Located(tr, slot, p);
      assert tr[q][0] in tr[q] && x in tr[p];
    }
    assert Located(tr, slot, p);
    Neighbours(p);
    TakePlaceFields(l, x, r, p.Root?, p.Step? && p.right, e);
  }

  /** The transplant keeps every other slot linked. */
  lemma ReplacedOther(l: Links, tr: Tree, slot: map<Ptr, Path>, p: Path, x: Ptr, rr: seq<Ptr>, q: Path)
    requires Replaceable(l, tr, slot, p, x, rr) && q in tr && q != p
    ensures SlotLinked(TakePlace(l, x, rr[0], p.Root?, p.Step? && p.right), tr[p := rr], q)
  {
    var r, l', tr' := rr[0], TakePlace(l, x, rr[0], p.Root?, p.Step? && p.right), tr[p := rr];
    assert SlotLinked(l, tr, q);
    assert Located(tr, slot, q);
    Members(l, tr, q);
    assert r in rr;
    var n := tr[q][0];
    forall e | e in tr[q] ensures l.Has(e) && e != r && e != x {
      NodeApart(tr, slot, p, q, e);
    }
    forall k | 0 < k < |tr[q]| ensures TrieAgreeAt(l, l', tr[q][k]) {
      RestApart(l, tr, slot, p, q, k);
      ReplacedFields(l, tr, slot, p, x, rr, tr[q][k]);
    }
    ReplacedFields(l, tr, slot, p, x, rr, n);
    RingLinkedFrame(l, l', BinOf(q), tr[q]);
    ReplacedNode(l, tr, slot, p, x, rr, q);
  }

  /** A chunk behind a node is no node of any slot. */
  lemma RestApart(l: Links, tr: Tree, slot: map<Ptr, Path>, p: Path, q: Path, k: nat)
    requires forall r {:trigger Located(tr, slot, r)} | r in tr :: Located(tr, slot, r)
    requires q in tr && 0 < k < |tr[q]| && SlotLinked(l, tr, q)
    ensures p.Step? ==> tr[q][k] != NodeAt(tr, p.up)
    ensures tr[q][k] != NodeAt(tr, Step(p, false)) && tr[q][k] != NodeAt(tr, Step(p, true))
  {
    var e := tr[q][k];
    forall r ensures e != NodeAt(tr, r) {
      if r != q { NodeApart(tr, slot, r, q, e); }
    }
  }

  lemma ReplacedNode(l: Links, tr: Tree, slot: map<Ptr, Path>, p: Path, x: Ptr, rr: seq<Ptr>, q: Path)
    requires Replaceable(l, tr, slot, p, x, rr) && q in tr && q != p && |tr[q]| > 0 && NodeAt(tr, q) != rr[0]
    ensures NodeLinked(TakePlace(l, x, rr[0], p.Root?, p.Step? && p.right), tr[p := rr], q, NodeAt(tr, q))
  {
    var n := NodeAt(tr, q);
    assert SlotLinked(l, tr, q);
    ReplacedFields(l, tr, slot, p, x, rr, n);
    forall r | r != q ensures n != NodeAt(tr, r) && n > 0 {
      NodeApart(tr, slot, r, q, n);
    }
    Neighbours(q);
    Neighbours(p);
  }

  lemma ReplacedSelf(l: Links, tr: Tree, slot: map<Ptr, Path>, p: Path, x: Ptr, rr: seq<Ptr>)
    requires Replaceable(l, tr, slot, p, x, rr)
    ensures SlotLinked(TakePlace(l, x, rr[0], p.Root?, p.Step? && p.right), tr[p := rr], p)
  {
    var r, l', tr' := rr[0], TakePlace(l, x, rr[0], p.Root?, p.Step? && p.right), tr[p := rr];
    assert r in rr;
    forall k | 0 < k < |rr| ensures TrieAgreeAt(l, l', rr[k]) {
      assert RestLinked(l, BinOf(p), rr[k]);
      assert rr[k] in rr;
      forall q | q in tr ensures rr[k] != NodeAt(tr, q) {
        assert Located(tr, slot, q);
        assert tr[q][0] in tr[q];
      }
      ReplacedFields(l, tr, slot, p, x, rr, rr[k]);
    }
    ReplacedFields(l, tr, slot, p, x, rr, x);
    RingLinkedFrame(l, l', BinOf(p), rr);
    Neighbours(p);
  }

  lemma ReplacedLinked(l: Links, tr: Tree, slot: map<Ptr, Path>, p: Path, x: Ptr, rr: seq<Ptr>)
    requires Replaceable(l, tr, slot, p, x, rr)
    ensures TreeLinked(TakePlace(l, x, rr[0], p.Root?, p.Step? && p.right), tr[p := rr])
  {
    var l', tr' := TakePlace(l, x, rr[0], p.Root?, p.Step? && p.right), tr[p := rr];
    forall q | q in tr' ensures SlotLinked(l', tr', q) {
      if q == p {
        ReplacedSelf(l, tr, slot, p, x, rr);
      } else {
        ReplacedOther(l, tr, slot, p, x, rr, q);
      }
    }
  }

  // ---- removal: preparing the replacement ----

  /** The node `x` has ring company: its ring neighbour `x.bk` leads the ring left over. */
  lemma RotateReplaceable(l: Links, tr: Tree, slot: map<Ptr, Path>, sz: map<Ptr, nat>, p: Path, x: Ptr, rr: seq<Ptr>)
    requires TreeOk(tr, slot, sz) && TreeLinked(l, tr) && p in tr && |tr[p]| > 1
    requires x == tr[p][0] && rr == Rotated(Without(tr[p], 0))
    ensures x in l.fd && x in l.bk && rr[0] == l.bk[x]
    ensures Replaceable(LeaveLinks(l, x), tr[p := [x]], slot, p, x, rr)
    ensures forall e :: e in rr <==> e in tr[p] && e != x
  {
    assert SlotLinked(l, tr, p) && Linked(l.fd, l.bk, tr[p], 0);
    RotatedRing(l, tr, p);
    var l1, tr1 := LeaveLinks(l, x), tr[p := [x]];
    RotatedRest(l, l1, tr, p);
    RotateShape(l, tr, slot, sz, p);
    forall e | e in rr ensures e > 0 && e != x && e in slot && slot[e] == p {
      InSlot(tr, slot, sz, p, e);
    }
  }

  lemma RotatedRing(l: Links, tr: Tree, p: Path)
    requires p in tr && |tr[p]| > 1 && Ring(l.fd, l.bk, tr[p])
    ensures var x, rr := tr[p][0], Rotated(Without(tr[p], 0));
      (&& x in l.fd && x in l.bk && rr[0] == l.bk[x]
       && l.fd[x] in tr[p] && l.bk[x] in tr[p]
       && Ring(LeaveLinks(l, x).fd, LeaveLinks(l, x).bk, rr)
       && forall e :: e in rr <==> e in tr[p] && e != x)
  {
    RingRemove(l.fd, l.bk, tr[p], 0);
    DistinctWithout(tr[p], 0);
    var l1 := LeaveLinks(l, tr[p][0]);
    RingRotate(l1.fd, l1.bk, Without(tr[p], 0));
  }

  lemma RotateShape(l: Links, tr: Tree, slot: map<Ptr, Path>, sz: map<Ptr, nat>, p: Path)
    requires TreeOk(tr, slot, sz) && TreeLinked(l, tr) && p in tr && |tr[p]| > 1
    requires Linked(l.fd, l.bk, tr[p], 0)
    ensures var tr1 := tr[p := [tr[p][0]]];
      (&& (forall q {:trigger Located(tr1, slot, q)} | q in tr1 :: Located(tr1, slot, q))
       && (forall q {:trigger SlotLinked(LeaveLinks(l, tr[p][0]), tr1, q)} | q in tr1 && q != p ::
          SlotLinked(LeaveLinks(l, tr[p][0]), tr1, q)))
  {
    var l1, tr1 := LeaveLinks(l, tr[p][0]), tr[p := [tr[p][0]]];
    forall q | q in tr1 ensures Located(tr1, slot, q) {
      LocatedIn(tr, slot, sz, q);
      assert tr[q][0] in tr[q];
    }
    forall q | q in tr1 && q != p ensures SlotLinked(l1, tr1, q) {
      RotateOther(l, tr, slot, sz, p, q);
    }
  }

  lemma LocatedIn(tr: Tree, slot: map<Ptr, Path>, sz: map<Ptr, nat>, q: Path)
    requires TreeOk(tr, slot, sz) && q in tr
    ensures Located(tr, slot, q)
  {
    assert SlotOk(tr, slot, sz, q);
    forall e | e in tr[q] ensures e > 0 && e in slot && slot[e] == q {
      InSlot(tr, slot, sz, q, e);
    }
  }

  lemma RotatedRest(l: Links, l1: Links, tr: Tree, p: Path)
    requires p in tr && |tr[p]| > 1 && SlotLinked(l, tr, p)
    requires l1.child0 == l.child0 && l1.child1 == l.child1 && l1.parent == l.parent && l1.index == l.index
    ensures var rr := Rotated(Without(tr[p], 0));
      forall k | 0 <= k < |rr| :: RestLinked(l1, BinOf(p), rr[k])
  {
    var rr := Rotated(Without(tr[p], 0));
    forall k | 0 <= k < |rr| ensures RestLinked(l1, BinOf(p), rr[k]) {
      var j := if k == 0 then |tr[p]| - 1 else k;
      assert rr[k] == tr[p][j];
      assert RestLinked(l, BinOf(p), tr[p][j]);
    }
  }

  lemma RotateOther(l: Links, tr: Tree, slot: map<Ptr, Path>, sz: map<Ptr, nat>, p: Path, q: Path)
    requires TreeOk(tr, slot, sz) && TreeLinked(l, tr) && p in tr && |tr[p]| > 1
    requires Linked(l.fd, l.bk, tr[p], 0) && q in tr && q != p
    ensures SlotLinked(LeaveLinks(l, tr[p][0]), tr[p := [tr[p][0]]], q)
  {
    var l', tr' := LeaveLinks(l, tr[p][0]), tr[p := [tr[p][0]]];
    SlotsDisjoint(tr, slot, sz, q, p);
    assert l.fd[tr[p][0]] in tr[p] && l.bk[tr[p][0]] in tr[p];
    forall j | 0 <= j < |tr[q]| ensures AgreeAt(l, l', tr[q][j]) {
      assert tr[q][j] in tr[q];
    }
    assert SlotLinked(l, tr, q);
    SlotFrame(l, l', tr, tr', q);
  }

  ghost predicate IsLeaf(tr: Tree, q: Path)
  {
    q in tr && Step(q, false) !in tr && Step(q, true) !in tr
  }

  lemma NotChild(tr: Tree, q: Path, r: Path)
    requires IsLeaf(tr, q) && r in tr
    ensures r.Step? ==> r.up != q
  {
    if r.Step? {
      assert r == Step(r.up, if r.right then true else false);
    }
  }

  /** The node `x` is alone but has descendants: a leaf `q` below it is cut off (`*RP = 0`). */
  lemma DetachReplaceable(l: Links, tr: Tree, slot: map<Ptr, Path>, sz: map<Ptr, nat>, p: Path, x: Ptr, q: Path)
    requires TreeOk(tr, slot, sz) && TreeLinked(l, tr) && p in tr && tr[p] == [x]
    requires IsLeaf(tr, q) && Under(p, q) && q != p
    ensures Replaceable(SetChild(l, NodeAt(tr, q.up), q.right, 0), tr - {q}, slot, p, x, tr[q])
    ensures tr[q][0] == NodeAt(tr, q)
  {
    Neighbours(q);
    DetachShape(l, tr, slot, sz, q);
    DetachOther(l, tr, slot, sz, q, p);
    DetachedRing(l, tr, slot, sz, q);
    assert x in tr[p];
    UnderBin(p, q);
    forall e | e in tr[q] ensures e > 0 && e != x && e in slot && slot[e] == q {
      InSlot(tr, slot, sz, q, e);
      InSlot(tr, slot, sz, p, x);
    }
  }

  lemma DetachShape(l: Links, tr: Tree, slot: map<Ptr, Path>, sz: map<Ptr, nat>, q: Path)
    requires TreeOk(tr, slot, sz) && TreeLinked(l, tr) && IsLeaf(tr, q) && q.Step?
    ensures forall r {:trigger Located(tr - {q}, slot, r)} | r in tr - {q} :: Located(tr - {q}, slot, r)
    ensures TreeLinked(SetChild(l, NodeAt(tr, q.up), q.right, 0), tr - {q})
  {
    var l1, tr1 := SetChild(l, NodeAt(tr, q.up), q.right, 0), tr - {q};
    forall r | r in tr1 ensures Located(tr1, slot, r) {
      LocatedIn(tr, slot, sz, r);
      NotChild(tr, q, r);
    }
    forall r | r in tr1 ensures SlotLinked(l1, tr1, r) {
      DetachOther(l, tr, slot, sz, q, r);
    }
  }

  lemma DetachedRing(l: Links, tr: Tree, slot: map<Ptr, Path>, sz: map<Ptr, nat>, q: Path)
    requires TreeOk(tr, slot, sz) && TreeLinked(l, tr) && IsLeaf(tr, q) && q.Step?
    ensures var l1 := SetChild(l, NodeAt(tr, q.up), q.right, 0);
      && RingLinked(l1, BinOf(q), tr[q])
      && |tr[q]| > 0 && l1.Has(tr[q][0]) && l1.index[tr[q][0]] == BinOf(q)
      && l1.child0[tr[q][0]] == l1.child1[tr[q][0]] == 0
  {
    var l1 := SetChild(l, NodeAt(tr, q.up), q.right, 0);
    assert SlotLinked(l, tr, q);
    LocatedIn(tr, slot, sz, q);
    Neighbours(q);
    LocatedIn(tr, slot, sz, q.up);
    SlotsDisjoint(tr, slot, sz, q, q.up);
    forall k | 0 <= k < |tr[q]| ensures AgreeAt(l, l1, tr[q][k]) {
      assert tr[q][k] in tr[q];
    }
    forall k | 0 < k < |tr[q]| ensures TrieAgreeAt(l, l1, tr[q][k]) {
      assert AgreeAt(l, l1, tr[q][k]);
    }
    RingLinkedFrame(l, l1, BinOf(q), tr[q]);
    assert AgreeAt(l, l1, tr[q][0]);
  }

  lemma DetachOther(l: Links, tr: Tree, slot: map<Ptr, Path>, sz: map<Ptr, nat>, q: Path, r: Path)
    requires TreeOk(tr, slot, sz) && TreeLinked(l, tr) && IsLeaf(tr, q) && q.Step? && r in tr && r != q
    ensures var l1 := SetChild(l, NodeAt(tr, q.up), q.right, 0);
      SlotLinked(l1, tr - {q}, r)
  {
    var l1, tr1 := SetChild(l, NodeAt(tr, q.up), q.right, 0), tr - {q};
    var n := NodeAt(tr, q.up);
    assert SlotLinked(l, tr, r);
    LocatedIn(tr, slot, sz, r);
    LocatedIn(tr, slot, sz, q);
    LocatedIn(tr, slot, sz, q.up);
    Neighbours(q);
    Members(l, tr, r);
    forall k | 0 <= k < |tr[r]| && (k > 0 || r != q.up) ensures tr[r][k] != n {
      assert tr[r][k] in tr[r] && n in tr[q.up];
    }
    RingLinkedFrame(l, l1, BinOf(r), tr[r]);
    NotChild(tr, q, r);
  }

  /** The node `x` is alone and childless: its parent forgets it. */
  lemma DropLinked(l: Links, tr: Tree, slot: map<Ptr, Path>, sz: map<Ptr, nat>, p: Path)
    requires TreeOk(tr, slot, sz) && TreeLinked(l, tr) && IsLeaf(tr, p)
    ensures TreeLinked(if p.Root? then l else SetChild(l, NodeAt(tr, p.up), p.right, 0), tr - {p})
  {
    var l1, tr1 := if p.Root? then l else SetChild(l, NodeAt(tr, p.up), p.right, 0), tr - {p};
    forall r | r in tr1 ensures SlotLinked(l1, tr1, r) {
      if p.Step? {
        DetachOther(l, tr, slot, sz, p, r);
      } else {
        assert SlotLinked(l, tr, r);
        NotChild(tr, p, r);
        assert SlotOk(tr, slot, sz, r);
        SlotFrame(l, l1, tr, tr1, r);
      }
    }
  }

  // ---- removal: the abstract effect ----

  lemma DropOk(tr: Tree, slot: map<Ptr, Path>, sz: map<Ptr, nat>, p: Path, x: Ptr)
    requires TreeOk(tr, slot, sz) && IsLeaf(tr, p) && tr[p] == [x]
    ensures x in slot && TreeOk(tr - {p}, slot - {x}, sz - {x})
  {
    var tr', slot', sz' := tr - {p}, slot - {x}, sz - {x};
    assert x in tr[p];
    InSlot(tr, slot, sz, p, x);
    forall q | q in tr' ensures SlotOk(tr', slot', sz', q) {
      assert SlotOk(tr, slot, sz, q);
      SameSlot(tr, slot, sz, p, x, q);
      InSlot(tr, slot, sz, q, tr[q][0]);
      NotChild(tr, p, q);
      forall e | e in tr'[q] ensures MemberOk(slot', sz', q, sz'[tr'[q][0]], e) {
        InSlot(tr, slot, sz, q, e);
      }
    }
    forall e | e in slot' ensures Placed(tr', slot', e) {
      assert Placed(tr, slot, e);
    }
  }

  /** The ring of leaf `q` moves up to slot `p`. */
  ghost function Promote(slot: map<Ptr, Path>, x: Ptr, p: Path, q: Path): map<Ptr, Path>
  {
    map e | e in slot && e != x :: if slot[e] == q then p else slot[e]
  }

  lemma PromoteOk(tr: Tree, slot: map<Ptr, Path>, sz: map<Ptr, nat>, p: Path, x: Ptr, q: Path)
    requires TreeOk(tr, slot, sz) && p in tr && tr[p] == [x]
    requires IsLeaf(tr, q) && Under(p, q) && q != p
    ensures x in slot && TreeOk((tr - {q})[p := tr[q]], Promote(slot, x, p, q), sz - {x})
  {
    var tr', slot', sz' := (tr - {q})[p := tr[q]], Promote(slot, x, p, q), sz - {x};
    assert x in tr[p];
    InSlot(tr, slot, sz, p, x);
    forall r | r in tr' ensures SlotOk(tr', slot', sz', r) {
      PromotedSlot(tr, slot, sz, p, x, q, r);
    }
    forall e | e in slot' ensures Placed(tr', slot', e) {
      assert Placed(tr, slot, e);
    }
  }

  lemma PromotedSlot(tr: Tree, slot: map<Ptr, Path>, sz: map<Ptr, nat>, p: Path, x: Ptr, q: Path, r: Path)
    requires TreeOk(tr, slot, sz) && p in tr && tr[p] == [x]
    requires IsLeaf(tr, q) && Under(p, q) && q != p && r in tr && r != q
    ensures SlotOk((tr - {q})[p := tr[q]], Promote(slot, x, p, q), sz - {x}, r)
  {
    var tr', slot', sz' := (tr - {q})[p := tr[q]], Promote(slot, x, p, q), sz - {x};
    var o := if r == p then q else r;
    assert SlotOk(tr, slot, sz, r) && SlotOk(tr, slot, sz, o);
    var n := tr[o][0];
    assert n in tr[o];
    InSlot(tr, slot, sz, o, n);
    assert x in tr[p];
    InSlot(tr, slot, sz, p, x);
    if r == p {
      RangeNested(p, q, sz[n]);
      UnderBin(p, q);
    }
    NotChild(tr, q, r);
    forall e | e in tr'[r] ensures MemberOk(slot', sz', r, sz'[n], e) {
      InSlot(tr, slot, sz, o, e);
    }
  }
}
