/** The state of BuddyAllocator as a value: what allocating and releasing do to the block
    table, the pool and the two counters. */
module BuddyModel {
  import opened BlockTable
  import opened PoolOrder

  /** The pool entry of a block. */
  function KeyOf(t: Table, a: Addr): Key
    requires a in t.live
  {
    Key(t.live[a].index, t.live[a].total, a)
  }

  ghost predicate IsFree(t: Table, a: Addr)
  {
    a in t.live && t.live[a].kind == FREE_CHUNK
  }

  /** `k` is a pool entry exactly if it is the entry of a free block. */
  ghost predicate EntryOk(t: Table, pool: set<Key>, k: Key)
  {
    k in pool <==> IsFree(t, k.addr) && k == KeyOf(t, k.addr)
  }

  ghost predicate PoolOk(t: Table, pool: set<Key>)
  {
    forall k {:trigger EntryOk(t, pool, k)} {:trigger k in pool} :: EntryOk(t, pool, k)
  }

  // ---- allocating from a free block ----

  /** The table after SplitToAlloc: the first `n` bytes of `a` are handed out. */
  function Occupy(t: Table, a: Addr, n: nat): Table
    requires t.Linked() && a in t.live && a in t.home && DESC_SIZE <= n <= t.live[a].total
  {
    SetKind(Split(t, a, n), a, ARENA_CHUNK)
  }

  /** The pool after SplitToAlloc took the entry `k`. */
  function PoolAfterSplit(t: Table, pool: set<Key>, k: Key): set<Key>
    requires k.addr in t.live
  {
    var r := t.live[k.addr].right;
    if r in t.live && t.live[r].kind == FREE_CHUNK then pool - {k} + {KeyOf(t, r)} else pool - {k}
  }

  ghost predicate Allocates(t: Table, pool: set<Key>, k: Key, n: nat)
  {
    && t.Linked() && t.Coalesced() && PoolOk(t, pool)
    && k in pool && DESC_SIZE <= n <= k.size
  }

  lemma PoolEntry(t: Table, pool: set<Key>, k: Key)
    requires PoolOk(t, pool) && k in pool
    ensures IsFree(t, k.addr) && k == KeyOf(t, k.addr)
  {
    assert EntryOk(t, pool, k);
  }

  lemma OccupyLinked(t: Table, pool: set<Key>, k: Key, n: nat)
    requires Allocates(t, pool, k, n)
    ensures IsFree(t, k.addr) && k == KeyOf(t, k.addr) && k.addr in t.home
    ensures Occupy(t, k.addr, n).Linked()
  {
    PoolEntry(t, pool, k);
    Facts(t, k.addr);
    SplitLinked(t, k.addr, n);
    SetKindLinked(Split(t, k.addr, n), k.addr, ARENA_CHUNK);
  }

  /** What SplitToAlloc leaves in the table, block by block. */
  lemma OccupyBlocks(t: Table, pool: set<Key>, k: Key, n: nat)
    requires Allocates(t, pool, k, n)
    requires IsFree(t, k.addr) && k == KeyOf(t, k.addr) && k.addr in t.home
    ensures var a, t' := k.addr, Occupy(t, k.addr, n);
            var cut := n + DESC_SIZE < k.size;
      (&& t'.live.Keys == (if cut then t.live.Keys + {a + n} else t.live.Keys)
       && t'.regions == t.regions
       && (cut ==> a + n !in t.live && a + n !in t.home)
       && (cut ==>
             t'.live[a + n]
             == Desc(FREE_CHUNK, t.live[a].index, k.size - n - DESC_SIZE, k.size - n, a, t.live[a].right))
       && t'.live[a].kind == ARENA_CHUNK && t'.live[a].total == (if cut then n else k.size)
       && t'.live[a].right == (if cut then a + n else t.live[a].right) && t'.live[a].left == t.live[a].left
       && (forall b | b in t.live && b != a :: t'.live[b] == t.live[b].(left := t'.live[b].left))
       && (t.live[a].right in t.live ==> t.live[t.live[a].right].kind != FREE_CHUNK && t.live[a].right != a))
  {
    Facts(t, k.addr);
    NoZero(t);
    assert t.NoFreePair(k.addr);
    if n + DESC_SIZE < k.size {
      UnusedInside(t, k.addr, n);
    }
  }

  lemma OccupyCoalesced(t: Table, pool: set<Key>, k: Key, n: nat)
    requires Allocates(t, pool, k, n)
    requires IsFree(t, k.addr) && k == KeyOf(t, k.addr) && k.addr in t.home
    ensures Occupy(t, k.addr, n).Coalesced()
  {
    var t' := Occupy(t, k.addr, n);
    OccupyBlocks(t, pool, k, n);
    NoZero(t);
    Facts(t, k.addr);
    forall b | b in t'.live ensures t'.NoFreePair(b) {
      if b in t.live {
        Facts(t, b);
        assert t.NoFreePair(b);
      }
    }
  }

  lemma OccupyPool(t: Table, pool: set<Key>, k: Key, n: nat)
    requires Allocates(t, pool, k, n)
    requires IsFree(t, k.addr) && k == KeyOf(t, k.addr) && k.addr in t.home
    ensures PoolOk(Occupy(t, k.addr, n), PoolAfterSplit(Occupy(t, k.addr, n), pool, k))
  {
    var a, t' := k.addr, Occupy(t, k.addr, n);
    var pool' := PoolAfterSplit(t', pool, k);
    OccupyBlocks(t, pool, k, n);
    forall j ensures EntryOk(t', pool', j) {
      assert EntryOk(t, pool, j);
    }
  }

  // ---- releasing a block ----

  /** Merging with a free right buddy. */
  function JoinRight(t: Table, a: Addr): Table
    requires a in t.live
  {
    var r := t.live[a].right;
    if r in t.live && t.live[r].kind == FREE_CHUNK then Merge(t, a, r) else t
  }

  /** The block that covers `a` after merging with a free left buddy. */
  function LeftMost(t: Table, a: Addr): Addr
    requires a in t.live
  {
    var l := t.live[a].left;
    if l in t.live && t.live[l].kind == FREE_CHUNK then l else a
  }

  function JoinLeft(t: Table, a: Addr): Table
    requires a in t.live
  {
    if LeftMost(t, a) != a then Merge(t, LeftMost(t, a), a) else t
  }

  ghost predicate Releases(t: Table, pool: set<Key>, a: Addr)
  {
    t.Linked() && t.Coalesced() && PoolOk(t, pool) && a in t.live && t.live[a].kind == ARENA_CHUNK
  }

  /** The table while `a` is already marked free, and after the merge with its right buddy. */
  function Marked(t: Table, a: Addr): Table
    requires a in t.live
  {
    SetKind(t, a, FREE_CHUNK)
  }

  lemma MarkedLinked(t: Table, pool: set<Key>, a: Addr)
    requires Releases(t, pool, a)
    ensures Marked(t, a).Linked() && a in Marked(t, a).live
    ensures JoinRight(Marked(t, a), a).Linked() && a in JoinRight(Marked(t, a), a).live
    ensures JoinLeft(JoinRight(Marked(t, a), a), a).Linked()
  {
    SetKindLinked(t, a, FREE_CHUNK);
    var t1 := Marked(t, a);
    Facts(t1, a);
    NoZero(t1);
    var r := t1.live[a].right;
    if r in t1.live && t1.live[r].kind == FREE_CHUNK {
      MergeLinked(t1, a, r);
      MergeFacts(t1, a, r);
    }
    JoinLeftLinked(JoinRight(t1, a), a);
  }

  lemma JoinLeftLinked(t: Table, a: Addr)
    requires t.Linked() && a in t.live && t.live[a].kind == FREE_CHUNK
    ensures JoinLeft(t, a).Linked() && LeftMost(t, a) in JoinLeft(t, a).live
    ensures LeftMost(t, a) != a ==> LeftMost(t, a) in t.live && Merges(t, LeftMost(t, a), a)
  {
    Facts(t, a);
    NoZero(t);
    var l := LeftMost(t, a);
    if l != a {
      MergeLinked(t, l, a);
      MergeFacts(t, l, a);
    }
  }

  /** Where a released block ends up, and with which extent. */
  ghost predicate ReleaseShape(t: Table, a: Addr)
    requires t.Linked() && a in t.live
  {
    var r, l := t.live[a].right, t.live[a].left;
    var rf, lf := IsFree(t, r), IsFree(t, l);
    var t' := Released(t, a);
    var h := if lf then l else a;
    && t'.live.Keys == t.live.Keys - (if rf then {r} else {}) - (if lf then {a} else {})
    && h in t'.live && t'.live[h].kind == FREE_CHUNK && t'.live[h].index == t.live[a].index
    && t'.live[h].total == (if lf then t.live[l].total else 0) + t.live[a].total + (if rf then t.live[r].total else 0)
    && t'.live[h].right == (if rf then t.live[r].right else r)
    && t'.live[h].left == (if lf then t.live[l].left else l)
    && (forall b | b in t'.live && b != h :: t'.live[b] == t.live[b].(left := t'.live[b].left))
    && (rf ==> r != a && r != l && t.live[r].right != a && t.live[r].right != r)
    && (lf ==> l != a && t.live[l].index == t.live[a].index)
  }

  /** The table after Free: `a` is marked and merged with its free buddies. */
  function Released(t: Table, a: Addr): Table
    requires a in t.live
  {
    var t1 := JoinRight(Marked(t, a), a);
    if a in t1.live then JoinLeft(t1, a) else t1
  }

  lemma JoinRightBlocks(t: Table, a: Addr)
    requires t.Linked() && IsFree(t, a)
    ensures var r, t' := t.live[a].right, JoinRight(t, a);
      if IsFree(t, r) then
        && r != a && t.live[r].right != r && t.live[r].right != a && r != t.live[a].left
        && t'.live.Keys == t.live.Keys - {r}
        && t'.live[a] == t.live[a].(right := t.live[r].right, total := t.live[a].total + t.live[r].total,
           size := t.live[a].size + t.live[r].total)
        && (forall b | b in t'.live && b != a :: t'.live[b] == t.live[b].(left := t'.live[b].left))
        && (t.live[a].left in t'.live ==> t'.live[t.live[a].left] == t.live[t.live[a].left])
      else t' == t
  {
    Facts(t, a);
    NoZero(t);
    var r := t.live[a].right;
    if IsFree(t, r) {
      MergeFacts(t, a, r);
      Facts(t, r);
      if t.live[a].left != 0 { Facts(t, t.live[a].left); }
    }
  }

  lemma JoinLeftBlocks(t: Table, a: Addr)
    requires t.Linked() && IsFree(t, a)
    ensures var l, t' := t.live[a].left, JoinLeft(t, a);
      if IsFree(t, l) then
        && l != a && t.live[l].index == t.live[a].index && l == LeftMost(t, a)
        && t'.live.Keys == t.live.Keys - {a}
        && t'.live[l] == t.live[l].(right := t.live[a].right, total := t.live[l].total + t.live[a].total,
           size := t.live[l].size + t.live[a].total)
        && (forall b | b in t'.live && b != l :: t'.live[b] == t.live[b].(left := t'.live[b].left))
      else t' == t && a == LeftMost(t, a)
  {
    Facts(t, a);
    NoZero(t);
    var l := t.live[a].left;
    if IsFree(t, l) {
      Facts(t, l);
      MergeFacts(t, l, a);
    }
  }

  /** The table after the merge to the right, while `a` is about to be merged to the left. */
  ghost predicate MiddleShape(t: Table, t2: Table, a: Addr)
    requires t.Linked() && a in t.live
  {
    var r, l := t.live[a].right, t.live[a].left;
    var rf := IsFree(t, r);
    && a in t2.live && t2.live.Keys == (if rf then t.live.Keys - {r} else t.live.Keys)
    && t2.live[a].kind == FREE_CHUNK && t2.live[a].index == t.live[a].index && t2.live[a].left == l
    && t2.live[a].total == t.live[a].total + (if rf then t.live[r].total else 0)
    && t2.live[a].right == (if rf then t.live[r].right else r)
    && (forall b | b in t2.live && b != a :: t2.live[b] == t.live[b].(left := t2.live[b].left))
    && (l in t2.live ==> l in t.live && t2.live[l] == t.live[l]) && (IsFree(t, l) ==> l in t2.live)
    && (rf ==> r != a && r != l && t.live[r].right != a && t.live[r].right != r)
  }

  lemma MiddleBlocks(t: Table, pool: set<Key>, a: Addr)
    requires Releases(t, pool, a)
    ensures MiddleShape(t, JoinRight(Marked(t, a), a), a)
  {
    MarkedLinked(t, pool, a);
    Facts(t, a);
    JoinRightBlocks(Marked(t, a), a);
  }

  lemma ReleasedBlocks(t: Table, pool: set<Key>, a: Addr)
    requires Releases(t, pool, a)
    ensures ReleaseShape(t, a)
  {
    MarkedLinked(t, pool, a);
    MiddleBlocks(t, pool, a);
    JoinLeftBlocks(JoinRight(Marked(t, a), a), a);
  }

  lemma ReleasedLinked(t: Table, pool: set<Key>, a: Addr)
    requires Releases(t, pool, a)
    ensures Released(t, a).Linked() && Released(t, a).regions == t.regions
  {
    MarkedLinked(t, pool, a);
  }

  /** Free leaves no two free buddies, provided there were none before. */
  lemma ReleasedCoalesced(t: Table, pool: set<Key>, a: Addr)
    requires Releases(t, pool, a)
    ensures Released(t, a).Coalesced()
  {
    ReleasedBlocks(t, pool, a);
    ReleasedLinked(t, pool, a);
    NoZero(t);
    Facts(t, a);
    var t' := Released(t, a);
    forall b | b in t'.live ensures t'.NoFreePair(b) {
      ReleasedPair(t, pool, a, b);
    }
  }

  lemma ReleasedPair(t: Table, pool: set<Key>, a: Addr, b: Addr)
    requires Releases(t, pool, a) && b in Released(t, a).live && ReleaseShape(t, a)
    ensures Released(t, a).NoFreePair(b)
  {
    NoZero(t);
    Facts(t, a);
    Facts(t, b);
    var r := t.live[a].right;
    if r in t.live { Facts(t, r); assert t.NoFreePair(r); }
    if t.live[a].left in t.live { Facts(t, t.live[a].left); assert t.NoFreePair(t.live[a].left); }
    assert t.NoFreePair(b);
    if t.live[b].right in t.live { Facts(t, t.live[b].right); }
  }

  /** The pool after Free: the merged buddies' entries are erased, the new block's is inserted. */
  function PoolAfterFree(t: Table, pool: set<Key>, a: Addr): set<Key>
    requires a in t.live
  {
    var r, l := t.live[a].right, t.live[a].left;
    var p1 := if r in t.live && t.live[r].kind == FREE_CHUNK then pool - {KeyOf(t, r)} else pool;
    var p2 := if l in t.live && t.live[l].kind == FREE_CHUNK then p1 - {KeyOf(t, l)} else p1;
    var t' := Released(t, a);
    var h := if l in t.live && t.live[l].kind == FREE_CHUNK then l else a;
    if h in t'.live then p2 + {KeyOf(t', h)} else p2
  }

  lemma ReleasedPool(t: Table, pool: set<Key>, a: Addr)
    requires Releases(t, pool, a)
    ensures PoolOk(Released(t, a), PoolAfterFree(t, pool, a))
  {
    ReleasedBlocks(t, pool, a);
    var t', pool' := Released(t, a), PoolAfterFree(t, pool, a);
    forall j ensures EntryOk(t', pool', j) {
      assert EntryOk(t, pool, j);
    }
  }

  /** Every erase of Free finds its entry, and the final insert adds a new one. */
  lemma ErasesFindTheirEntries(t: Table, pool: set<Key>, a: Addr)
    requires Releases(t, pool, a)
    ensures IsFree(t, t.live[a].right) ==> KeyOf(t, t.live[a].right) in pool
    ensures IsFree(t, t.live[a].left) ==> KeyOf(t, t.live[a].left) in pool
    ensures var h := if IsFree(t, t.live[a].left) then t.live[a].left else a;
      h in Released(t, a).live && KeyOf(Released(t, a), h) !in pool
  {
    ReleasedBlocks(t, pool, a);
    Facts(t, a);
    var r, l := t.live[a].right, t.live[a].left;
    if IsFree(t, r) { assert EntryOk(t, pool, KeyOf(t, r)); }
    if IsFree(t, l) { assert EntryOk(t, pool, KeyOf(t, l)); }
    var h := if IsFree(t, l) then l else a;
    assert EntryOk(t, pool, KeyOf(Released(t, a), h));
  }
}
