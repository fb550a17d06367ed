/** What BuddyAllocator promises its clients, over one call and over whole runs. */
module BuddyLaws {
  import opened Words
  import opened BlockTable
  import opened PoolOrder
  import opened BuddyModel
  import opened Regions
  import opened BuddyRuns

  // ---- what clients hold ----

  /** The size of the payload of block `a` if it is handed out. */
  ghost function PayloadIf(t: Table, a: Addr): nat
  {
    if Taken(t, a) then t.live[a].size else 0
  }

  /** The blocks handed out, and the size of each one's payload; the client's pointer is DESC_SIZE higher. */
  ghost function Handed(t: Table): map<Addr, nat>
  {
    map a | a in t.live && Taken(t, a) :: PayloadIf(t, a)
  }

  /** Payloads overlap neither each other nor any live descriptor. */
  lemma Isolation(t: Table, a: Addr, b: Addr)
    requires t.Linked() && Taken(t, a) && b in t.live && a != b
    ensures a + DESC_SIZE + Handed(t)[a] <= b || b + DESC_SIZE + t.live[b].size <= a
    ensures a > 0 && a + DESC_SIZE + Handed(t)[a] <= WORD
  {
    Facts(t, a);
    Facts(t, b);
    assert t.Apart(a, b) && t.Apart(b, a);
  }

  lemma OccupyHands(t: Table, pool: set<Key>, k: Key, n: nat)
    requires Allocates(t, pool, k, n)
    ensures IsFree(t, k.addr) && k.addr in t.home && k.addr in Occupy(t, k.addr, n).live
    ensures HandsOut(t, Occupy(t, k.addr, n), k.addr, n - DESC_SIZE)
  {
    OccupyLinked(t, pool, k, n);
    OccupyBlocks(t, pool, k, n);
    var t' := Occupy(t, k.addr, n);
    Facts(t', k.addr);
    forall a ensures a in Handed(t') <==> a in Handed(t)[k.addr := t'.live[k.addr].size] {
    }
  }

  /** One new block `a` is handed out, with a payload of at least `size`. */
  ghost predicate HandsOut(t: Table, t': Table, a: Addr, size: int)
  {
    && a !in Handed(t) && a in Handed(t')
    && Handed(t') == Handed(t)[a := Handed(t')[a]]
    && Handed(t')[a] >= size
  }

  lemma DirectHands(t: Table, a: Addr, r: Region)
    requires Adds(t, a, r) && r.huge
    ensures HandsOut(t, AddRegion(t, a, r), a, r.size - DESC_SIZE)
  {
    AddedUnused(t, a, r);
    assert Handed(AddRegion(t, a, r)) == Handed(t)[a := r.size - DESC_SIZE];
  }

  /** A successful Alloc hands out one new block with room for the request. */
  lemma AllocHands(c: Config, s: State, n: nat, answer: Answer)
    requires Inv(c, s) && AllocLegal(c, s, n, answer)
    ensures var (s', p) := AfterAlloc(c, s, n, answer);
      p != 0 ==> HandsOut(s.table, s'.table, p - DESC_SIZE, Request(c, n) - DESC_SIZE)
  {
    var size := Request(c, n);
    match From(c, s, size, answer)
    case Refused =>
    case Direct =>
      DirectHands(s.table, answer.addr, Region(size, answer.index, true));
    case _ =>
      ReadyOk(c, s, size, answer);
      var (s0, k) := Ready(c, s, size, answer);
      ReadyHands(c, s, size, answer);
      ServeHands(c, s0, k, size);
  }

  lemma ServeHands(c: Config, s: State, k: Key, size: nat)
    requires Inv(c, s) && k in s.pool && DESC_SIZE <= size <= k.size
    ensures k.addr in s.table.live && k.addr in s.table.home && k == KeyOf(s.table, k.addr)
    ensures k.addr in Occupy(s.table, k.addr, size).live
    ensures HandsOut(s.table, Serve(s, k, size).table, k.addr, size - DESC_SIZE)
  {
    ServeKeeps(c, s, k, size);
    OccupyHands(s.table, s.pool, k, size);
  }

  /** The payload holds what was asked for, unless computing its size wraps around. */
  lemma AllocFits(c: Config, s: State, n: nat, answer: Answer)
    requires Inv(c, s) && AllocLegal(c, s, n, answer) && NoWrap(c, n)
    ensures var (s', p) := AfterAlloc(c, s, n, answer); p != 0 ==> HandsOut(s.table, s'.table, p - DESC_SIZE, n)
  {
    AllocHands(c, s, n, answer);
    RequestEnough(c, n);
  }

  /** Alloc fails exactly if the system allocator refuses what the pool cannot serve, and then
      changes nothing. */
  lemma AllocFails(c: Config, s: State, n: nat, answer: Answer)
    requires Inv(c, s) && AllocLegal(c, s, n, answer)
    ensures var (s', p) := AfterAlloc(c, s, n, answer);
      (&& (p == 0 ==> s' == s)
       && (p == 0 <==> answer.Null? && (Request(c, n) > c.max || forall k | k in s.pool :: k.size < Request(c, n))))
  {
    var size := Request(c, n);
    if exists k :: k in s.pool && k.size >= size {
      var k :| k in s.pool && k.size >= size;
      assert k in Fitting(s.pool, size);
    } else {
      assert Fitting(s.pool, size) == {};
    }
    if !From(c, s, size, answer).Refused? && !From(c, s, size, answer).Direct? {
      ReadyOk(c, s, size, answer);
      var (s0, k) := Ready(c, s, size, answer);
      ServeKeeps(c, s0, k, size);
      Facts(s0.table, k.addr);
    }
  }

  // ---- where Alloc takes the memory from ----

  /** Block `a` has been handed out: of `was` bytes it keeps `size`, unless the rest would be no more
      than a descriptor. */
  ghost predicate CutTo(t: Table, a: Addr, was: nat, size: nat)
  {
    && a in t.live && t.live[a].kind == ARENA_CHUNK
    && t.live[a].total == (if was - size <= 64 then was else size)
    && (was - size > 64 ==> a + size in t.live && t.live[a + size].kind == FREE_CHUNK)
    && (was - size > 64 ==> t.live[a + size].total == was - size && t.live[a + size].index == t.live[a].index)
  }

  lemma ServeCuts(c: Config, s: State, k: Key, size: nat)
    requires Inv(c, s) && k in s.pool && DESC_SIZE <= size <= k.size
    ensures k.addr in s.table.live && k.addr in s.table.home && k == KeyOf(s.table, k.addr)
    ensures k.addr in Occupy(s.table, k.addr, size).live
    ensures CutTo(Occupy(s.table, k.addr, size), k.addr, k.size, size)
    ensures Occupy(s.table, k.addr, size).regions == s.table.regions
  {
    ServeKeeps(c, s, k, size);
    OccupyBlocks(s.table, s.pool, k, size);
  }

  /** A request that some pool entry can serve is served from the pool, by the one with the least
      index, of these the smallest, of these the lowest. No arena is fetched. */
  lemma AllocFromPool(c: Config, s: State, n: nat, answer: Answer) returns (j: Key)
    requires Inv(c, s) && AllocLegal(c, s, n, answer) && Request(c, n) <= c.max
    requires exists k :: k in s.pool && k.size >= Request(c, n)
    ensures j in s.pool && j.size >= Request(c, n)
    ensures forall k | k in s.pool && k.size >= Request(c, n) ::
      j.index < k.index || (j.index == k.index && (j.size < k.size || (j.size == k.size && j.addr <= k.addr)))
    ensures var (s', p) := AfterAlloc(c, s, n, answer);
      (&& p == j.addr + 64 && CutTo(s'.table, j.addr, j.size, Request(c, n))
       && s'.table.regions == s.table.regions && s'.fallback == s.fallback)
  {
    var size := Request(c, n);
    var w :| w in s.pool && w.size >= size;
    assert w in Fitting(s.pool, size);
    j := Choice(s.pool, size).value;
    forall k | k in s.pool && k.size >= size
      ensures j == k || j.Less(k) {
      assert k in Fitting(s.pool, size);
    }
    ArenaStep(c, s, n, answer);
    ServeCuts(c, s, j, size);
  }

  /** Only when none can serve it, an arena is fetched and cut; arenas of index 1 are counted on a GPU. */
  lemma AllocFromArena(c: Config, s: State, n: nat, answer: Answer)
    requires Inv(c, s) && AllocLegal(c, s, n, answer) && Request(c, n) <= c.max && answer.Granted?
    requires forall k | k in s.pool :: k.size < Request(c, n)
    ensures var (s', p) := AfterAlloc(c, s, n, answer);
      (&& p == answer.addr + 64 && CutTo(s'.table, answer.addr, c.max, Request(c, n))
       && s'.table.regions == s.table.regions[answer.addr := Region(c.max, answer.index, false)]
       && s'.fallback == if c.gpu && answer.index == 1 then Plus(s.fallback, 1) else s.fallback)
  {
    var size := Request(c, n);
    assert Fitting(s.pool, size) == {};
    ArenaStep(c, s, n, answer);
    RefillKeeps(c, s, answer);
    ServeCuts(c, Refill(c, s, answer), Key(answer.index, c.max, answer.addr), size);
  }

  /** A request beyond the maximum chunk size gets a region of its own; pool and counters stay. */
  lemma AllocDirect(c: Config, s: State, n: nat, answer: Answer)
    requires Inv(c, s) && AllocLegal(c, s, n, answer) && Request(c, n) > c.max && answer.Granted?
    ensures var (s', p) := AfterAlloc(c, s, n, answer);
      (&& p == answer.addr + 64
       && s'.table.regions == s.table.regions[answer.addr := Region(Request(c, n), answer.index, true)]
       && s' == s.(table := s'.table) && answer.addr in s'.table.live
       && s'.table.live[answer.addr] == Desc(HUGE_CHUNK, answer.index, Request(c, n) - 64, Request(c, n), 0, 0)
       && forall a | a in s.table.live :: a in s'.table.live && s'.table.live[a] == s.table.live[a])
  {
    AddedUnused(s.table, answer.addr, Region(Request(c, n), answer.index, true));
  }

  lemma ReadyHands(c: Config, s: State, size: nat, answer: Answer)
    requires Inv(c, s) && DESC_SIZE <= size <= c.max && Fresh(s.table, answer, c.max)
    requires !From(c, s, size, answer).Refused?
    ensures Handed(Ready(c, s, size, answer).0.table) == Handed(s.table)
  {
    if From(c, s, size, answer).Refilled? {
      AddedUnused(s.table, answer.addr, Region(c.max, answer.index, false));
    }
  }

  lemma ReleasedHands(t: Table, pool: set<Key>, a: Addr)
    requires Releases(t, pool, a)
    ensures Handed(Released(t, a)) == Handed(t) - {a}
  {
    ReleasedBlocks(t, pool, a);
    Facts(t, a);
    forall b ensures b in Handed(Released(t, a)) <==> b in Handed(t) - {a} {
    }
  }

  /** Free takes back the block and touches no other. */
  lemma FreeTakes(c: Config, s: State, p: Addr)
    requires Inv(c, s) && FreeLegal(s, p)
    ensures p - DESC_SIZE in Handed(s.table) && Handed(AfterFree(c, s, p).table) == Handed(s.table) - {p - DESC_SIZE}
  {
    if s.table.live[p - DESC_SIZE].kind == ARENA_CHUNK {
      ReleasedHands(s.table, s.pool, p - DESC_SIZE);
    }
  }

  // ---- round trip ----

  lemma SamePool(t: Table, p: set<Key>, q: set<Key>)
    requires PoolOk(t, p) && PoolOk(t, q)
    ensures p == q
  {
    forall k ensures k in p <==> k in q {
      assert EntryOk(t, p, k) && EntryOk(t, q, k);
    }
  }

  lemma LeftNotFree(t: Table, a: Addr)
    requires t.Linked() && t.Coalesced() && IsFree(t, a)
    ensures !IsFree(t, t.live[a].left) && !IsFree(t, t.live[a].right)
  {
    Facts(t, a);
    NoZero(t);
    assert t.NoFreePair(a);
    if t.live[a].left in t.live { assert t.NoFreePair(t.live[a].left); }
  }

  /** Releasing what was just handed out restores every block and every link. */
  lemma ReleaseUndoesOccupy(t: Table, pool: set<Key>, k: Key, n: nat)
    requires Allocates(t, pool, k, n)
    ensures IsFree(t, k.addr) && k.addr in t.home && k.addr in Occupy(t, k.addr, n).live
    ensures Released(Occupy(t, k.addr, n), k.addr) == t
  {
    var a := k.addr;
    OccupyLinked(t, pool, k, n);
    var cut := Split(t, a, n);
    assert cut.live[a].kind == FREE_CHUNK;
    assert Marked(Occupy(t, a, n), a).live == cut.live;
    assert Marked(Occupy(t, a, n), a) == cut;
    LeftNotFree(t, a);
    NoZero(t);
    Facts(t, a);
    if n + DESC_SIZE < k.size {
      MergeUndoesSplit(t, a, n);
    }
    assert JoinRight(cut, a) == t;
  }

  /** Where a counter ends up when different amounts are added and taken away. */
  lemma CounterRound(x: nat, n: nat, g: nat)
    requires x < WORD && n < WORD && g < WORD
    ensures Minus(Plus(x, n), g) == x <==> g == n
    ensures Plus(Minus(x, n), g) == x <==> g == n
  {
    PlusIs(x, n);
    MinusIs(Plus(x, n), g);
    MinusIs(x, n);
    PlusIs(Minus(x, n), g);
  }

  lemma ServeRestores(c: Config, s: State, k: Key, size: nat)
    requires Inv(c, s) && k in s.pool && DESC_SIZE <= size <= k.size
    ensures k.addr in s.table.live && k.addr in s.table.home && k == KeyOf(s.table, k.addr)
    ensures k.addr in Occupy(s.table, k.addr, size).live && Inv(c, Serve(s, k, size))
    ensures FreeLegal(Serve(s, k, size), k.addr + DESC_SIZE)
    ensures var s' := AfterFree(c, Serve(s, k, size), k.addr + DESC_SIZE);
      s'.table == s.table && s'.pool == s.pool && s'.fallback == s.fallback
    ensures Serve(s, k, size).table.live[k.addr].kind == ARENA_CHUNK
  {
    ServeKeeps(c, s, k, size);
    var s1 := Serve(s, k, size);
    ReleaseUndoesOccupy(s.table, s.pool, k, size);
    OccupyBlocks(s.table, s.pool, k, size);
    ReleasedPool(s1.table, s1.pool, k.addr);
    SamePool(s.table, s.pool, PoolAfterFree(s1.table, s1.pool, k.addr));
  }

  lemma ServeRoundTrip(c: Config, s: State, k: Key, size: nat)
    requires Inv(c, s) && k in s.pool && DESC_SIZE <= size <= k.size
    ensures k.addr in s.table.live && k.addr in s.table.home && k == KeyOf(s.table, k.addr)
    ensures k.addr in Occupy(s.table, k.addr, size).live && Inv(c, Serve(s, k, size))
    ensures FreeLegal(Serve(s, k, size), k.addr + DESC_SIZE)
    ensures Restores(s, AfterFree(c, Serve(s, k, size), k.addr + DESC_SIZE),
      Occupy(s.table, k.addr, size).live[k.addr].total == size)
  {
    ServeRestores(c, s, k, size);
    var s1 := Serve(s, k, size);
    Facts(s1.table, k.addr);
    Facts(s.table, k.addr);
    CounterRound(s.used, size, s1.table.live[k.addr].total);
    CounterRound(s.free, size, s1.table.live[k.addr].total);
  }

  /** `s'` is `s` but for the counters, and is `s` if and only if `exact` holds. */
  ghost predicate Restores(s: State, s': State, exact: bool)
  {
    s'.table == s.table && s'.pool == s.pool && s'.fallback == s.fallback && (exact <==> s' == s)
  }

  /** The state an Alloc is undone to: its own, or with the arena that had to be fetched. */
  ghost function Base(c: Config, s: State, n: nat, answer: Answer): State
    requires Inv(c, s) && AllocLegal(c, s, n, answer)
  {
    if From(c, s, Request(c, n), answer).Refilled? then Refill(c, s, answer) else s
  }

  /** The size of the block handed out. */
  ghost function GrantedSize(c: Config, s: State, n: nat, answer: Answer): nat
    requires Inv(c, s) && AllocLegal(c, s, n, answer) && AfterAlloc(c, s, n, answer).1 != 0
  {
    AllocHands(c, s, n, answer);
    var (s', p) := AfterAlloc(c, s, n, answer);
    s'.table.live[p - DESC_SIZE].total
  }

  lemma DirectRoundTrip(c: Config, s: State, n: nat, answer: Answer)
    requires Inv(c, s) && AllocLegal(c, s, n, answer) && Request(c, n) > c.max && answer.Granted?
    ensures var (s1, p) := AfterAlloc(c, s, n, answer);
      p != 0 && Inv(c, s1) && FreeLegal(s1, p) && AfterFree(c, s1, p) == s
    ensures GrantedSize(c, s, n, answer) == Request(c, n)
  {
    HugeKeeps(c, s, answer, Request(c, n));
    DropUndoesAdd(s.table, answer.addr, Region(Request(c, n), answer.index, true));
  }

  lemma ArenaRoundTrip(c: Config, s: State, n: nat, answer: Answer)
    requires Inv(c, s) && AllocLegal(c, s, n, answer) && Request(c, n) <= c.max
    requires !From(c, s, Request(c, n), answer).Refused?
    ensures AfterAlloc(c, s, n, answer).1 != 0
    ensures var (s1, p) := AfterAlloc(c, s, n, answer);
      Inv(c, s1) && FreeLegal(s1, p) &&
        Restores(Base(c, s, n, answer), AfterFree(c, s1, p), GrantedSize(c, s, n, answer) == Request(c, n))
  {
    ArenaStep(c, s, n, answer);
    var (s0, k) := Ready(c, s, Request(c, n), answer);
    ArenaGrant(c, s, n, answer);
    ServeRoundTrip(c, s0, k, Request(c, n));
  }

  lemma ArenaGrant(c: Config, s: State, n: nat, answer: Answer)
    requires Inv(c, s) && AllocLegal(c, s, n, answer) && Request(c, n) <= c.max
    requires !From(c, s, Request(c, n), answer).Refused?
    ensures AfterAlloc(c, s, n, answer).1 != 0
    ensures var (s1, p) := AfterAlloc(c, s, n, answer);
      p - DESC_SIZE in s1.table.live && GrantedSize(c, s, n, answer) == s1.table.live[p - DESC_SIZE].total
  {
    ArenaStep(c, s, n, answer);
    var (s0, k) := Ready(c, s, Request(c, n), answer);
    Facts(s0.table, k.addr);
  }

  /** Alloc followed by Free of its result restores the blocks, the links and the pool,
      and the two counters exactly if the block has the size asked for. */
  lemma RoundTrip(c: Config, s: State, n: nat, answer: Answer)
    requires Inv(c, s) && AllocLegal(c, s, n, answer) && AfterAlloc(c, s, n, answer).1 != 0
    ensures var (s1, p) := AfterAlloc(c, s, n, answer);
      Inv(c, s1) && FreeLegal(s1, p) &&
        Restores(Base(c, s, n, answer), AfterFree(c, s1, p), GrantedSize(c, s, n, answer) == Request(c, n))
  {
    if From(c, s, Request(c, n), answer).Direct? {
      DirectRoundTrip(c, s, n, answer);
    } else {
      ArenaRoundTrip(c, s, n, answer);
    }
  }
}
