/** Whole runs of BuddyAllocator: safety of every reachable state, the client's ledger, when the
    counters tell the truth, and what is left once everything has been freed. */
module BuddyHistory {
  import opened Words
  import opened Sums
  import opened BlockTable
  import opened PoolOrder
  import opened BuddyModel
  import opened Regions
  import opened Accounting
  import opened BuddyRuns
  import opened BuddyLaws

  /** A client's call, with the system allocator's answer to it. */
  datatype Event = Alloc(n: nat, answer: Answer) | Free(p: Addr)

  ghost predicate Legal(c: Config, s: State, e: Event)
  {
    match e
    case Alloc(n, answer) => AllocLegal(c, s, n, answer)
    case Free(p) => FreeLegal(s, p)
  }

  ghost function After(c: Config, s: State, e: Event): State
    requires Inv(c, s) && Legal(c, s, e)
  {
    match e
    case Alloc(n, answer) => AfterAlloc(c, s, n, answer).0
    case Free(p) => AfterFree(c, s, p)
  }

  lemma StepKeeps(c: Config, s: State, e: Event)
    requires Inv(c, s) && Legal(c, s, e)
    ensures Inv(c, After(c, s, e))
  {
    match e
    case Alloc(n, answer) => AllocKeeps(c, s, n, answer);
    case Free(p) => FreeKeeps(c, s, p);
  }

  /** Every call of the run meets what it asks of the client in the state it is made in. */
  ghost predicate LegalRun(c: Config, s: State, es: seq<Event>)
    requires Inv(c, s)
    decreases |es|
  {
    es == [] ||
    (Legal(c, s, es[0]) &&
     (StepKeeps(c, s, es[0]);
      LegalRun(c, After(c, s, es[0]), es[1..])))
  }

  ghost function Final(c: Config, s: State, es: seq<Event>): State
    requires Inv(c, s) && LegalRun(c, s, es)
    decreases |es|
  {
    if es == [] then s else
      StepKeeps(c, s, es[0]);
      Final(c, After(c, s, es[0]), es[1..])
  }

  lemma InitOk(c: Config)
    requires c.Valid()
    ensures Inv(c, Init()) && Counted(Init()) && Sized(Init().table, c.min) && Handed(Init().table) == map[]
  {
    assert Totals(Init().table, ARENA_CHUNK) == map[] && Totals(Init().table, FREE_CHUNK) == map[];
    assert Arenas(Init().table) == {};
  }

  /** Where every run begins. */
  ghost function Start(c: Config): (s: State)
    requires c.Valid()
    ensures Inv(c, s) && s == Init()
  {
    InitOk(c);
    Init()
  }

  /** The invariant holds in every reachable state. */
  lemma {:induction false} RunSafe(c: Config, s: State, es: seq<Event>)
    requires Inv(c, s) && LegalRun(c, s, es)
    ensures Inv(c, Final(c, s, es))
    decreases |es|
  {
    if es != [] {
      StepKeeps(c, s, es[0]);
      RunSafe(c, After(c, s, es[0]), es[1..]);
    }
  }

  // ---- the client's view ----

  /** What the client may rely on: the blocks it got and has not freed, with the sizes it asked for. */
  ghost function Ledger(c: Config, s: State, es: seq<Event>, held: map<Addr, nat>): map<Addr, nat>
    requires Inv(c, s) && LegalRun(c, s, es)
    decreases |es|
  {
    if es == [] then held else
      StepKeeps(c, s, es[0]);
      Ledger(c, After(c, s, es[0]), es[1..], Noted(c, s, es[0], held))
  }

  ghost function Noted(c: Config, s: State, e: Event, held: map<Addr, nat>): map<Addr, nat>
    requires Inv(c, s) && Legal(c, s, e)
  {
    match e
    case Alloc(n, answer) =>
      var p := AfterAlloc(c, s, n, answer).1;
      if p == 0 then held else held[p - DESC_SIZE := n]
    case Free(p) => held - {p - DESC_SIZE}
  }

  ghost predicate NoWraps(c: Config, es: seq<Event>)
    requires c.Valid()
  {
    forall i | 0 <= i < |es| :: es[i].Alloc? ==> NoWrap(c, es[i].n)
  }

  ghost predicate Honours(held: map<Addr, nat>, t: Table)
  {
    held.Keys == Handed(t).Keys && forall a | a in held :: held[a] <= Handed(t)[a]
  }

  lemma AllocHonours(held: map<Addr, nat>, t: Table, t': Table, a: Addr, n: nat)
    requires Honours(held, t) && HandsOut(t, t', a, n)
    ensures Honours(held[a := n], t')
  {
  }

  lemma AllocStepHonours(c: Config, s: State, n: nat, answer: Answer, held: map<Addr, nat>)
    requires Inv(c, s) && AllocLegal(c, s, n, answer) && Honours(held, s.table) && NoWrap(c, n)
    ensures Honours(Noted(c, s, Alloc(n, answer), held), After(c, s, Alloc(n, answer)).table)
  {
    AllocFits(c, s, n, answer);
    AllocFails(c, s, n, answer);
    var (s', p) := AfterAlloc(c, s, n, answer);
    if p != 0 { AllocHonours(held, s.table, s'.table, p - DESC_SIZE, n); }
  }

  lemma StepHonours(c: Config, s: State, e: Event, held: map<Addr, nat>)
    requires Inv(c, s) && Legal(c, s, e) && Honours(held, s.table) && (e.Alloc? ==> NoWrap(c, e.n))
    ensures Honours(Noted(c, s, e, held), After(c, s, e).table)
  {
    match e
    case Alloc(n, answer) => AllocStepHonours(c, s, n, answer, held);
    case Free(p) => FreeTakes(c, s, p);
  }

  /** Over any run the blocks handed out are exactly those in the client's ledger, each with room
      for what was asked. */
  lemma {:induction false} RunHonours(c: Config, s: State, es: seq<Event>, held: map<Addr, nat>)
    requires Inv(c, s) && LegalRun(c, s, es) && NoWraps(c, es) && Honours(held, s.table)
    ensures Honours(Ledger(c, s, es, held), Final(c, s, es).table)
    decreases |es|
  {
    if es != [] {
      StepKeeps(c, s, es[0]);
      StepHonours(c, s, es[0], held);
      RunHonours(c, After(c, s, es[0]), es[1..], Noted(c, s, es[0], held));
    }
  }

  // ---- the two modes of the cache ----

  /** The same run with the other kind of system allocator. */
  function Other(c: Config): Config { c.(gpu := !c.gpu) }

  ghost predicate Agree(s: State, s': State)
  {
    s' == s.(fallback := s'.fallback)
  }

  lemma AllocAgrees(c: Config, s: State, s': State, n: nat, answer: Answer)
    requires Inv(c, s) && AllocLegal(c, s, n, answer) && Agree(s, s')
    ensures Inv(Other(c), s') && AllocLegal(Other(c), s', n, answer)
    ensures Agree(AfterAlloc(c, s, n, answer).0, AfterAlloc(Other(c), s', n, answer).0)
    ensures AfterAlloc(c, s, n, answer).1 == AfterAlloc(Other(c), s', n, answer).1
  {
    InvAgrees(c, s, s');
    assert From(Other(c), s', Request(c, n), answer) == From(c, s, Request(c, n), answer);
  }

  lemma InvAgrees(c: Config, s: State, s': State)
    requires Inv(c, s) && Agree(s, s')
    ensures Inv(Other(c), s')
  {
    forall b | b in s'.table.regions ensures ArenaOk(Other(c), s'.table, b) {
      assert ArenaOk(c, s.table, b);
    }
  }

  lemma StepAgrees(c: Config, s: State, s': State, e: Event)
    requires Inv(c, s) && Legal(c, s, e) && Agree(s, s')
    ensures Inv(Other(c), s') && Legal(Other(c), s', e) && Agree(After(c, s, e), After(Other(c), s', e))
  {
    InvAgrees(c, s, s');
    match e
    case Alloc(n, answer) => AllocAgrees(c, s, s', n, answer);
    case Free(p) =>
  }

  // ---- the counters ----

  /** The counters hold the bytes in use and the bytes free. */
  ghost predicate Counted(s: State)
  {
    s.used == Bytes(s.table, ARENA_CHUNK) && s.free == Bytes(s.table, FREE_CHUNK)
  }

  lemma ArenasFit(c: Config, s: State)
    requires Inv(c, s)
    ensures Bytes(s.table, ARENA_CHUNK) + Bytes(s.table, FREE_CHUNK) == c.max * |Arenas(s.table)| < WORD
  {
    forall b | b in Arenas(s.table) ensures s.table.regions[b].size == c.max && b + c.max <= WORD {
      assert ArenaOk(c, s.table, b) && s.table.RegionOk(b);
    }
    RegionsFit(s.table, Arenas(s.table), c.max, WORD);
  }

  lemma ServeCounts(c: Config, s: State, k: Key, size: nat)
    requires Inv(c, s) && k in s.pool && DESC_SIZE <= size <= k.size && Counted(s)
    ensures k.addr in s.table.live && k.addr in s.table.home && k == KeyOf(s.table, k.addr)
    ensures k.addr in Occupy(s.table, k.addr, size).live
    ensures Counted(Serve(s, k, size)) <==> Occupy(s.table, k.addr, size).live[k.addr].total == size
    ensures size <= s.free && s.used + size < WORD
  {
    ServeKeeps(c, s, k, size);
    OccupyBytes(s.table, s.pool, k, size);
    OccupyBlocks(s.table, s.pool, k, size);
    ArenasFit(c, s);
    SumRemove(Totals(s.table, FREE_CHUNK), k.addr);
    PlusIs(s.used, size);
    MinusIs(s.free, size);
  }

  lemma RefillCounts(c: Config, s: State, answer: Answer)
    requires Inv(c, s) && answer.Granted? && DESC_SIZE <= c.max && Fresh(s.table, answer, c.max) && Counted(s)
    ensures Counted(Refill(c, s, answer))
  {
    RefillKeeps(c, s, answer);
    ArenasFit(c, Refill(c, s, answer));
    AddRegionBytes(s.table, answer.addr, Region(c.max, answer.index, false));
    PlusIs(s.free, c.max);
  }

  /** An Alloc keeps the counters true exactly if it is refused, goes to the system allocator, or
      hands out a block of the size asked for. */
  lemma AllocCounts(c: Config, s: State, n: nat, answer: Answer)
    requires Inv(c, s) && AllocLegal(c, s, n, answer) && Counted(s)
    ensures var (s', p) := AfterAlloc(c, s, n, answer);
      Counted(s') <==> p == 0 || Request(c, n) > c.max || GrantedSize(c, s, n, answer) == Request(c, n)
  {
    var size := Request(c, n);
    AllocFails(c, s, n, answer);
    if From(c, s, size, answer).Direct? {
      AddRegionBytes(s.table, answer.addr, Region(size, answer.index, true));
    } else if !From(c, s, size, answer).Refused? {
      ArenaStep(c, s, n, answer);
      if From(c, s, size, answer).Refilled? { RefillCounts(c, s, answer); }
      var (s0, k) := Ready(c, s, size, answer);
      ArenaGrant(c, s, n, answer);
      ServeCounts(c, s0, k, size);
    }
  }

  /** Free always keeps them true, and neither subtraction underflows. */
  lemma FreeCounts(c: Config, s: State, p: Addr)
    requires Inv(c, s) && FreeLegal(s, p) && Counted(s)
    ensures Counted(AfterFree(c, s, p))
    ensures s.table.live[p - DESC_SIZE].kind == ARENA_CHUNK ==> s.table.live[p - DESC_SIZE].total <= s.used
  {
    var a, t := p - DESC_SIZE, s.table;
    if t.live[a].kind == HUGE_CHUNK {
      HugeWhole(t, a);
      DropRegionBytes(t, a);
    } else {
      ReleasedBytes(t, s.pool, a);
      ArenasFit(c, s);
      SumRemove(Totals(t, ARENA_CHUNK), a);
      MinusIs(s.used, t.live[a].total);
      PlusIs(s.free, t.live[a].total);
    }
  }

  /** The last place where an arena can be cut. */
  function LastCut(c: Config): int
    requires c.Valid()
  {
    (c.max - 1) / c.min * c.min
  }

  /** What is left of an arena after its last cut is more than a descriptor, if there can be a cut. */
  predicate Exact(c: Config)
    requires c.Valid()
  {
    LastCut(c) < Request(c, 0) || c.max - LastCut(c) > DESC_SIZE
  }

  lemma LastCutIs(c: Config)
    requires c.Valid()
    ensures Multiple(LastCut(c), c.min) && LastCut(c) < c.max <= LastCut(c) + c.min
  {
    var q := (c.max - 1) / c.min;
    assert c.max - 1 == q * c.min + (c.max - 1) % c.min;
    MultipleOf(q, c.min);
  }

  lemma CutsBelow(c: Config, x: int)
    requires c.Valid() && Multiple(x, c.min) && x < c.max
    ensures x <= LastCut(c)
  {
    LastCutIs(c);
    if LastCut(c) < x { MultipleBelow(LastCut(c), x, c.min); }
  }

  lemma LeastRequest(c: Config, n: nat)
    requires c.Valid() && n < WORD && NoWrap(c, n)
    ensures Request(c, 0) <= Request(c, n) && Multiple(Request(c, n), c.min)
  {
    RequestEnough(c, n);
    RequestEnough(c, 0);
    if NoWrap(c, 0) && Request(c, n) < Request(c, 0) {
      MultipleBelow(Request(c, n), Request(c, 0), c.min);
    }
  }

  /** With exact chunk sizes a block either has the size asked for or can be cut. */
  lemma CutsExactly(c: Config, s: State, a: Addr, n: nat)
    requires Inv(c, s) && Sized(s.table, c.min) && Exact(c) && IsFree(s.table, a)
    requires Multiple(n, c.min) && Request(c, 0) <= n <= s.table.live[a].total
    ensures s.table.live[a].total == n || s.table.live[a].total > n + DESC_SIZE
  {
    var t := s.table;
    Facts(t, a);
    assert ArenaOk(c, t, t.home[a]) && SizedAt(t, a, c.min);
    var off, total := a - t.home[a], t.live[a].total;
    Multiples(off, n, c.min);
    if total != n {
      CutsBelow(c, off + n);
      if t.live[a].right != 0 {
        Facts(t, t.live[a].right);
        MultipleBelow(n, total, c.min);
        Multiples(off, total, c.min);
        CutsBelow(c, off + total);
        LastCutIs(c);
      }
    }
  }

  ghost predicate Accounts(c: Config, s: State)
  {
    Counted(s) && Sized(s.table, c.min)
  }

  lemma ServeAccounts(c: Config, s: State, k: Key, size: nat)
    requires Inv(c, s) && k in s.pool && DESC_SIZE <= size <= k.size && Accounts(c, s)
    requires Exact(c) && Multiple(size, c.min) && Request(c, 0) <= size
    ensures k.addr in s.table.live && k.addr in s.table.home && k == KeyOf(s.table, k.addr)
    ensures k.addr in Occupy(s.table, k.addr, size).live && Accounts(c, Serve(s, k, size))
  {
    ServeCounts(c, s, k, size);
    PoolEntry(s.table, s.pool, k);
    CutsExactly(c, s, k.addr, size);
    OccupyBlocks(s.table, s.pool, k, size);
    OccupySized(s.table, s.pool, k, size, c.min);
  }

  lemma AllocAccounts(c: Config, s: State, n: nat, answer: Answer)
    requires Inv(c, s) && AllocLegal(c, s, n, answer) && Accounts(c, s) && Exact(c) && NoWrap(c, n)
    ensures Accounts(c, AfterAlloc(c, s, n, answer).0)
  {
    var size := Request(c, n);
    LeastRequest(c, n);
    if From(c, s, size, answer).Direct? {
      AddRegionBytes(s.table, answer.addr, Region(size, answer.index, true));
      AddRegionSized(s.table, answer.addr, Region(size, answer.index, true), c.min);
    } else if !From(c, s, size, answer).Refused? {
      ReadyOk(c, s, size, answer);
      if From(c, s, size, answer).Refilled? {
        RefillCounts(c, s, answer);
        AddRegionSized(s.table, answer.addr, Region(c.max, answer.index, false), c.min);
      }
      var (s0, k) := Ready(c, s, size, answer);
      ServeAccounts(c, s0, k, size);
    }
  }

  lemma FreeAccounts(c: Config, s: State, p: Addr)
    requires Inv(c, s) && FreeLegal(s, p) && Accounts(c, s)
    ensures Accounts(c, AfterFree(c, s, p))
  {
    FreeCounts(c, s, p);
    var a := p - DESC_SIZE;
    if s.table.live[a].kind == HUGE_CHUNK {
      DropRegionSized(s.table, a, c.min);
    } else {
      ReleasedSized(s.table, s.pool, a, c.min);
    }
  }

  lemma {:induction false} RunAccounts(c: Config, s: State, es: seq<Event>)
    requires Inv(c, s) && LegalRun(c, s, es) && NoWraps(c, es) && Exact(c) && Accounts(c, s)
    ensures Accounts(c, Final(c, s, es))
    decreases |es|
  {
    if es != [] {
      StepKeeps(c, s, es[0]);
      match es[0] {
        case Alloc(n, answer) => AllocAccounts(c, s, n, answer);
        case Free(p) => FreeAccounts(c, s, p);
      }
      RunAccounts(c, After(c, s, es[0]), es[1..]);
    }
  }

  lemma WholeRequest(c: Config, n: nat)
    requires c.Valid() && Multiple(n, c.min) && DESC_SIZE <= n < WORD
    ensures NoWrap(c, n - DESC_SIZE) && Request(c, n - DESC_SIZE) == n
  {
  }

  lemma LeastFits(c: Config)
    requires c.Valid()
    ensures Request(c, 0) >= DESC_SIZE
  {
    RequestEnough(c, 0);
    LeastPadding(c.min);
  }

  lemma LeastPadding(min: nat)
    requires 0 < min < WORD
    ensures DESC_SIZE + Padding(DESC_SIZE, min) < WORD
  {
    if min > DESC_SIZE { assert DESC_SIZE % min == DESC_SIZE; }
  }

  lemma LastCutRequested(c: Config)
    requires c.Valid() && !Exact(c)
    ensures DESC_SIZE <= LastCut(c) < c.max <= LastCut(c) + DESC_SIZE
    ensures NoWrap(c, LastCut(c) - DESC_SIZE) && Request(c, LastCut(c) - DESC_SIZE) == LastCut(c)
  {
    LastCutIs(c);
    LeastFits(c);
    WholeRequest(c, LastCut(c));
  }

  lemma FirstServe(c: Config, size: nat)
    requires c.Valid() && DESC_SIZE <= size < c.max <= size + DESC_SIZE
    ensures Inv(c, Init()) && From(c, Init(), size, Granted(1, 0)) == Refilled
    ensures Fresh(Init().table, Granted(1, 0), c.max)
    ensures var (s, k) := Ready(c, Init(), size, Granted(1, 0));
      (&& Inv(c, s) && Counted(s) && k in s.pool && size <= k.size
       && k.addr in s.table.live && k.addr in s.table.home && k == KeyOf(s.table, k.addr)
       && k.addr in Occupy(s.table, k.addr, size).live && !Counted(Serve(s, k, size)))
  {
    InitOk(c);
    var (s, k) := Ready(c, Init(), size, Granted(1, 0));
    ReadyOk(c, Init(), size, Granted(1, 0));
    RefillCounts(c, Init(), Granted(1, 0));
    ServeCounts(c, s, k, size);
    OccupyBlocks(s.table, s.pool, k, size);
  }

  /** Otherwise a first request up to the last cut already drifts. */
  lemma Drifts(c: Config) returns (e: Event)
    requires c.Valid() && !Exact(c)
    ensures Legal(c, Start(c), e) && NoWraps(c, [e]) && !Counted(After(c, Start(c), e))
  {
    LastCutRequested(c);
    FirstServe(c, LastCut(c));
    e := Alloc(LastCut(c) - DESC_SIZE, Granted(1, 0));
    ArenaStep(c, Start(c), LastCut(c) - DESC_SIZE, Granted(1, 0));
  }

  /** The counters are true in every reachable state if and only if the chunk sizes are exact. */
  lemma CountersTrueIff(c: Config)
    requires c.Valid()
    ensures Exact(c) <==> forall es | LegalRun(c, Start(c), es) && NoWraps(c, es) :: Counted(Final(c, Start(c), es))
  {
    InitOk(c);
    if Exact(c) {
      forall es | LegalRun(c, Start(c), es) && NoWraps(c, es) ensures Counted(Final(c, Start(c), es)) {
        RunAccounts(c, Start(c), es);
      }
    } else {
      var e := Drifts(c);
      assert Final(c, Start(c), [e]) == After(c, Start(c), e);
      assert LegalRun(c, Start(c), [e]);
    }
  }

  // ---- when everything has been freed ----

  /** The entry of an arena that is one free block. */
  function ArenaKey(t: Table, b: Addr): Key
    requires b in t.regions
  {
    Key(t.regions[b].index, t.regions[b].size, b)
  }

  lemma KeyIsWhole(c: Config, s: State, b: Addr, a: Addr)
    requires Inv(c, s) && b in Arenas(s.table) && ArenaKey(s.table, b) in s.pool
    requires a in s.table.live && s.table.home[a] == b
    ensures a == b && IsFree(s.table, a)
  {
    assert EntryOk(s.table, s.pool, ArenaKey(s.table, b));
    Facts(s.table, a);
    Facts(s.table, b);
    assert s.table.Apart(b, a);
  }

  /** Every arena is back in the pool as one block if and only if no block is occupied. */
  lemma FullyCoalesced(c: Config, s: State)
    requires Inv(c, s)
    ensures (forall b | b in Arenas(s.table) :: ArenaKey(s.table, b) in s.pool)
       <==> (forall a | a in s.table.live :: s.table.live[a].kind != ARENA_CHUNK)
  {
    var t := s.table;
    if forall b | b in Arenas(t) :: ArenaKey(t, b) in s.pool {
      forall a | a in t.live ensures t.live[a].kind != ARENA_CHUNK {
        Facts(t, a);
        if t.home[a] in Arenas(t) { KeyIsWhole(c, s, t.home[a], a); }
      }
    }
    if forall a | a in t.live :: t.live[a].kind != ARENA_CHUNK {
      forall b | b in Arenas(t) ensures ArenaKey(t, b) in s.pool {
        IdleRegion(t, b);
        assert EntryOk(t, s.pool, ArenaKey(t, b));
      }
    }
  }

  /** What the destructor hands back then: each arena once, as it was obtained. */
  lemma Drained(c: Config, s: State)
    requires Inv(c, s) && forall a | a in s.table.live :: s.table.live[a].kind != ARENA_CHUNK
    ensures s.pool == set b | b in Arenas(s.table) :: ArenaKey(s.table, b)
    ensures forall k | k in s.pool ::
      DESC_SIZE <= k.size == c.max && k.addr in s.table.live &&
        s.table.live[k.addr] == Desc(FREE_CHUNK, k.index, k.size - DESC_SIZE, k.size, 0, 0)
  {
    FullyCoalesced(c, s);
    forall k | k in s.pool
      ensures k.addr in Arenas(s.table) && k == ArenaKey(s.table, k.addr) && DESC_SIZE <= k.size == c.max &&
        s.table.live[k.addr] == Desc(FREE_CHUNK, k.index, k.size - DESC_SIZE, k.size, 0, 0) {
      PoolEntry(s.table, s.pool, k);
      Facts(s.table, k.addr);
      KeyIsWhole(c, s, s.table.home[k.addr], k.addr);
      IdleRegion(s.table, k.addr);
      assert ArenaOk(c, s.table, k.addr);
    }
  }

  /** Once the client has freed all it got, every region held is an arena of one free block. */
  lemma RunDrained(c: Config, es: seq<Event>)
    requires c.Valid() && LegalRun(c, Start(c), es) && NoWraps(c, es) && Ledger(c, Start(c), es, map[]) == map[]
    ensures var s := Final(c, Start(c), es);
      s.pool == (set b | b in s.table.regions :: ArenaKey(s.table, b)) && s.table.live.Keys == s.table.regions.Keys
  {
    InitOk(c);
    RunSafe(c, Start(c), es);
    RunHonours(c, Start(c), es, map[]);
    var s := Final(c, Start(c), es);
    NothingTaken(c, s);
  }

  lemma NothingTaken(c: Config, s: State)
    requires Inv(c, s) && Handed(s.table) == map[]
    ensures s.pool == set b | b in s.table.regions :: ArenaKey(s.table, b)
    ensures s.table.live.Keys == s.table.regions.Keys
  {
    var t := s.table;
    forall a | a in t.live ensures IsFree(t, a) {
      Facts(t, a);
      assert a !in Handed(t);
    }
    Drained(c, s);
    forall b | b in t.regions ensures b in Arenas(t) && b in t.live {
      assert t.RegionOk(b);
      Facts(t, b);
    }
    forall a | a in t.live ensures a in t.regions {
      assert EntryOk(t, s.pool, KeyOf(t, a));
    }
    assert Arenas(t) == t.regions.Keys;
  }
}
