/** BuddyAllocator as a state machine: what one Alloc or Free does to the state, what every
    state keeps, and what follows for whole runs. */
module BuddyRuns {
  import opened Words
  import opened BlockTable
  import opened PoolOrder
  import opened BuddyModel
  import opened Regions
  import opened Accounting

  /** min_chunk_size_, max_chunk_size_, and whether the system allocator uses the GPU. */
  datatype Config = Config(min: nat, max: nat, gpu: bool)
  {
    predicate Valid() { 0 < min < WORD && max < WORD }
  }

  /** The blocks, pool_, total_used_, total_free_ and fallback_alloc_count_. */
  datatype State = State(table: Table, pool: set<Key>, used: nat, free: nat, fallback: nat)

  // ---- the size of a request ----

  /** `size` rounded up to a multiple of `alignment`, on size_t. */
  function Align(size: nat, alignment: nat): nat
    requires alignment > 0
  {
    var remaining := size % alignment;
    if remaining == 0 then size else (size + (alignment - remaining)) % WORD
  }

  function Request(c: Config, n: nat): nat
    requires c.Valid()
  {
    Align((n + DESC_SIZE) % WORD, c.min)
  }

  /** What rounding up adds to `size`. */
  function Padding(size: nat, alignment: nat): nat
    requires alignment > 0
  {
    if size % alignment == 0 then 0 else alignment - size % alignment
  }

  /** Rounding up `n` and a descriptor stays within size_t. */
  predicate NoWrap(c: Config, n: nat)
    requires c.Valid()
  {
    n + DESC_SIZE + Padding(n + DESC_SIZE, c.min) < WORD
  }

  lemma AlignUp(size: nat, alignment: nat)
    requires size < WORD && 0 < alignment < WORD
    ensures if size + Padding(size, alignment) < WORD then Align(size, alignment) == size + Padding(size, alignment)
      else Align(size, alignment) < size
  {
  }

  lemma NextMultiple(q: nat, m: nat, r: nat)
    ensures q * m + r + (m - r) == (q + 1) * m
  {
  }

  lemma PaddedMultiple(size: nat, alignment: nat)
    requires alignment > 0
    ensures Multiple(size + Padding(size, alignment), alignment) && Padding(size, alignment) < alignment
  {
    var q, r := size / alignment, size % alignment;
    if r != 0 {
      NextMultiple(q, alignment, r);
      MultipleOf(q + 1, alignment);
    }
  }

  /** A request has room for its payload exactly when computing it does not wrap around. */
  lemma RequestEnough(c: Config, n: nat)
    requires c.Valid() && n < WORD
    ensures Request(c, n) >= n + DESC_SIZE <==> NoWrap(c, n)
    ensures NoWrap(c, n) ==> Multiple(Request(c, n), c.min) && Request(c, n) < n + DESC_SIZE + c.min
  {
    AlignUp((n + DESC_SIZE) % WORD, c.min);
    PaddedMultiple(n + DESC_SIZE, c.min);
  }

  /** The largest request wraps to nothing. */
  lemma RequestWraps(c: Config)
    requires c.Valid()
    ensures Request(c, WORD - DESC_SIZE) == 0
  {
    assert (WORD - DESC_SIZE + DESC_SIZE) % WORD == 0;
  }

  // ---- the counters ----

  function Plus(x: nat, n: nat): nat { (x + n) % WORD }

  function Minus(x: nat, n: nat): nat { (x + WORD - n % WORD) % WORD }

  lemma PlusIs(x: nat, n: nat)
    requires x < WORD && n < WORD
    ensures Plus(x, n) == if x + n < WORD then x + n else x + n - WORD
  {
  }

  lemma MinusIs(x: nat, n: nat)
    requires x < WORD && n < WORD
    ensures Minus(x, n) == if n <= x then x - n else x + WORD - n
  {
  }

  // ---- one step ----

  /** Block `a` is handed out. */
  predicate Taken(t: Table, a: Addr)
  {
    a in t.live && (t.live[a].kind == ARENA_CHUNK || t.live[a].kind == HUGE_CHUNK)
  }

  ghost predicate ArenaOk(c: Config, t: Table, b: Addr)
  {
    b in t.regions && (!t.regions[b].huge ==> t.regions[b].size == c.max)
  }

  /** What holds between any two operations. */
  ghost predicate Inv(c: Config, s: State)
  {
    && c.Valid() && s.table.Linked() && s.table.Coalesced() && PoolOk(s.table, s.pool)
    && (forall b {:trigger ArenaOk(c, s.table, b)} | b in s.table.regions :: ArenaOk(c, s.table, b))
    && Conserved(s.table, c.max) && s.used < WORD && s.free < WORD
  }

  function Init(): State { State(Table(map[], map[], map[]), {}, 0, 0, 0) }

  /** RefillPool: one more arena, in the table as one free block. */
  function Refill(c: Config, s: State, answer: Answer): State
    requires answer.Granted? && DESC_SIZE <= c.max
  {
    s.(table := AddRegion(s.table, answer.addr, Region(c.max, answer.index, false)),
       pool := s.pool + {Key(answer.index, c.max, answer.addr)},
       free := Plus(s.free, c.max),
       fallback := if c.gpu && answer.index == 1 then Plus(s.fallback, 1) else s.fallback)
  }

  /** SplitToAlloc on the pool entry `k`, with the counters adjusted by the size requested. */
  function Serve(s: State, k: Key, size: nat): State
    requires s.table.Linked() && k.addr in s.table.live && k.addr in s.table.home
    requires DESC_SIZE <= size <= s.table.live[k.addr].total
    requires k.addr in Occupy(s.table, k.addr, size).live
  {
    var t := Occupy(s.table, k.addr, size);
    s.(table := t, pool := PoolAfterSplit(t, s.pool, k), used := Plus(s.used, size), free := Minus(s.free, size))
  }

  /** The entry FindExistChunk finds. */
  ghost function Choice(pool: set<Key>, size: nat): (k: Option<Key>)
    ensures k.Some? ==> IsLeast(Fitting(pool, size), k.value)
    ensures k.None? <==> Fitting(pool, size) == {}
  {
    if Fitting(pool, size) == {} then None else
      ChoiceExists(pool, size);
      var k :| IsLeast(Fitting(pool, size), k);
      Some(k)
  }

  lemma ChoiceExists(pool: set<Key>, size: nat)
    requires Fitting(pool, size) != {}
    ensures exists k :: IsLeast(Fitting(pool, size), k)
  {
    var k := LeastExists(Fitting(pool, size));
  }

  datatype Source = Refused | Direct | Refilled | Pooled(key: Key)

  /** Where Alloc takes the memory from. */
  ghost function From(c: Config, s: State, size: nat, answer: Answer): Source
  {
    if size > c.max then (if answer.Null? then Refused else Direct)
    else match Choice(s.pool, size)
      case Some(k) => Pooled(k)
      case None => if answer.Null? then Refused else Refilled
  }

  /** The size Alloc would ask the system allocator for. */
  function Wanted(c: Config, size: nat): nat { if size > c.max then size else c.max }

  /** What an Alloc asks of the client and of the system allocator: the size computed does not wrap
      below a descriptor, and a region granted is a fresh one. */
  ghost predicate AllocLegal(c: Config, s: State, n: nat, answer: Answer)
  {
    c.Valid() && n < WORD && DESC_SIZE <= Request(c, n) && Fresh(s.table, answer, Wanted(c, Request(c, n)))
  }

  /** What a Free asks of the client: the pointer is one handed out. */
  ghost predicate FreeLegal(s: State, p: Addr)
  {
    Taken(s.table, p - DESC_SIZE)
  }

  /** The entry an Alloc that needs no huge region is served from, and the state it is served in. */
  ghost function Ready(c: Config, s: State, size: nat, answer: Answer): (State, Key)
    requires DESC_SIZE <= size <= c.max && !From(c, s, size, answer).Refused?
  {
    if From(c, s, size, answer).Pooled? then (s, From(c, s, size, answer).key)
    else (Refill(c, s, answer), Key(answer.index, c.max, answer.addr))
  }

  lemma RefillKeeps(c: Config, s: State, answer: Answer)
    requires Inv(c, s) && answer.Granted? && DESC_SIZE <= c.max && Fresh(s.table, answer, c.max)
    ensures Inv(c, Refill(c, s, answer)) && Key(answer.index, c.max, answer.addr) in Refill(c, s, answer).pool
  {
    var r, b, s' := Region(c.max, answer.index, false), answer.addr, Refill(c, s, answer);
    AddRegionLinked(s.table, b, r);
    AddRegionCoalesced(s.table, b, r);
    AddRegionBytes(s.table, b, r);
    AddedUnused(s.table, b, r);
    MulSucc(c.max, |Arenas(s.table)|);
    forall k ensures EntryOk(s'.table, s'.pool, k) {
      assert EntryOk(s.table, s.pool, k);
    }
    forall a | a in s'.table.regions ensures ArenaOk(c, s'.table, a) {
      assert a != b ==> ArenaOk(c, s.table, a);
    }
  }

  lemma HugeKeeps(c: Config, s: State, answer: Answer, size: nat)
    requires Inv(c, s) && answer.Granted? && DESC_SIZE <= size && Fresh(s.table, answer, size)
    ensures Inv(c, s.(table := AddRegion(s.table, answer.addr, Region(size, answer.index, true))))
  {
    var r, b := Region(size, answer.index, true), answer.addr;
    var t' := AddRegion(s.table, b, r);
    AddRegionLinked(s.table, b, r);
    AddRegionCoalesced(s.table, b, r);
    AddRegionBytes(s.table, b, r);
    AddedUnused(s.table, b, r);
    forall k ensures EntryOk(t', s.pool, k) {
      assert EntryOk(s.table, s.pool, k);
    }
    forall a | a in t'.regions ensures ArenaOk(c, t', a) {
      assert a != b ==> ArenaOk(c, s.table, a);
    }
  }

  lemma ServeKeeps(c: Config, s: State, k: Key, size: nat)
    requires Inv(c, s) && k in s.pool && DESC_SIZE <= size <= k.size
    ensures k.addr in s.table.live && k.addr in s.table.home && k == KeyOf(s.table, k.addr)
    ensures k.addr in Occupy(s.table, k.addr, size).live && Inv(c, Serve(s, k, size))
  {
    OccupyLinked(s.table, s.pool, k, size);
    OccupyCoalesced(s.table, s.pool, k, size);
    OccupyPool(s.table, s.pool, k, size);
    OccupyBytes(s.table, s.pool, k, size);
    var t' := Occupy(s.table, k.addr, size);
    assert Arenas(t') == Arenas(s.table);
    forall a | a in t'.regions ensures ArenaOk(c, t', a) {
      assert ArenaOk(c, s.table, a);
    }
  }

  lemma ReadyOk(c: Config, s: State, size: nat, answer: Answer)
    requires Inv(c, s) && DESC_SIZE <= size <= c.max && Fresh(s.table, answer, c.max)
    requires !From(c, s, size, answer).Refused?
    ensures var (s0, k) := Ready(c, s, size, answer); Inv(c, s0) && k in s0.pool && size <= k.size
  {
    if From(c, s, size, answer).Refilled? {
      RefillKeeps(c, s, answer);
    }
  }

  /** Alloc: the state it leaves and the pointer it returns. */
  ghost function AfterAlloc(c: Config, s: State, n: nat, answer: Answer): (State, Addr)
    requires Inv(c, s) && AllocLegal(c, s, n, answer)
  {
    var size := Request(c, n);
    match From(c, s, size, answer)
    case Refused => (s, 0)
    case Direct => (s.(table := AddRegion(s.table, answer.addr, Region(size, answer.index, true))),
      answer.addr + DESC_SIZE)
    case _ =>
      ReadyOk(c, s, size, answer);
      var (s0, k) := Ready(c, s, size, answer);
      ServeKeeps(c, s0, k, size);
      (Serve(s0, k, size), k.addr + DESC_SIZE)
  }

  lemma ArenaStep(c: Config, s: State, n: nat, answer: Answer)
    requires Inv(c, s) && AllocLegal(c, s, n, answer) && Request(c, n) <= c.max
    ensures From(c, s, Request(c, n), answer).Refused? ==> AfterAlloc(c, s, n, answer) == (s, 0)
    ensures !From(c, s, Request(c, n), answer).Refused? ==>
      var (s0, k) := Ready(c, s, Request(c, n), answer);
      (&& Inv(c, s0) && k in s0.pool && Request(c, n) <= k.size
       && k.addr in s0.table.live && k.addr in s0.table.home && k == KeyOf(s0.table, k.addr) &&
          k.addr in Occupy(s0.table, k.addr, Request(c, n)).live
       && AfterAlloc(c, s, n, answer) == (Serve(s0, k, Request(c, n)), k.addr + DESC_SIZE))
  {
    if !From(c, s, Request(c, n), answer).Refused? {
      ReadyOk(c, s, Request(c, n), answer);
      var (s0, k) := Ready(c, s, Request(c, n), answer);
      ServeKeeps(c, s0, k, Request(c, n));
    }
  }

  /** Free: the state it leaves. */
  ghost function AfterFree(c: Config, s: State, p: Addr): State
    requires Inv(c, s) && FreeLegal(s, p)
  {
    var a := p - DESC_SIZE;
    if s.table.live[a].kind == HUGE_CHUNK then s.(table := DropRegion(s.table, a))
    else
      var total := s.table.live[a].total;
      s.(table := Released(s.table, a), pool := PoolAfterFree(s.table, s.pool, a),
         used := Minus(s.used, total), free := Plus(s.free, total))
  }

  lemma AllocKeeps(c: Config, s: State, n: nat, answer: Answer)
    requires Inv(c, s) && AllocLegal(c, s, n, answer)
    ensures Inv(c, AfterAlloc(c, s, n, answer).0)
  {
    var size := Request(c, n);
    match From(c, s, size, answer)
    case Refused =>
    case Direct => HugeKeeps(c, s, answer, size);
    case _ =>
      ReadyOk(c, s, size, answer);
      var (s0, k) := Ready(c, s, size, answer);
      ServeKeeps(c, s0, k, size);
  }

  lemma HugeWhole(t: Table, a: Addr)
    requires t.Linked() && a in t.live && t.live[a].kind == HUGE_CHUNK
    ensures Whole(t, a) && t.regions[a].huge
  {
    Facts(t, a);
  }

  lemma DropHuge(c: Config, s: State, a: Addr)
    requires Inv(c, s) && a in s.table.live && s.table.live[a].kind == HUGE_CHUNK
    ensures Inv(c, s.(table := DropRegion(s.table, a)))
  {
    var t' := DropRegion(s.table, a);
    HugeWhole(s.table, a);
    DropRegionLinked(s.table, a);
    DropRegionCoalesced(s.table, a);
    DropRegionBytes(s.table, a);
    forall k ensures EntryOk(t', s.pool, k) {
      assert EntryOk(s.table, s.pool, k);
    }
    forall b | b in t'.regions ensures ArenaOk(c, t', b) {
      assert ArenaOk(c, s.table, b);
    }
  }

  lemma FreeKeeps(c: Config, s: State, p: Addr)
    requires Inv(c, s) && FreeLegal(s, p)
    ensures Inv(c, AfterFree(c, s, p))
  {
    var a, t := p - DESC_SIZE, s.table;
    if t.live[a].kind == HUGE_CHUNK {
      DropHuge(c, s, a);
    } else {
      ReleasedLinked(t, s.pool, a);
      ReleasedCoalesced(t, s.pool, a);
      ReleasedPool(t, s.pool, a);
      ReleasedBytes(t, s.pool, a);
      assert Arenas(Released(t, a)) == Arenas(t);
      forall b | b in t.regions ensures ArenaOk(c, Released(t, a), b) {
        assert ArenaOk(c, t, b);
      }
    }
  }
}
