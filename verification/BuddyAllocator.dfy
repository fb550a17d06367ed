/** The BuddyAllocator class. Each operation is proved to make the step of the state machine that
    BuddyRuns describes; the descriptors are read and written through the MetadataCache only, so
    the steps are the same whichever way the cache stores them. */
module BuddyAllocators {
  import opened Words
  import opened BlockTable
  import opened PoolOrder
  import opened BuddyModel
  import opened Regions
  import opened BuddyRuns
  import opened BuddyLaws
  import opened BuddyHistory
  import opened BuddyTrim
  import opened MetaCache
  import opened MemoryBlocks

  /** A call of the system allocator's Free. */
  datatype Return = Return(addr: Addr, size: nat, index: nat)

  function Returns(ks: seq<Key>, size: nat): seq<Return>
  {
    seq(|ks|, i requires 0 <= i < |ks| => Return(ks[i].addr, size, ks[i].index))
  }

  lemma ReturnsMore(ks: seq<Key>, k: Key, size: nat)
    ensures Returns(ks + [k], size) == Returns(ks, size) + [Return(k.addr, size, k.index)]
  {
  }

  lemma LeastUnique(s: set<Key>, j: Key, k: Key)
    requires IsLeast(s, j) && IsLeast(s, k)
    ensures j == k
  {
  }

  lemma OnlyGreatest(s: set<Key>, k: Key)
    requires IsGreatest(s, k)
    ensures forall j | IsGreatest(s, j) :: j == k
  {
  }

  lemma FoundIsChoice(pool: set<Key>, size: nat, it: Option<Key>)
    requires it.None? ==> Fitting(pool, size) == {}
    requires it.Some? ==> IsLeast(Fitting(pool, size), it.value)
    ensures it == Choice(pool, size)
  {
    if it.Some? { LeastUnique(Fitting(pool, size), it.value, Choice(pool, size).value); }
  }

  lemma PoolAddresses(t: Table, pool: set<Key>)
    requires t.Linked() && PoolOk(t, pool)
    ensures forall k | k in pool :: k.addr >= 0
  {
    forall k | k in pool ensures k.addr >= 0 {
      PoolEntry(t, pool, k);
      Facts(t, k.addr);
    }
  }

  /** No live descriptor but its own lies in a region that is one block. */
  lemma WholeClear(t: Table, a: Addr, b: Addr)
    requires Whole(t, a) && b in t.live && b != a
    ensures a + t.live[a].total <= b || b + DESC_SIZE <= a
  {
    Facts(t, b);
    assert t.Apart(a, b) && t.Apart(b, a);
  }

  /** `pool` after the entry of `b` has been erased if `b` is free. */
  ghost function PoolWithout(t: Table, pool: set<Key>, b: Addr): set<Key>
  {
    if IsFree(t, b) then pool - {KeyOf(t, b)} else pool
  }

  /** `pool` after both buddies' entries have been erased and the merged block's inserted. */
  ghost function Filed(t: Table, pool: set<Key>, a: Addr): set<Key>
    requires a in t.live && a in JoinRight(t, a).live
    requires LeftMost(JoinRight(t, a), a) in JoinLeft(JoinRight(t, a), a).live
  {
    var t2 := JoinRight(t, a);
    PoolWithout(t2, PoolWithout(t, pool, t.live[a].right), t2.live[a].left) + {KeyOf(JoinLeft(t2, a), LeftMost(t2, a))}
  }

  /** The three updates of the pool in Free make up PoolAfterFree. */
  lemma PoolUpdates(t: Table, pool: set<Key>, a: Addr)
    requires Releases(t, pool, a)
    ensures var t1 := Marked(t, a); var t2 := JoinRight(t1, a);
      (&& a in t2.live && IsFree(t2, a) && t2.Linked() && JoinLeft(t2, a) == Released(t, a)
       && LeftMost(t2, a) in JoinLeft(t2, a).live && Filed(t1, pool, a) == PoolAfterFree(t, pool, a))
  {
    MarkedLinked(t, pool, a);
    var t1 := Marked(t, a);
    Facts(t, a);
    NoZero(t);
    JoinRightBlocks(t1, a);
    JoinLeftLinked(JoinRight(t1, a), a);
  }

  /** `gone` lists in ascending order the entries of `all` that are no longer in `pool`. */
  ghost predicate Ordered(gone: seq<Key>, pool: set<Key>, all: set<Key>)
  {
    && (forall k :: k in gone || k in pool <==> k in all)
    && (forall k, j | k in gone && j in pool :: k.Less(j))
    && (forall i, j | 0 <= i < j < |gone| :: gone[i].Less(gone[j]))
  }

  lemma OrderedMore(gone: seq<Key>, pool: set<Key>, all: set<Key>, k: Key)
    requires Ordered(gone, pool, all) && IsLeast(pool, k)
    ensures Ordered(gone + [k], pool - {k}, all)
  {
  }

  /** Handing back the arena of pool entry `k` reaches no other live descriptor, if nothing is
      occupied. No other entry has the same address. */
  lemma DestroyClear(c: Config, s: State, k: Key)
    requires Inv(c, s) && k in s.pool
    ensures k.addr in s.table.live && k == KeyOf(s.table, k.addr)
    ensures forall j | j in s.pool && j != k :: j.addr != k.addr
    ensures (forall a | a in s.table.live :: s.table.live[a].kind != ARENA_CHUNK) ==>
      forall b | b in s.table.live && b != k.addr :: k.addr + c.max <= b || b + DESC_SIZE <= k.addr
  {
    forall j | j in s.pool ensures j.addr in s.table.live && j == KeyOf(s.table, j.addr) {
      PoolEntry(s.table, s.pool, j);
    }
    if forall a | a in s.table.live :: s.table.live[a].kind != ARENA_CHUNK {
      Drained(c, s);
      WholeArena(c, s, k);
      forall b | b in s.table.live && b != k.addr ensures k.addr + c.max <= b || b + DESC_SIZE <= k.addr {
        WholeClear(s.table, k.addr, b);
      }
    }
  }

  class BuddyAllocator {
    const config: Config
    const cache: MetadataCache
    var pool: set<Key>
    var totalUsed: nat
    var totalFree: nat
    var fallbackCount: nat

    /** What has been given back to the system allocator so far. */
    var returned: seq<Return>

    /** The live blocks and the regions they lie in. */
    ghost var table: Table

    ghost function State(): State
      reads this
    {
      BuddyRuns.State(table, pool, totalUsed, totalFree, fallbackCount)
    }

    ghost predicate Valid()
      reads this, cache
    {
      Holds(cache, table) && cache.usesGpu == config.gpu && Inv(config, State())
    }

    constructor (min: nat, max: nat, gpu: bool, hash: (Desc, nat) -> nat)
      requires 0 < min < WORD && max < WORD
      ensures Valid() && fresh(cache) && config == Config(min, max, gpu) && State() == Init() && returned == []
    {
      config := Config(min, max, gpu);
      cache := new MetadataCache(gpu, hash);
      pool, totalUsed, totalFree, fallbackCount := {}, 0, 0, 0;
      returned := [];
      table := Init().table;
      new;
      InitOk(config);
    }

    // ---- Alloc ----

    /** Alloc makes the step AfterAlloc, in either mode of the cache. */
    method Alloc(n: nat, answer: Answer) returns (p: Addr)
      requires Valid() && AllocLegal(config, State(), n, answer)
      modifies this, cache
      ensures Valid()
      ensures (State(), p) == AfterAlloc(config, old(State()), n, answer)
      ensures returned == old(returned)
    {
      var size := Request(config, n);
      if size > config.max {
        p := SystemAlloc(size, answer);
        return;
      }
      p := ArenaAlloc(n, size, answer);
    }

    method ArenaAlloc(n: nat, size: nat, answer: Answer) returns (p: Addr)
      requires Valid() && AllocLegal(config, State(), n, answer) && size == Request(config, n) <= config.max
      modifies this, cache
      ensures Valid() && returned == old(returned)
      ensures State() == AfterAlloc(config, old(State()), n, answer).0
      ensures p == AfterAlloc(config, old(State()), n, answer).1
    {
      ArenaStep(config, State(), n, answer);
      var it := Obtain(size, answer);
      if it.None? {
        return 0;
      }
      p := HandOut(it.value, size);
    }

    /** Finds an entry for `size` bytes in the pool, which is refilled if there is none. */
    method Obtain(size: nat, answer: Answer) returns (it: Option<Key>)
      requires Valid() && DESC_SIZE <= size <= config.max && Fresh(table, answer, config.max)
      modifies this, cache
      ensures Valid() && returned == old(returned)
      ensures it.None? <==> From(config, old(State()), size, answer).Refused?
      ensures it.None? ==> State() == old(State())
      ensures it.Some? ==> State() == Ready(config, old(State()), size, answer).0
      ensures it.Some? ==> it.value == Ready(config, old(State()), size, answer).1
    {
      PoolAddresses(table, pool);
      it := FindExistChunk(pool, size);
      FoundIsChoice(pool, size, it);
      if it.None? {
        it := RefillPool(answer);
      }
    }

    /** Hands out the first `size` bytes of the entry `k`. */
    method HandOut(k: Key, size: nat) returns (p: Addr)
      requires Valid() && k in pool && DESC_SIZE <= size <= k.size
      modifies this, cache
      ensures Valid() && returned == old(returned) && p == k.addr + DESC_SIZE
      ensures k.addr in old(table).live && k.addr in old(table).home && k.addr in Occupy(old(table), k.addr, size).live
      ensures State() == Serve(old(State()), k, size)
    {
      ServeKeeps(config, State(), k, size);
      totalUsed := Plus(totalUsed, size);
      totalFree := Minus(totalFree, size);
      var block := SplitToAlloc(k, size);
      p := DataOf(block);
    }

    method SystemAlloc(size: nat, answer: Answer) returns (p: Addr)
      requires Valid() && DESC_SIZE <= size && Fresh(table, answer, size)
      modifies this, cache
      ensures Valid() && returned == old(returned)
      ensures answer.Null? ==> p == 0 && State() == old(State())
      ensures answer.Granted? ==> p == answer.addr + DESC_SIZE
      ensures answer.Granted? ==>
        State() == old(State()).(table := AddRegion(old(table), answer.addr, Region(size, answer.index, true)))
    {
      if answer.Null? {
        return 0;
      }
      HugeKeeps(config, State(), answer, size);
      InitBlock(cache, table, answer.addr, Region(size, answer.index, true));
      table := AddRegion(table, answer.addr, Region(size, answer.index, true));
      p := DataOf(answer.addr);
    }

    method RefillPool(answer: Answer) returns (it: Option<Key>)
      requires Valid() && DESC_SIZE <= config.max && Fresh(table, answer, config.max)
      modifies this, cache
      ensures Valid() && returned == old(returned)
      ensures if answer.Null? then it.None? && State() == old(State())
        else it == Some(Key(answer.index, config.max, answer.addr)) && State() == Refill(config, old(State()), answer)
    {
      if answer.Null? {
        return None;
      }
      RefillKeeps(config, State(), answer);
      var p := answer.addr;
      var desc := NewArena(p, answer.index);
      if cache.usesGpu && desc.index == 1 {
        fallbackCount := Plus(fallbackCount, 1);
      }
      totalFree := Plus(totalFree, config.max);
      var entry := Key(answer.index, config.max, p);
      pool := pool + {entry};
      it := Some(entry);
    }

    /** The region granted at `p` becomes an arena of one free block. */
    method NewArena(p: Addr, index: nat) returns (desc: Desc)
      requires Holds(cache, table) && Adds(table, p, Region(config.max, index, false))
      modifies this`table, cache
      ensures Holds(cache, table) && table == AddRegion(old(table), p, Region(config.max, index, false))
      ensures desc.index == index
    {
      InitBlock(cache, table, p, Region(config.max, index, false));
      table := AddRegion(table, p, Region(config.max, index, false));
      desc := cache.Load(p);
    }

    /** Takes the entry `k` from the pool and hands out its first `size` bytes. */
    method SplitToAlloc(k: Key, size: nat) returns (block: Addr)
      requires Holds(cache, table) && Allocates(table, pool, k, size)
      requires k.addr in table.live && k.addr in table.home && k == KeyOf(table, k.addr)
      requires k.addr in Occupy(table, k.addr, size).live
      modifies this`table, this`pool, cache
      ensures Holds(cache, table) && block == k.addr
      ensures table == Occupy(old(table), k.addr, size) && pool == PoolAfterSplit(table, old(pool), k)
    {
      OccupyLinked(table, pool, k, size);
      block := k.addr;
      pool := pool - {k};
      SplitAt(cache, table, block, size);
      table := Split(table, block, size);
      SetType(cache, table, block, ARENA_CHUNK);
      table := SetKind(table, block, ARENA_CHUNK);
      var desc := cache.Load(block);
      NoZero(table);
      Facts(table, block);
      if desc.right != 0 {
        var buddy := cache.Load(desc.right);
        if buddy.kind == FREE_CHUNK {
          pool := pool + {Key(buddy.index, buddy.total, desc.right)};
        }
      }
    }

    // ---- Free ----

    /** Free makes the step AfterFree; a huge block goes back to the system as it came. */
    method Free(p: Addr)
      requires Valid() && FreeLegal(State(), p)
      modifies this, cache
      ensures Valid()
      ensures State() == AfterFree(config, old(State()), p)
      ensures var a := p - DESC_SIZE; var d := old(table.live)[a];
        returned == old(returned) + if d.kind == HUGE_CHUNK then [Return(a, d.total, d.index)] else []
    {
      var block := BlockOf(p);
      FreeKeeps(config, State(), p);
      var desc := cache.Load(block);
      Facts(table, block);
      if desc.kind == HUGE_CHUNK {
        HugeWhole(table, block);
        SystemFree(block, desc.total, desc.index);
        return;
      }
      FreeBlock(block);
    }

    /** Hands a region that is one block back to the system allocator. */
    method SystemFree(block: Addr, size: nat, index: nat)
      requires Holds(cache, table) && Whole(table, block) && size == table.live[block].total
      modifies this`table, this`returned, cache
      ensures Holds(cache, table) && table == DropRegion(old(table), block)
      ensures returned == old(returned) + [Return(block, size, index)]
      ensures cache.side == if cache.usesGpu then old(cache.side) - {block} else old(cache.side)
    {
      forall b | b in table.live && b != block ensures block + size <= b || b + DESC_SIZE <= block {
        WholeClear(table, block, b);
      }
      returned := returned + [Return(block, size, index)];
      cache.Surrender(block, size);
      cache.Invalidate(block);
      table := DropRegion(table, block);
    }

    method FreeBlock(a: Addr)
      requires Valid() && Releases(table, pool, a)
      modifies this, cache
      ensures Holds(cache, table) && returned == old(returned)
      ensures State() == AfterFree(config, old(State()), a + DESC_SIZE)
    {
      PoolUpdates(table, pool, a);
      MarkedLinked(table, pool, a);
      MarkAndCount(a);
      MergeAndFile(a);
    }

    /** Marks the block `a` free and moves its bytes from one counter to the other. */
    method MarkAndCount(a: Addr)
      requires Holds(cache, table) && a in table.live && table.live[a].kind == ARENA_CHUNK
      modifies this`table, this`totalUsed, this`totalFree, cache
      ensures Holds(cache, table) && table == Marked(old(table), a)
      ensures totalUsed == Minus(old(totalUsed), old(table).live[a].total)
      ensures totalFree == Plus(old(totalFree), old(table).live[a].total)
    {
      MarkAsFree(cache, table, a);
      table := Marked(table, a);
      var desc := cache.Load(a);
      totalUsed := Minus(totalUsed, desc.total);
      totalFree := Plus(totalFree, desc.total);
    }

    /** Merges the free block `a` with its free buddies and files the result in the pool. */
    method MergeAndFile(a: Addr)
      requires Holds(cache, table) && table.Linked() && IsFree(table, a)
      requires a in JoinRight(table, a).live && JoinRight(table, a).Linked() && IsFree(JoinRight(table, a), a)
      modifies this`table, this`pool, cache
      ensures Holds(cache, table) && table == JoinLeft(JoinRight(old(table), a), a)
      ensures LeftMost(JoinRight(old(table), a), a) in table.live
      ensures pool == Filed(old(table), old(pool), a)
    {
      TakeRight(a);
      var block := TakeLeft(a);
      var desc := cache.Load(block);
      pool := pool + {Key(desc.index, desc.total, block)};
    }

    /** Merges a free right buddy into `a`. */
    method TakeRight(a: Addr)
      requires Holds(cache, table) && table.Linked() && IsFree(table, a)
      modifies this`table, this`pool, cache
      ensures Holds(cache, table) && table == JoinRight(old(table), a)
      ensures var r := old(table.live)[a].right;
        IsFree(old(table), r) ==>
          r in cache.Store() && cache.Store()[r] == cache.Guard(Desc(INVALID_CHUNK, 0, 0, 0, 0, 0))
      ensures pool == PoolWithout(old(table), old(pool), old(table.live)[a].right)
    {
      Facts(table, a);
      NoZero(table);
      var desc := cache.Load(a);
      if desc.right != 0 {
        var right := desc.right;
        var buddy := cache.Load(right);
        if buddy.kind == FREE_CHUNK {
          pool := pool - {Key(buddy.index, buddy.total, right)};
          MergeWith(cache, table, a, right);
          table := Merge(table, a, right);
        }
      }
    }

    /** Merges `a` into a free left buddy. */
    method TakeLeft(a: Addr) returns (block: Addr)
      requires Holds(cache, table) && table.Linked() && IsFree(table, a)
      modifies this`table, this`pool, cache
      ensures Holds(cache, table) && table == JoinLeft(old(table), a) && block == LeftMost(old(table), a)
      ensures IsFree(old(table), old(table.live)[a].left) ==>
        a in cache.Store() && cache.Store()[a] == cache.Guard(Desc(INVALID_CHUNK, 0, 0, 0, 0, 0))
      ensures block in table.live
      ensures pool == PoolWithout(old(table), old(pool), old(table.live)[a].left)
    {
      Facts(table, a);
      NoZero(table);
      JoinLeftLinked(table, a);
      block := a;
      var desc := cache.Load(a);
      if desc.left != 0 {
        var left := desc.left;
        var buddy := cache.Load(left);
        if buddy.kind == FREE_CHUNK {
          pool := pool - {Key(buddy.index, buddy.total, left)};
          MergeWith(cache, table, left, a);
          table := Merge(table, left, a);
          block := left;
        }
      }
    }

    // ---- giving idle arenas back ----

    /** Releases the last pool entry, a whole arena. */
    method ReleaseArena(k: Key, fallback: bool)
      requires Valid() && k in pool && k.size >= config.max
      modifies this, cache
      ensures Valid() && State() == Trim(config, old(State()), k, fallback)
      ensures returned == old(returned) + [Return(k.addr, config.max, k.index)]
    {
      WholeArena(config, State(), k);
      TrimKeeps(config, State(), k, fallback);
      var desc := cache.Load(k.addr);
      SystemFree(k.addr, config.max, desc.index);
      pool := pool - {k};
      totalFree := Minus(totalFree, config.max);
      if fallback {
        fallbackCount := Minus(fallbackCount, 1);
      }
    }

    /** The arenas of `gone` have been released in turn since the state was `was`. */
    ghost predicate Released(was: State, before: seq<Return>, gone: seq<Key>, fallback: bool)
      reads this, cache
    {
      && Valid() && returned == before + Returns(gone, config.max)
      && InTurn(config, was, gone, fallback) && State() == Trimmed(config, was, gone, fallback)
    }

    method ReleaseNext(k: Key, fallback: bool, ghost was: State, ghost before: seq<Return>, ghost gone: seq<Key>)
      requires Released(was, before, gone, fallback)
      requires Due(config, State(), fallback) && Picks(config, State(), k, fallback)
      modifies this, cache
      ensures Released(was, before, gone + [k], fallback) && pool == old(pool) - {k}
    {
      OneMoreTrimmed(config, was, gone, k, fallback);
      ReturnsMore(gone, k, config.max);
      ReleaseArena(k, fallback);
    }

    /** Releases fallback arenas from the end of the pool, one after the other. */
    method CleanIdleFallBackAlloc() returns (ghost gone: seq<Key>)
      requires Valid()
      modifies this, cache
      ensures Released(old(State()), old(returned), gone, true)
      ensures Settled(config, State(), true)
    {
      gone := [];
      if fallbackCount == 0 {
        return;
      }
      while pool != {}
        invariant Released(old(State()), old(returned), gone, true) && fallbackCount > 0
        decreases |pool|
      {
        var k := Last(pool);
        OnlyGreatest(pool, k);
        if k.size < config.max {
          return;
        }
        WholeArena(config, State(), k);
        var desc := cache.Load(k.addr);
        if !cache.usesGpu || desc.index == 0 {
          return;
        }
        ReleaseNext(k, true, old(State()), old(returned), gone);
        gone := gone + [k];
        if fallbackCount == 0 {
          return;
        }
      }
    }

    /** Releases arenas from the end of the pool as long as there is more free memory than needed. */
    method CleanIdleNormalAlloc() returns (ghost gone: seq<Key>)
      requires Valid()
      modifies this, cache
      ensures Released(old(State()), old(returned), gone, false)
      ensures Settled(config, State(), false)
    {
      gone := [];
      var due := ShallFreeAlloc();
      if !due {
        return;
      }
      while pool != {}
        invariant Released(old(State()), old(returned), gone, false) && ShallFree(config, State())
        decreases |pool|
      {
        var k := Last(pool);
        OnlyGreatest(pool, k);
        if k.size < config.max {
          return;
        }
        ReleaseNext(k, false, old(State()), old(returned), gone);
        gone := gone + [k];
        due := ShallFreeAlloc();
        if !due {
          return;
        }
      }
    }

    method ShallFreeAlloc() returns (due: bool)
      ensures due == ShallFree(config, State())
      ensures due <==> fallbackCount > 0 || (totalUsed + config.max) * 2 % WORD < totalFree
    {
      if fallbackCount > 0 {
        return true;
      }
      due := (totalUsed + config.max) * 2 % WORD < totalFree;
    }

    // ---- the destructor and the environment ----

    /** The arenas of `gone` have been handed back since the state was `was`, the others are as
        they were. */
    ghost predicate HandedBack(was: State, before: seq<Return>, gone: seq<Key>)
      reads this, cache
    {
      && cache.Valid() && cache.usesGpu == config.gpu && cache.live.Keys <= was.table.live.Keys
      && Ordered(gone, pool, was.pool)
      && (forall k | k in pool ::
         k.addr in cache.live && k.addr in was.table.live && cache.live[k.addr] == was.table.live[k.addr])
      && returned == before + Returns(gone, config.max)
    }

    method HandBack(k: Key, ghost was: State, ghost before: seq<Return>, ghost gone: seq<Key>)
      requires Inv(config, was) && HandedBack(was, before, gone) && IsLeast(pool, k)
      requires config.gpu || forall a | a in was.table.live :: was.table.live[a].kind != ARENA_CHUNK
      modifies this, cache
      ensures HandedBack(was, before, gone + [k]) && pool == old(pool) - {k}
    {
      OrderedMore(gone, pool, was.pool, k);
      ReturnsMore(gone, k, config.max);
      DestroyClear(config, was, k);
      var desc := cache.Load(k.addr);
      returned := returned + [Return(k.addr, config.max, desc.index)];
      cache.Surrender(k.addr, config.max);
      cache.Invalidate(k.addr);
      pool := pool - {k};
    }

    /** The destructor hands every pool entry to the system allocator, once, as an arena. In memory
        it may run only when nothing is occupied any more; then these are exactly the arenas. */
    method Destroy() returns (ghost gone: seq<Key>)
      requires Valid()
      requires config.gpu || forall a | a in table.live :: table.live[a].kind != ARENA_CHUNK
      modifies this, cache
      ensures pool == {} && returned == old(returned) + Returns(gone, config.max)
      ensures Ordered(gone, {}, old(pool))
      ensures |returned| == |old(returned)| + |gone| && old(returned) <= returned
      ensures forall i | 0 <= i < |gone| ::
        returned[|old(returned)| + i] == Return(gone[i].addr, config.max, gone[i].index)
    {
      gone := [];
      while pool != {}
        invariant HandedBack(old(State()), old(returned), gone)
        decreases |pool|
      {
        var k := First(pool);
        HandBack(k, old(State()), old(returned), gone);
        gone := gone + [k];
      }
    }

    /** A client may overwrite its own payload at any time. */
    method ClientWrite(p: Addr, lo: Addr, hi: Addr)
      requires Valid() && Taken(table, p - DESC_SIZE) && p <= lo <= hi <= p + table.live[p - DESC_SIZE].size
      modifies cache
      ensures Valid() && State() == old(State())
    {
      forall b | b in table.live ensures hi <= b || b + DESC_SIZE <= lo {
        if b != p - DESC_SIZE { Isolation(table, p - DESC_SIZE, b); }
        Facts(table, b);
      }
      cache.ClientWrite(lo, hi);
    }
  }
}
