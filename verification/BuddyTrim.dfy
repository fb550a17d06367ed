/** Giving idle arenas back: what the two clean-up operations release, and what they leave. */
module BuddyTrim {
  import opened Words
  import opened BlockTable
  import opened PoolOrder
  import opened BuddyModel
  import opened Regions
  import opened Accounting
  import opened BuddyRuns
  import opened BuddyLaws
  import opened BuddyHistory

  /** `shall_free_alloc` of CleanIdleNormalAlloc. */
  predicate ShallFree(c: Config, s: State)
  {
    s.fallback > 0 || (s.used + c.max) * 2 % WORD < s.free
  }

  /** Whether the clean-up of fallback arenas, or of any arenas, wants to release one more. */
  predicate Due(c: Config, s: State, fallback: bool)
  {
    if fallback then s.fallback > 0 else ShallFree(c, s)
  }

  /** `k` is the entry the clean-up releases next: the last one of the pool, if it is a whole
      arena and, for fallback arenas, not from the primary index. */
  ghost predicate Picks(c: Config, s: State, k: Key, fallback: bool)
  {
    IsGreatest(s.pool, k) && k.size >= c.max && (fallback ==> c.gpu && k.index != 0)
  }

  function Trim(c: Config, s: State, k: Key, fallback: bool): State
  {
    s.(table := DropRegion(s.table, k.addr), pool := s.pool - {k}, free := Minus(s.free, c.max),
       fallback := if fallback then Minus(s.fallback, 1) else s.fallback)
  }

  /** The state after the arenas of `ks` have been released in turn. */
  function Trimmed(c: Config, s: State, ks: seq<Key>, fallback: bool): State
  {
    if ks == [] then s else Trim(c, Trimmed(c, s, ks[..|ks| - 1], fallback), ks[|ks| - 1], fallback)
  }

  /** Each entry of `ks` was due and the one to pick when it was released. */
  ghost predicate InTurn(c: Config, s: State, ks: seq<Key>, fallback: bool)
  {
    ks == [] ||
    (&& InTurn(c, s, ks[..|ks| - 1], fallback)
     && Due(c, Trimmed(c, s, ks[..|ks| - 1], fallback), fallback)
     && Picks(c, Trimmed(c, s, ks[..|ks| - 1], fallback), ks[|ks| - 1], fallback))
  }

  /** Nothing more to release. */
  ghost predicate Settled(c: Config, s: State, fallback: bool)
  {
    !Due(c, s, fallback) || forall k :: !Picks(c, s, k, fallback)
  }

  lemma OneMoreTrimmed(c: Config, s: State, ks: seq<Key>, k: Key, fallback: bool)
    requires InTurn(c, s, ks, fallback)
    requires Due(c, Trimmed(c, s, ks, fallback), fallback) && Picks(c, Trimmed(c, s, ks, fallback), k, fallback)
    ensures InTurn(c, s, ks + [k], fallback)
    ensures Trimmed(c, s, ks + [k], fallback) == Trim(c, Trimmed(c, s, ks, fallback), k, fallback)
  {
    assert (ks + [k])[..|ks + [k]| - 1] == ks;
  }

  /** An entry of at least the maximum size is a whole arena. */
  lemma WholeArena(c: Config, s: State, k: Key)
    requires Inv(c, s) && k in s.pool && k.size >= c.max
    ensures Whole(s.table, k.addr) && IsFree(s.table, k.addr) && !s.table.regions[k.addr].huge
    ensures k == KeyOf(s.table, k.addr)
    ensures k.size == s.table.regions[k.addr].size == c.max && c.max >= DESC_SIZE
  {
    PoolEntry(s.table, s.pool, k);
    Facts(s.table, k.addr);
    assert ArenaOk(c, s.table, s.table.home[k.addr]);
  }

  lemma TrimPool(c: Config, s: State, k: Key, fallback: bool)
    requires Inv(c, s) && k in s.pool && k.size >= c.max
    ensures PoolOk(Trim(c, s, k, fallback).table, Trim(c, s, k, fallback).pool)
  {
    PoolEntry(s.table, s.pool, k);
    var s' := Trim(c, s, k, fallback);
    forall j ensures EntryOk(s'.table, s'.pool, j) {
      assert EntryOk(s.table, s.pool, j);
    }
  }

  /** Releasing a whole arena keeps the invariant, takes nothing from clients and keeps the
      counters true. */
  lemma TrimKeeps(c: Config, s: State, k: Key, fallback: bool)
    requires Inv(c, s) && k in s.pool && k.size >= c.max
    ensures Inv(c, Trim(c, s, k, fallback)) && Handed(Trim(c, s, k, fallback).table) == Handed(s.table)
    ensures Counted(s) ==> Counted(Trim(c, s, k, fallback)) && c.max <= s.free
  {
    var s' := Trim(c, s, k, fallback);
    WholeArena(c, s, k);
    TrimPool(c, s, k, fallback);
    DropRegionLinked(s.table, k.addr);
    DropRegionCoalesced(s.table, k.addr);
    DropRegionBytes(s.table, k.addr);
    MulSucc(c.max, |Arenas(s'.table)|);
    MinusIs(s.free, c.max);
    forall b | b in s'.table.regions ensures ArenaOk(c, s'.table, b) {
      assert ArenaOk(c, s.table, b);
    }
  }

  /** Every arena released was a whole idle one. */
  lemma {:induction false} TrimmedSafe(c: Config, s: State, ks: seq<Key>, fallback: bool)
    requires Inv(c, s) && InTurn(c, s, ks, fallback)
    ensures Inv(c, Trimmed(c, s, ks, fallback)) && Handed(Trimmed(c, s, ks, fallback).table) == Handed(s.table)
    ensures Counted(s) ==> Counted(Trimmed(c, s, ks, fallback))
    ensures forall k | k in ks :: k in s.pool && k.size == c.max && k.addr in Arenas(s.table)
  {
    if ks != [] {
      var init, last := ks[..|ks| - 1], ks[|ks| - 1];
      TrimmedSafe(c, s, init, fallback);
      TrimKeeps(c, Trimmed(c, s, init, fallback), last, fallback);
      WholeArena(c, Trimmed(c, s, init, fallback), last);
      TrimmedWithin(c, s, init, fallback);
      forall k | k in ks ensures k in s.pool && k.size == c.max && k.addr in Arenas(s.table) {
        assert k in init || k == last;
      }
    }
  }

  lemma {:induction false} TrimmedWithin(c: Config, s: State, ks: seq<Key>, fallback: bool)
    ensures var s' := Trimmed(c, s, ks, fallback);
      s'.pool <= s.pool && s'.used == s.used && Arenas(s'.table) <= Arenas(s.table)
  {
    if ks != [] {
      TrimmedWithin(c, s, ks[..|ks| - 1], fallback);
    }
  }

  /** What is released comes from the end of the pool, and the rest stays. */
  lemma {:induction false} TrimmedLast(c: Config, s: State, ks: seq<Key>, fallback: bool)
    requires InTurn(c, s, ks, fallback)
    ensures forall k :: k in Trimmed(c, s, ks, fallback).pool <==> k in s.pool && k !in ks
    ensures forall k, j | k in ks && j in Trimmed(c, s, ks, fallback).pool :: j.Less(k)
  {
    if ks != [] {
      var init, last := ks[..|ks| - 1], ks[|ks| - 1];
      TrimmedLast(c, s, init, fallback);
      assert ks == init + [last];
    }
  }

  /** Only fallback arenas are released as such, only on a GPU, and each is taken off the count. */
  lemma {:induction false} TrimmedFallback(c: Config, s: State, ks: seq<Key>)
    requires InTurn(c, s, ks, true) && s.fallback < WORD
    ensures Trimmed(c, s, ks, true).fallback + |ks| == s.fallback
    ensures ks != [] ==> c.gpu
    ensures forall k | k in ks :: k.index != 0
  {
    if ks != [] {
      var init, last := ks[..|ks| - 1], ks[|ks| - 1];
      TrimmedFallback(c, s, init);
      MinusIs(Trimmed(c, s, init, true).fallback, 1);
      assert ks == init + [last];
    }
  }

  /** CleanIdleNormalAlloc releases an arena if and only if, at that point, fallback arenas are left
      or twice the bytes used plus one arena are less than the bytes free, and the last pool entry is
      a whole arena. */
  lemma {:induction false} NormalTurns(c: Config, s: State, ks: seq<Key>, i: nat)
    requires InTurn(c, s, ks, false) && i < |ks|
    ensures var s0 := Trimmed(c, s, ks[..i], false);
      (&& (s0.fallback > 0 || (s0.used + c.max) * 2 % WORD < s0.free)
       && ks[i] in s0.pool && (forall j | j in s0.pool :: j == ks[i] || j.Less(ks[i])) && ks[i].size >= c.max)
  {
    if i < |ks| - 1 {
      NormalTurns(c, s, ks[..|ks| - 1], i);
      assert ks[..|ks| - 1][..i] == ks[..i];
    }
  }

  /** It stops as soon as one of these fails. */
  lemma NormalStops(c: Config, s: State)
    requires Settled(c, s, false) && (s.fallback > 0 || (s.used + c.max) * 2 % WORD < s.free)
    ensures forall k | k in s.pool && forall j | j in s.pool :: j == k || j.Less(k) :: k.size < c.max
  {
    forall k | k in s.pool && forall j | j in s.pool :: j == k || j.Less(k) ensures k.size < c.max {
      assert IsGreatest(s.pool, k);
      assert !Picks(c, s, k, false);
    }
  }

  /** The clean-up of fallback arenas stops as soon as none is left or the last entry is not one. */
  lemma FallbackStops(c: Config, s: State)
    requires Settled(c, s, true) && s.fallback > 0 && c.gpu
    ensures forall k | k in s.pool && forall j | j in s.pool :: j == k || j.Less(k) :: k.size < c.max || k.index == 0
  {
    forall k | k in s.pool && forall j | j in s.pool :: j == k || j.Less(k)
      ensures k.size < c.max || k.index == 0 {
      assert IsGreatest(s.pool, k);
      assert !Picks(c, s, k, true);
    }
  }

  lemma ReserveLeft(c: Config, s: State, k: Key)
    requires ShallFree(c, s) && s.fallback == 0 && s.used + c.max < HALF && s.free < WORD
    ensures Trim(c, s, k, false).free > 2 * s.used + c.max
  {
    assert (s.used + c.max) * 2 % WORD == (s.used + c.max) * 2;
    MinusIs(s.free, c.max);
  }

  /** Without fallback arenas and with true counters, CleanIdleNormalAlloc stops short of the reserve
      it wants to keep, exactly as long as doubling the bytes to keep does not wrap around. */
  lemma ReserveKept(c: Config, s: State, ks: seq<Key>)
    requires Inv(c, s) && Counted(s) && InTurn(c, s, ks, false) && ks != [] && s.fallback == 0
    ensures Trimmed(c, s, ks, false).free > 2 * s.used + c.max <==> s.used + c.max < HALF
  {
    var init, last := ks[..|ks| - 1], ks[|ks| - 1];
    var s0 := Trimmed(c, s, init, false);
    TrimmedSafe(c, s, init, false);
    TrimmedWithin(c, s, init, false);
    FallbackKept(c, s, init);
    TrimKeeps(c, s0, last, false);
    if s.used + c.max < HALF {
      ReserveLeft(c, s0, last);
    } else {
      NoReserve(c, s0, last);
    }
  }

  lemma NoReserve(c: Config, s: State, k: Key)
    requires s.used + c.max >= HALF && c.max <= s.free < WORD
    ensures Trim(c, s, k, false).free <= 2 * s.used + c.max
  {
    MinusIs(s.free, c.max);
  }

  lemma {:induction false} FallbackKept(c: Config, s: State, ks: seq<Key>)
    ensures Trimmed(c, s, ks, false).fallback == s.fallback
  {
    if ks != [] {
      FallbackKept(c, s, ks[..|ks| - 1]);
    }
  }
}
