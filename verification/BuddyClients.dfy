/** Two allocators side by side, one with descriptors at the head of their blocks and one with a
    side table: no run tells them apart. */
module BuddyClients {
  import opened BlockTable
  import opened BuddyRuns
  import opened BuddyHistory
  import opened BuddyAllocators

  /** The two differ in where descriptors are stored, and at most in the fallback counts. */
  ghost predicate Twins(a: BuddyAllocator, b: BuddyAllocator)
    reads a, b, a.cache, b.cache
  {
    && a != b && a.cache != b.cache && a.Valid() && b.Valid()
    && b.config == Other(a.config) && Agree(a.State(), b.State())
  }

  /** The same call on both. */
  method StepBoth(a: BuddyAllocator, b: BuddyAllocator, e: Event) returns (p: Addr, q: Addr)
    requires Twins(a, b) && Legal(a.config, a.State(), e)
    modifies a, b, a.cache, b.cache
    ensures Twins(a, b) && p == q && a.State() == After(a.config, old(a.State()), e)
  {
    StepAgrees(a.config, a.State(), b.State(), e);
    match e {
      case Alloc(n, answer) =>
        AllocAgrees(a.config, a.State(), b.State(), n, answer);
        p := a.Alloc(n, answer);
        q := b.Alloc(n, answer);
      case Free(mem) =>
        a.Free(mem);
        b.Free(mem);
        p, q := 0, 0;
    }
  }

  /** What a client does: a call, or a write of the bytes from `lo` to `hi` of the payload at `p`. */
  datatype Act = Call(e: Event) | Write(p: Addr, lo: Addr, hi: Addr)

  ghost predicate Allowed(c: Config, s: State, act: Act)
  {
    match act
    case Call(e) => Legal(c, s, e)
    case Write(p, lo, hi) =>
      Taken(s.table, p - DESC_SIZE) && p <= lo <= hi <= p + s.table.live[p - DESC_SIZE].size
  }

  /** A write inside a payload is no business of the allocator's. */
  ghost function AfterAct(c: Config, s: State, act: Act): State
    requires Inv(c, s) && Allowed(c, s, act)
  {
    match act
    case Call(e) => After(c, s, e)
    case Write(_, _, _) => s
  }

  lemma ActKeeps(c: Config, s: State, act: Act)
    requires Inv(c, s) && Allowed(c, s, act)
    ensures Inv(c, AfterAct(c, s, act))
  {
    if act.Call? { StepKeeps(c, s, act.e); }
  }

  ghost predicate AllowedRun(c: Config, s: State, acts: seq<Act>)
    requires Inv(c, s)
    decreases |acts|
  {
    acts == [] ||
    (Allowed(c, s, acts[0]) &&
     (ActKeeps(c, s, acts[0]);
      AllowedRun(c, AfterAct(c, s, acts[0]), acts[1..])))
  }

  ghost function FinalAct(c: Config, s: State, acts: seq<Act>): State
    requires Inv(c, s) && AllowedRun(c, s, acts)
    decreases |acts|
  {
    if acts == [] then s else
      ActKeeps(c, s, acts[0]);
      FinalAct(c, AfterAct(c, s, acts[0]), acts[1..])
  }

  /** The same act on both. */
  method ActBoth(a: BuddyAllocator, b: BuddyAllocator, act: Act) returns (p: Addr, q: Addr)
    requires Twins(a, b) && Allowed(a.config, a.State(), act)
    modifies a, b, a.cache, b.cache
    ensures Twins(a, b) && p == q && a.State() == AfterAct(a.config, old(a.State()), act)
  {
    match act {
      case Call(e) =>
        p, q := StepBoth(a, b, e);
      case Write(mem, lo, hi) =>
        a.ClientWrite(mem, lo, hi);
        b.ClientWrite(mem, lo, hi);
        p, q := 0, 0;
    }
  }

  /** Any run, on both, in which clients call the allocator and write their payloads: the same
      pointers, and in the end the same blocks, pool and counters. */
  method SideBySide(a: BuddyAllocator, b: BuddyAllocator, acts: seq<Act>) returns (ps: seq<Addr>, qs: seq<Addr>)
    requires Twins(a, b) && AllowedRun(a.config, a.State(), acts)
    modifies a, b, a.cache, b.cache
    ensures Twins(a, b) && ps == qs && |ps| == |acts|
    ensures a.State() == FinalAct(a.config, old(a.State()), acts)
    decreases |acts|
  {
    if acts == [] {
      return [], [];
    }
    var p, q := ActBoth(a, b, acts[0]);
    ps, qs := SideBySide(a, b, acts[1..]);
    ps, qs := [p] + ps, [q] + qs;
  }
}
