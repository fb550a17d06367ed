/** How many bytes are occupied and free, and what the block operations do to these sums. */
module Accounting {
  import opened Words
  import opened Sums
  import opened BlockTable
  import opened PoolOrder
  import opened BuddyModel
  import opened Regions

  /** The bytes of block `a` if it is of kind `k`. */
  ghost function TotalIf(t: Table, k: Kind, a: Addr): nat
  {
    if a in t.live && t.live[a].kind == k then t.live[a].total else 0
  }

  ghost function Totals(t: Table, k: Kind): map<Addr, nat>
  {
    map a | a in t.live && t.live[a].kind == k :: TotalIf(t, k, a)
  }

  /** The bytes in blocks of kind `k`, descriptors included. */
  ghost function Bytes(t: Table, k: Kind): nat
  {
    Sum(Totals(t, k))
  }

  /** The regions that serve ordinary requests. */
  ghost function Arenas(t: Table): set<Addr>
  {
    set b | b in t.regions && !t.regions[b].huge
  }

  ghost predicate Conserved(t: Table, size: nat)
  {
    Bytes(t, ARENA_CHUNK) + Bytes(t, FREE_CHUNK) == size * |Arenas(t)|
  }

  ghost predicate SameBytes(t: Table, t': Table)
  {
    Bytes(t', ARENA_CHUNK) == Bytes(t, ARENA_CHUNK) && Bytes(t', FREE_CHUNK) == Bytes(t, FREE_CHUNK)
  }

  /** `n` bytes move from kind `j` to kind `k`. */
  ghost predicate Moved(t: Table, t': Table, j: Kind, k: Kind, n: nat)
  {
    Bytes(t', j) + n == Bytes(t, j) && Bytes(t', k) == Bytes(t, k) + n
  }

  lemma SetKindBytes(t: Table, a: Addr, k: Kind)
    requires a in t.live && t.live[a].kind != k
    ensures Moved(t, SetKind(t, a, k), t.live[a].kind, k, t.live[a].total)
  {
    var t', j := SetKind(t, a, k), t.live[a].kind;
    assert Totals(t', j) == Totals(t, j) - {a};
    assert Totals(t', k) == Totals(t, k)[a := t.live[a].total];
    SumRemove(Totals(t, j), a);
    SumInsert(Totals(t, k), a, t.live[a].total);
  }

  lemma SplitBytes(t: Table, a: Addr, n: nat)
    requires Splits(t, a, n) && IsFree(t, a)
    ensures SameBytes(t, Split(t, a, n))
  {
    var before := Totals(t, FREE_CHUNK);
    SplitTotals(t, a, n);
    SumUpdate(before, a, n);
    SumInsert(before[a := n], a + n, t.live[a].total - n);
  }

  lemma SplitTotals(t: Table, a: Addr, n: nat)
    requires Splits(t, a, n) && IsFree(t, a)
    ensures a in Totals(t, FREE_CHUNK) && a + n !in Totals(t, FREE_CHUNK) && a + n != a
    ensures Totals(Split(t, a, n), FREE_CHUNK) == Totals(t, FREE_CHUNK)[a := n][a + n := t.live[a].total - n]
    ensures Totals(Split(t, a, n), ARENA_CHUNK) == Totals(t, ARENA_CHUNK)
  {
    UnusedInside(t, a, n);
    SplitDescs(t, a, n);
  }

  lemma SplitDescs(t: Table, a: Addr, n: nat)
    requires Splits(t, a, n) && IsFree(t, a) && a + n !in t.live
    ensures var t', r := Split(t, a, n), a + n;
      (&& t'.live.Keys == t.live.Keys + {r} && t'.live[a].kind == t'.live[r].kind == FREE_CHUNK
       && t'.live[a].total == n && t'.live[r].total == t.live[a].total - n
       && forall b | b in t.live && b != a :: t'.live[b] == t.live[b].(left := t'.live[b].left))
  {
    Facts(t, a);
  }

  lemma MergeBytes(t: Table, a: Addr, r: Addr)
    requires Merges(t, a, r) && IsFree(t, a) && IsFree(t, r)
    ensures SameBytes(t, Merge(t, a, r))
  {
    MergeFacts(t, a, r);
    var before, d, e := Totals(t, FREE_CHUNK), t.live[a].total, t.live[r].total;
    MergeTotals(t, a, r);
    SumUpdate(before, a, d + e);
    SumRemove(before[a := d + e], r);
  }

  lemma MergeTotals(t: Table, a: Addr, r: Addr)
    requires Merges(t, a, r) && IsFree(t, a) && IsFree(t, r)
    ensures Totals(Merge(t, a, r), FREE_CHUNK) == Totals(t, FREE_CHUNK)[a := t.live[a].total + t.live[r].total] - {r}
    ensures Totals(Merge(t, a, r), ARENA_CHUNK) == Totals(t, ARENA_CHUNK)
  {
    MergeFacts(t, a, r);
  }

  lemma AddRegionBytes(t: Table, b: Addr, r: Region)
    requires Adds(t, b, r)
    ensures Bytes(AddRegion(t, b, r), ARENA_CHUNK) == Bytes(t, ARENA_CHUNK)
    ensures Bytes(AddRegion(t, b, r), FREE_CHUNK) == Bytes(t, FREE_CHUNK) + if r.huge then 0 else r.size
    ensures |Arenas(AddRegion(t, b, r))| == |Arenas(t)| + if r.huge then 0 else 1
  {
    AddedUnused(t, b, r);
    AddedTotals(t, b, r);
    ArenasAdded(t, b, r);
    SumInsert(Totals(t, KindOf(r)), b, r.size);
  }

  lemma ArenasAdded(t: Table, b: Addr, r: Region)
    requires DESC_SIZE <= r.size && b !in t.regions
    ensures |Arenas(AddRegion(t, b, r))| == |Arenas(t)| + if r.huge then 0 else 1
  {
    assert Arenas(AddRegion(t, b, r)) == if r.huge then Arenas(t) else Arenas(t) + {b};
  }

  lemma AddedTotals(t: Table, b: Addr, r: Region)
    requires DESC_SIZE <= r.size && b !in t.live
    ensures b !in Totals(t, KindOf(r))
    ensures Totals(AddRegion(t, b, r), KindOf(r)) == Totals(t, KindOf(r))[b := r.size]
    ensures forall k | k != KindOf(r) :: Totals(AddRegion(t, b, r), k) == Totals(t, k)
  {
  }

  lemma DropRegionBytes(t: Table, b: Addr)
    requires Whole(t, b) && t.live[b].kind in {FREE_CHUNK, HUGE_CHUNK}
    ensures Bytes(DropRegion(t, b), ARENA_CHUNK) == Bytes(t, ARENA_CHUNK)
    ensures Bytes(DropRegion(t, b), FREE_CHUNK) + (if t.regions[b].huge then 0 else t.regions[b].size) ==
      Bytes(t, FREE_CHUNK)
    ensures |Arenas(DropRegion(t, b))| + (if t.regions[b].huge then 0 else 1) == |Arenas(t)|
  {
    Facts(t, b);
    assert t.RegionOk(b);
    DroppedTotals(t, b);
    ArenasDropped(t, b);
    if !t.regions[b].huge {
      SumRemove(Totals(t, FREE_CHUNK), b);
    }
  }

  lemma DroppedTotals(t: Table, b: Addr)
    requires b in t.live
    ensures Totals(DropRegion(t, b), t.live[b].kind) == Totals(t, t.live[b].kind) - {b}
    ensures forall k | k != t.live[b].kind :: Totals(DropRegion(t, b), k) == Totals(t, k)
  {
  }

  lemma ArenasDropped(t: Table, b: Addr)
    requires b in t.regions
    ensures |Arenas(DropRegion(t, b))| + (if t.regions[b].huge then 0 else 1) == |Arenas(t)|
  {
    assert Arenas(DropRegion(t, b)) == Arenas(t) - {b};
  }

  /** Handing out from a free block moves the bytes granted, which may exceed those requested. */
  lemma OccupyBytes(t: Table, pool: set<Key>, k: Key, n: nat)
    requires Allocates(t, pool, k, n)
    ensures IsFree(t, k.addr) && k.addr in t.home && k.addr in Occupy(t, k.addr, n).live
    ensures Moved(t, Occupy(t, k.addr, n), FREE_CHUNK, ARENA_CHUNK, Occupy(t, k.addr, n).live[k.addr].total)
  {
    OccupyLinked(t, pool, k, n);
    OccupyBlocks(t, pool, k, n);
    if n + DESC_SIZE < k.size { SplitBytes(t, k.addr, n); }
    SetKindBytes(Split(t, k.addr, n), k.addr, ARENA_CHUNK);
  }

  /** Free moves the bytes of the released block, whatever is merged afterwards. */
  lemma ReleasedBytes(t: Table, pool: set<Key>, a: Addr)
    requires Releases(t, pool, a)
    ensures Moved(t, Released(t, a), ARENA_CHUNK, FREE_CHUNK, t.live[a].total)
  {
    MarkedLinked(t, pool, a);
    SetKindBytes(t, a, FREE_CHUNK);
    var t1 := Marked(t, a);
    var t2 := JoinRight(t1, a);
    NoZero(t1);
    JoinRightBlocks(t1, a);
    if IsFree(t1, t1.live[a].right) { MergeBytes(t1, a, t1.live[a].right); }
    JoinLeftLinked(t2, a);
    if LeftMost(t2, a) != a { MergeBytes(t2, LeftMost(t2, a), a); }
  }

  // ---- how many arenas there can be ----

  lemma {:induction false} Greatest(s: set<Addr>) returns (g: Addr)
    requires exists b :: b in s
    ensures g in s && forall b | b in s :: b <= g
    decreases |s|
  {
    var e :| e in s;
    g := e;
    var rest := s - {e};
    if exists b :: b in rest {
      var h := Greatest(rest);
      if h > e { g := h; }
      forall b | b in s ensures b <= g {
        assert b == e || b in rest;
      }
    }
  }

  lemma {:induction false} RegionsFit(t: Table, s: set<Addr>, size: nat, hi: Addr)
    requires t.Linked() && s <= t.regions.Keys && hi > 0
    requires forall b | b in s :: t.regions[b].size == size && b + size <= hi
    ensures size * |s| < hi
    decreases |s|
  {
    if exists b :: b in s {
      var b := Greatest(s);
      var rest := s - {b};
      forall c | c in rest ensures c + size <= b {
        assert t.RegionsApart(c, b);
      }
      assert t.RegionOk(b);
      Facts(t, b);
      RegionsFit(t, rest, size, b);
      MulSucc(size, |rest|);
    } else {
      assert s == {};
    }
  }

  // ---- blocks in multiples of the minimum chunk size ----

  predicate Multiple(x: int, m: nat) { m > 0 && x % m == 0 }

  lemma Multiples(x: int, y: int, m: nat)
    requires Multiple(x, m) && Multiple(y, m)
    ensures Multiple(x + y, m) && Multiple(x - y, m)
  {
    var p, q := x / m, y / m;
    assert x == p * m && y == q * m;
    MultipleOf(p + q, m);
    MultipleOf(p - q, m);
    assert (p + q) * m == x + y && (p - q) * m == x - y;
  }

  lemma MultipleOf(q: int, m: nat)
    requires m > 0
    ensures Multiple(q * m, m)
  {
    var r := (q * m) % m;
    var k := (q * m) / m;
    assert q * m == k * m + r;
    assert (q - k) * m == r;
    if q - k >= 1 { MulLe(1, q - k, m); }
    if q - k <= -1 { MulLe(q - k, -1, m); }
  }

  /** No multiple lies strictly between neighbouring ones. */
  lemma MultipleBelow(x: int, y: int, m: nat)
    requires Multiple(x, m) && Multiple(y, m) && x < y
    ensures x + m <= y
  {
    var p, q := x / m, y / m;
    assert x == p * m && y == q * m;
    if q <= p { MulLe(q, p, m); }
    MulLe(p + 1, q, m);
  }

  /** `a` lies at a multiple of `min` in its arena, and ends at one unless the arena ends there. */
  ghost predicate SizedAt(t: Table, a: Addr, min: nat)
    requires a in t.live
  {
    t.live[a].kind != HUGE_CHUNK ==>
      && a in t.home && Multiple(a - t.home[a], min)
      && (t.live[a].right == 0 || Multiple(t.live[a].total, min))
  }

  ghost predicate Sized(t: Table, min: nat)
  {
    forall a {:trigger SizedAt(t, a, min)} | a in t.live :: SizedAt(t, a, min)
  }

  lemma SplitSized(t: Table, a: Addr, n: nat, min: nat)
    requires Splits(t, a, n) && Sized(t, min) && Multiple(n, min)
    ensures Sized(Split(t, a, n), min)
  {
    var t' := Split(t, a, n);
    UnusedInside(t, a, n);
    assert SizedAt(t, a, min);
    Multiples(a - t.home[a], n, min);
    forall b | b in t'.live ensures SizedAt(t', b, min) {
      if b in t.live { assert SizedAt(t, b, min); }
      if b == a + n && t.live[a].right != 0 { Multiples(t.live[a].total, n, min); }
    }
  }

  lemma MergeSized(t: Table, a: Addr, r: Addr, min: nat)
    requires Merges(t, a, r) && Sized(t, min)
    ensures Sized(Merge(t, a, r), min)
  {
    var t' := Merge(t, a, r);
    MergeFacts(t, a, r);
    assert SizedAt(t, a, min) && SizedAt(t, r, min);
    if t.live[r].right != 0 { Multiples(t.live[a].total, t.live[r].total, min); }
    forall b | b in t'.live ensures SizedAt(t', b, min) {
      assert SizedAt(t, b, min);
    }
  }

  lemma SetKindSized(t: Table, a: Addr, k: Kind, min: nat)
    requires Sized(t, min) && a in t.live && t.live[a].kind != HUGE_CHUNK
    ensures Sized(SetKind(t, a, k), min)
  {
    forall b | b in t.live ensures SizedAt(SetKind(t, a, k), b, min) {
      assert SizedAt(t, b, min);
    }
  }

  lemma AddRegionSized(t: Table, b: Addr, r: Region, min: nat)
    requires Sized(t, min) && DESC_SIZE <= r.size && min > 0
    ensures Sized(AddRegion(t, b, r), min)
  {
    forall a | a in AddRegion(t, b, r).live ensures SizedAt(AddRegion(t, b, r), a, min) {
      if a != b { assert SizedAt(t, a, min); }
    }
  }

  lemma DropRegionSized(t: Table, b: Addr, min: nat)
    requires Sized(t, min)
    ensures Sized(DropRegion(t, b), min)
  {
    forall a | a in DropRegion(t, b).live ensures SizedAt(DropRegion(t, b), a, min) {
      assert SizedAt(t, a, min);
    }
  }

  lemma OccupySized(t: Table, pool: set<Key>, k: Key, n: nat, min: nat)
    requires Allocates(t, pool, k, n) && Sized(t, min) && Multiple(n, min)
    ensures IsFree(t, k.addr) && k.addr in t.home && Sized(Occupy(t, k.addr, n), min)
  {
    OccupyLinked(t, pool, k, n);
    if n + DESC_SIZE < k.size { SplitSized(t, k.addr, n, min); }
    SetKindSized(Split(t, k.addr, n), k.addr, ARENA_CHUNK, min);
  }

  lemma ReleasedSized(t: Table, pool: set<Key>, a: Addr, min: nat)
    requires Releases(t, pool, a) && Sized(t, min)
    ensures Sized(Released(t, a), min)
  {
    MarkedLinked(t, pool, a);
    SetKindSized(t, a, FREE_CHUNK, min);
    var t1 := Marked(t, a);
    var t2 := JoinRight(t1, a);
    NoZero(t1);
    JoinRightBlocks(t1, a);
    if IsFree(t1, t1.live[a].right) { MergeSized(t1, a, t1.live[a].right, min); }
    JoinLeftLinked(t2, a);
    if LeftMost(t2, a) != a { MergeSized(t2, LeftMost(t2, a), a, min); }
  }
}
