/** The ordered pool of free blocks, a std::set of (index, size, address) tuples. */
module PoolOrder {
  import opened BlockTable

  datatype Option<+T> = None | Some(value: T)

  datatype Key = Key(index: nat, size: nat, addr: Addr)
  {
    /** Lexicographic order. */
    predicate Less(k: Key)
    {
      index < k.index || (index == k.index && (size < k.size || (size == k.size && addr < k.addr)))
    }
  }

  /** `k` is the least element of `s`. */
  ghost predicate IsLeast(s: set<Key>, k: Key)
  {
    k in s && forall j | j in s :: j == k || k.Less(j)
  }

  lemma {:induction false} LeastExists(s: set<Key>) returns (k: Key)
    requires s != {}
    ensures IsLeast(s, k)
    decreases |s|
  {
    var e :| e in s;
    k := e;
    var rest := s - {e};
    if rest != {} {
      var j := LeastExists(rest);
      if j.Less(e) { k := j; }
    }
    forall i | i in s ensures i == k || k.Less(i) {
      assert i == e || i in rest;
    }
  }

  /** `k` is the greatest element of `s`. */
  ghost predicate IsGreatest(s: set<Key>, k: Key)
  {
    k in s && forall j | j in s :: j == k || j.Less(k)
  }

  lemma {:induction false} GreatestExists(s: set<Key>) returns (k: Key)
    requires s != {}
    ensures IsGreatest(s, k)
    decreases |s|
  {
    var e :| e in s;
    k := e;
    var rest := s - {e};
    if rest != {} {
      var j := GreatestExists(rest);
      if e.Less(j) { k := j; }
    }
    forall i | i in s ensures i == k || i.Less(k) {
      assert i == e || i in rest;
    }
  }

  /** `*pool.begin()` */
  method First(pool: set<Key>) returns (k: Key)
    requires pool != {}
    ensures IsLeast(pool, k)
  {
    ghost var least := LeastExists(pool);
    k :| k in pool && forall i | i in pool :: i == k || k.Less(i);
  }

  /** `*pool.rbegin()` */
  method Last(pool: set<Key>) returns (k: Key)
    requires pool != {}
    ensures IsGreatest(pool, k)
  {
    ghost var greatest := GreatestExists(pool);
    k :| k in pool && forall i | i in pool :: i == k || i.Less(k);
  }

  /** The entries not before `k`. */
  ghost function NotBefore(pool: set<Key>, k: Key): set<Key>
  {
    set j | j in pool && !j.Less(k)
  }

  /** `pool.lower_bound(k)`: the first entry not before `k`. */
  method LowerBound(pool: set<Key>, k: Key) returns (it: Option<Key>)
    ensures it.None? ==> NotBefore(pool, k) == {}
    ensures it.Some? ==> IsLeast(NotBefore(pool, k), it.value)
  {
    if exists j | j in pool :: !j.Less(k) {
      ghost var w :| w in pool && !w.Less(k);
      assert w in NotBefore(pool, k);
      ghost var least := LeastExists(NotBefore(pool, k));
      var j :| j in pool && !j.Less(k) && forall i | i in pool && !i.Less(k) :: i == j || j.Less(i);
      it := Some(j);
    } else {
      it := None;
    }
  }

  /** The entries large enough for `size`. */
  ghost function Fitting(pool: set<Key>, size: nat): set<Key>
  {
    set k | k in pool && k.size >= size
  }

  /** How many entries have an index above `index`. */
  ghost function Above(pool: set<Key>, index: nat): set<Key>
  {
    set k | k in pool && k.index > index
  }

  /** The entry FindExistChunk settles on: the least fitting one, that is, the best fit within
      the lowest index that can serve the request. */
  method FindExistChunk(pool: set<Key>, size: nat) returns (it: Option<Key>)
    requires forall k | k in pool :: k.addr >= 0
    ensures it.None? ==> Fitting(pool, size) == {}
    ensures it.Some? ==> IsLeast(Fitting(pool, size), it.value)
  {
    var index := 0;
    while true
      invariant forall k | k in Fitting(pool, size) :: k.index >= index
      decreases |Above(pool, index)|
    {
      var bound := Key(index, size, 0);
      it := LowerBound(pool, bound);
      FittingNotBefore(pool, size, index);
      if it.None? {
        return;
      }
      if it.value.index > index {
        if it.value.size >= size {
          return;
        }
        AboveShrinks(pool, index, it.value);
        index := it.value.index;
      } else {
        return;
      }
    }
  }

  lemma FittingNotBefore(pool: set<Key>, size: nat, index: nat)
    requires forall k | k in pool :: k.addr >= 0
    requires forall k | k in Fitting(pool, size) :: k.index >= index
    ensures Fitting(pool, size) <= NotBefore(pool, Key(index, size, 0))
  {
  }

  lemma AboveShrinks(pool: set<Key>, index: nat, k: Key)
    requires k in pool && k.index > index
    ensures |Above(pool, k.index)| < |Above(pool, index)|
  {
    assert Above(pool, k.index) <= Above(pool, index) - {k};
    SubsetSize(Above(pool, k.index), Above(pool, index) - {k});
  }

  lemma {:induction false} SubsetSize(s: set<Key>, t: set<Key>)
    requires s <= t
    ensures |s| <= |t|
    decreases |s|
  {
    if k :| k in s {
      SubsetSize(s - {k}, t - {k});
    }
  }
}
