/** The sizes that tree bins refuse: when filing a remainder or a coalesced chunk throws. */
module Collisions {
  import opened Rings
  import opened TreeIndex
  import opened BinIndex
  import opened TreeSearch
  import opened SmallSearch

  // ---- one size per tree bin ----

  ghost predicate SameSizeInBin(binned: map<Ptr, nat>, d: Ptr, e: Ptr)
    requires d in binned && e in binned
  {
    MIN_LARGE_SIZE <= binned[d] && MIN_LARGE_SIZE <= binned[e] &&
      ComputeTreeIndex(binned[d]) == ComputeTreeIndex(binned[e]) ==>
      binned[d] == binned[e]
  }

  /** No tree bin holds two sizes. */
  ghost predicate OneSizePerBin(binned: map<Ptr, nat>)
  {
    forall d, e {:trigger SameSizeInBin(binned, d, e)} | d in binned && e in binned :: SameSizeInBin(binned, d, e)
  }

  /** The sizes insert_large_chunk refuses are exactly those that would be a second one in their
      bin, so no bin ever holds two. */
  lemma RefusedIffSecondSize(binned: map<Ptr, nat>, e: Ptr, s: nat)
    requires OneSizePerBin(binned) && e !in binned && s >= MIN_LARGE_SIZE
    ensures OneSizePerBin(binned[e := s]) <==> !Collides(binned, s)
  {
    var after := binned[e := s];
    if Collides(binned, s) {
      var d :| d in binned && MIN_LARGE_SIZE <= binned[d] && ComputeTreeIndex(binned[d]) == ComputeTreeIndex(s);
      assert !SameSizeInBin(after, d, e);
    } else {
      forall c, d | c in after && d in after ensures SameSizeInBin(after, c, d) {
        NotSecond(binned, c, s);
        NotSecond(binned, d, s);
        if c in binned && d in binned { assert SameSizeInBin(binned, c, d); }
      }
    }
  }

  lemma NotSecond(binned: map<Ptr, nat>, d: Ptr, s: nat)
    requires OneSizePerBin(binned) && !Collides(binned, s) && s >= MIN_LARGE_SIZE
    ensures d in binned && MIN_LARGE_SIZE <= binned[d] && ComputeTreeIndex(binned[d]) == ComputeTreeIndex(s) ==>
      binned[d] == s
  {
    if d in binned && MIN_LARGE_SIZE <= binned[d] && ComputeTreeIndex(binned[d]) == ComputeTreeIndex(s) {
      assert HasSize(binned, s);
      var e :| e in binned && binned[e] == s;
      assert SameSizeInBin(binned, d, e);
    }
  }

  lemma OneSizeAdded(binned: map<Ptr, nat>, e: Ptr, s: nat)
    requires OneSizePerBin(binned) && (s >= MIN_LARGE_SIZE ==> !Collides(binned, s))
    ensures OneSizePerBin(binned[e := s])
  {
    var after := binned[e := s];
    forall c, d | c in after && d in after ensures SameSizeInBin(after, c, d) {
      if s >= MIN_LARGE_SIZE {
        NotSecond(binned, c, s);
        NotSecond(binned, d, s);
      }
      if c in binned && d in binned { assert SameSizeInBin(binned, c, d); }
    }
  }

  lemma OneSizeRemoved(binned: map<Ptr, nat>, gone: set<Ptr>)
    requires OneSizePerBin(binned)
    ensures OneSizePerBin(binned - gone)
  {
    forall c, d | c in binned - gone && d in binned - gone ensures SameSizeInBin(binned - gone, c, d) {
      assert SameSizeInBin(binned, c, d);
    }
  }

  /** A chunk taken out of its bin can go back in. */
  lemma OwnSizeFits(binned: map<Ptr, nat>, p: Ptr)
    requires OneSizePerBin(binned) && p in binned && binned[p] >= MIN_LARGE_SIZE
    ensures !Collides(binned - {p}, binned[p])
  {
    var rest, s := binned - {p}, binned[p];
    if Occupied(rest, ComputeTreeIndex(s)) {
      var e :| e in rest && MIN_LARGE_SIZE <= rest[e] && ComputeTreeIndex(rest[e]) == ComputeTreeIndex(s);
      assert SameSizeInBin(binned, p, e);
      assert HasSize(rest, s);
    }
  }

  // ---- the remainder of a large request ----

  /** A large request throws: a tree chunk of the best fitting size `t` beats the designated victim
      and leaves a large remainder that its tree bin refuses. */
  ghost predicate AllocCollides(binned: map<Ptr, nat>, dvsize: nat, nb: nat)
  {
    && nb >= MIN_LARGE_SIZE
    && exists v, t: nat {:trigger IsBestFit(binned, nb, v, t)} | IsBestFit(binned, nb, v, t) ::
         t >= nb + MIN_LARGE_SIZE && (dvsize < nb || t < dvsize) && Collides(binned - {v}, t - nb)
  }

  /** Which of several chunks of one size is taken does not matter. */
  lemma SameSizeSwap(binned: map<Ptr, nat>, v: Ptr, p: Ptr, x: nat)
    requires v in binned && p in binned && binned[v] == binned[p] && Collides(binned - {v}, x)
    ensures Collides(binned - {p}, x)
  {
    var without, other := binned - {v}, binned - {p};
    var e :| e in without && MIN_LARGE_SIZE <= without[e] && ComputeTreeIndex(without[e]) == ComputeTreeIndex(x);
    assert (if e == p then v else e) in other;
    if HasSize(other, x) { SameSizeFound(binned, p, v, x); }
  }

  lemma SameSizeFound(binned: map<Ptr, nat>, v: Ptr, p: Ptr, x: nat)
    requires v in binned && p in binned && binned[v] == binned[p] && HasSize(binned - {v}, x)
    ensures HasSize(binned - {p}, x)
  {
    var without, other := binned - {v}, binned - {p};
    var d :| d in without && without[d] == x;
    var e := if d == p then v else d;
    assert e in other && other[e] == x;
  }

  lemma CollisionFound(binned: map<Ptr, nat>, dvsize: nat, nb: nat, v: Ptr, s: nat)
    requires nb >= MIN_LARGE_SIZE && IsBestFit(binned, nb, v, s) && (dvsize < nb || s < dvsize)
    requires s - nb >= MIN_LARGE_SIZE && Collides(binned - {v}, s - nb)
    ensures AllocCollides(binned, dvsize, nb)
  {
  }

  /** If the remainder of one best fit is accepted, those of all others are. */
  lemma NoCollision(binned: map<Ptr, nat>, dvsize: nat, nb: nat, p: Ptr, s: nat)
    requires IsBestFit(binned, nb, p, s) && (s - nb >= MIN_LARGE_SIZE ==> !Collides(binned - {p}, s - nb))
    ensures !AllocCollides(binned, dvsize, nb)
  {
    forall v, t: nat | IsBestFit(binned, nb, v, t) && t >= nb + MIN_LARGE_SIZE ensures !Collides(binned - {v}, t - nb) {
      if Collides(binned - {v}, t - nb) { SameSizeSwap(binned, v, p, t - nb); }
    }
  }

  lemma NothingTaken(binned: map<Ptr, nat>, dvsize: nat, nb: nat)
    requires NoneFits(binned, nb) || (nb <= dvsize && DvAsGood(binned, nb, dvsize))
    ensures !AllocCollides(binned, dvsize, nb)
  {
  }
}
