/** Circular doubly linked lists through the `fd`/`bk` fields. Small bins and same-size
    tree chunks both use them; the ghost sequence lists a ring from its header on. */
module Rings {

  /** An address. Chunks have positive addresses, 0 is null, and the bin headers inside
      MallocState have the negative addresses given by SmallBinAt. */
  type Ptr = int
  type Field = map<Ptr, Ptr>

  function After(i: nat, n: nat): nat
    requires i < n
  {
    if i + 1 == n then 0 else i + 1
  }

  function Before(i: nat, n: nat): nat
    requires i < n
  {
    if i == 0 then n - 1 else i - 1
  }

  ghost predicate Distinct(s: seq<Ptr>)
  {
    forall i, j | 0 <= i < j < |s| :: s[i] != s[j]
  }

  /** The member at `i` points at its two neighbours. */
  ghost predicate Linked(fd: Field, bk: Field, s: seq<Ptr>, i: nat)
    requires i < |s|
  {
    && s[i] in fd && fd[s[i]] == s[After(i, |s|)]
    && s[i] in bk && bk[s[i]] == s[Before(i, |s|)]
  }

  /** `fd` steps forward through `s` and wraps around; `bk` steps backward. */
  ghost predicate Ring(fd: Field, bk: Field, s: seq<Ptr>)
  {
    && Distinct(s)
    && forall i: nat {:trigger Linked(fd, bk, s, i)} | i < |s| :: Linked(fd, bk, s, i)
  }

  function Without(s: seq<Ptr>, k: nat): seq<Ptr>
    requires k < |s|
  {
    s[..k] + s[k + 1..]
  }

  /** A ring only depends on the fields of its own members. */
  lemma RingFrame(fd: Field, bk: Field, fd': Field, bk': Field, s: seq<Ptr>)
    requires Ring(fd, bk, s)
    requires forall x | x in s :: (x in fd ==> x in fd' && fd'[x] == fd[x]) && (x in bk ==> x in bk' && bk'[x] == bk[x])
    ensures Ring(fd', bk', s)
  {
    forall i: nat | i < |s| ensures Linked(fd', bk', s, i) {
      assert Linked(fd, bk, s, i);
    }
  }

  /** What the fields of the member at `k` say about its neighbours. */
  lemma RingNeighbours(fd: Field, bk: Field, s: seq<Ptr>, k: nat)
    requires Ring(fd, bk, s) && k < |s| && |s| >= 2
    ensures Linked(fd, bk, s, k)
    ensures fd[s[k]] in s && fd[s[k]] in bk && bk[fd[s[k]]] == s[k]
    ensures bk[s[k]] in s && bk[s[k]] in fd && fd[bk[s[k]]] == s[k]
    ensures |s| == 2 <==> fd[s[k]] == bk[s[k]]
  {
    var a, b := After(k, |s|), Before(k, |s|);
    assert Linked(fd, bk, s, k) && Linked(fd, bk, s, a) && Linked(fd, bk, s, b);
    assert |s| > 2 ==> s[a] != s[b];
  }

  /** Linking `p` in right after the header. */
  lemma RingInsert(fd: Field, bk: Field, s: seq<Ptr>, p: Ptr)
    requires Ring(fd, bk, s) && |s| > 0 && p !in s
    ensures Linked(fd, bk, s, 0)
    ensures var f := fd[s[0]]; Ring(fd[s[0] := p][p := f], bk[f := p][p := s[0]], [s[0], p] + s[1..])
  {
    assert Linked(fd, bk, s, 0);
    var f := fd[s[0]];
    var t := [s[0], p] + s[1..];
    var fd', bk' := fd[s[0] := p][p := f], bk[f := p][p := s[0]];
    forall i: nat | i < |t| ensures Linked(fd', bk', t, i) {
      var j := if i == 0 then 0 else i - 1;
      assert Linked(fd, bk, s, j);
    }
  }

  /** The index in `s` of the member at `i` of `Without(s, k)`. */
  function Old(k: nat, i: nat): nat { if i < k then i else i + 1 }

  /** Unlinking the member at `k` by joining its two neighbours. */
  lemma RingRemove(fd: Field, bk: Field, s: seq<Ptr>, k: nat)
    requires Ring(fd, bk, s) && k < |s| && |s| >= 2
    ensures Linked(fd, bk, s, k)
    ensures var f, b := fd[s[k]], bk[s[k]]; Ring(fd[b := f], bk[f := b], Without(s, k))
  {
    assert Linked(fd, bk, s, k);
    var f, b := fd[s[k]], bk[s[k]];
    var fd', bk', t := fd[b := f], bk[f := b], Without(s, k);
    forall i: nat | i < |t| ensures Linked(fd', bk', t, i) {
      var j := Old(k, i);
      assert t[i] == s[j];
      assert Linked(fd, bk, s, j);
    }
    DistinctWithout(s, k);
  }

  lemma DistinctWithout(s: seq<Ptr>, k: nat)
    requires Distinct(s) && k < |s|
    ensures Distinct(Without(s, k)) && s[k] !in Without(s, k)
    ensures forall x | x in s && x != s[k] :: x in Without(s, k)
    ensures forall x | x in Without(s, k) :: x in s
  {
    forall x | x in s && x != s[k] ensures x in Without(s, k) {
      var i :| 0 <= i < |s| && s[i] == x;
      assert if i < k then Without(s, k)[i] == x else Without(s, k)[i - 1] == x;
    }
  }

  lemma DistinctTail(s: seq<Ptr>)
    requires Distinct(s) && |s| > 0
    ensures Distinct(s[1..])
  {
  }

  function Rotated(s: seq<Ptr>): seq<Ptr>
    requires |s| > 0
  {
    [s[|s| - 1]] + s[..|s| - 1]
  }

  /** A ring may be listed from its last member on. */
  lemma RingRotate(fd: Field, bk: Field, s: seq<Ptr>)
    requires Ring(fd, bk, s) && |s| > 0
    ensures Ring(fd, bk, Rotated(s))
    ensures forall x :: x in Rotated(s) <==> x in s
  {
    var t := Rotated(s);
    assert s == s[..|s| - 1] + [s[|s| - 1]];
    forall i: nat | i < |t| ensures Linked(fd, bk, t, i) {
      assert Linked(fd, bk, s, Before(i, |s|));
    }
  }
}
