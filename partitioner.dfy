// The partitioner: lists the partitions of a set of n elements into m blocks
// as restricted growth strings, by Ruskey's recursive Gray-code algorithm in
// the answer to exercise 17 of section 7.2.1.5 of The Art of Computer
// Programming, volume 4 (pre-fascicle 3b).  The string under construction
// is a[0..n], whose leading entry a[0] is a sentinel the results drop; the
// two mutually recursive procedures `f` and `b` walk the strings forwards
// and backwards, and `visit` records the current one.

module Partitioning {
  import Common

  /** `enumerate_elements(set)`: the identifiers 1, …, n of the set's elements. */
  function Enumerated(n: nat): (r: seq<nat>)
    ensures |r| == n && forall i :: 0 <= i < n ==> r[i] == i + 1
  {
    seq(n, i requires 0 <= i < n => i + 1)
  }

  /** The string of `n` zeros: the single partition into one block. */
  function Zeros(n: nat): (r: seq<nat>)
    ensures |r| == n && forall i :: 0 <= i < n ==> r[i] == 0
  {
    seq(n, i requires 0 <= i < n => 0)
  }

  /** A visited string: `len` entries below `m`, the sentinel and the first element's block both 0. */
  ghost predicate Legal(p: seq<nat>, len: nat, m: nat)
  {
    |p| == len && len >= 2 && p[0] == 0 && p[1] == 0 && forall i :: 0 <= i < |p| ==> p[i] < m
  }

  /** `after` keeps the strings of `before` and adds legal ones. */
  ghost predicate Extends(before: seq<seq<nat>>, after: seq<seq<nat>>, len: nat, m: nat)
  {
    |before| <= |after| && after[..|before|] == before &&
    forall k :: |before| <= k < |after| ==> Legal(after[k], len, m)
  }

  lemma ExtendsTrans(a: seq<seq<nat>>, b: seq<seq<nat>>, c: seq<seq<nat>>, len: nat, m: nat)
    requires Extends(a, b, len, m) && Extends(b, c, len, m)
    ensures Extends(a, c, len, m)
  {
    assert c[..|a|] == c[..|b|][..|a|];
    forall k | |a| <= k < |c| ensures Legal(c[k], len, m) {
      if k < |b| {
        assert c[k] == c[..|b|][k];
      }
    }
  }

  /** A legal string dropped of its sentinel. */
  lemma LegalTail(p: seq<nat>, len: nat, m: nat)
    requires Legal(p, len, m)
    ensures |p[1..]| == len - 1 && p[1..][0] == 0 && forall i :: 0 <= i < |p[1..]| ==> p[1..][i] < m
  {
  }

  /** The strings without their sentinels. */
  function Tails(ps: seq<seq<nat>>): (r: seq<seq<nat>>)
    requires forall k :: 0 <= k < |ps| ==> |ps[k]| > 0
    ensures |r| == |ps| && forall k :: 0 <= k < |ps| ==> r[k] == ps[k][1..]
  {
    seq(|ps|, k requires 0 <= k < |ps| => ps[k][1..])
  }

  /** `Partitioner`: the set's identifiers, the string under construction and the strings visited. */
  class Partitioner {
    const mSet: seq<nat>
    var a: array<nat>
    var partitions: seq<seq<nat>>

    constructor (setSize: nat)
      ensures mSet == Enumerated(setSize) && partitions == []
    {
      mSet := Enumerated(setSize);
      a := new nat[0];
      partitions := [];
    }

    /** The string has its sentinel and first entry at 0 and every entry below `m`. */
    ghost predicate Shaped(m: nat)
      reads this, a
    {
      a.Length >= 2 && a[0] == 0 && a[1] == 0 && forall i :: 0 <= i < a.Length ==> a[i] < m
    }

    /** `visit()`: records the current string. */
    method Visit(ghost m: nat)
      requires Shaped(m)
      modifies this
      ensures a == old(a) && partitions == old(partitions) + [a[..]]
      ensures Extends(old(partitions), partitions, a.Length, m)
    {
      partitions := partitions + [a[..]];
      assert partitions[..|old(partitions)|] == old(partitions);
    }

    /**
     * `f(mu, nu, sigma)`: the forward walk.  It visits at least one string,
     * leaves the sentinel, the first entry and every entry past `nu` as they
     * were, and keeps every entry below `m`.
     */
    method F(mu: nat, nu: nat, sigma: nat, ghost m: nat)
      requires 2 <= mu <= m && mu < nu < a.Length && Shaped(m)
      modifies this, a
      ensures a == old(a) && Shaped(m)
      ensures Extends(old(partitions), partitions, a.Length, m) && |partitions| > |old(partitions)|
      ensures forall i :: 0 <= i < a.Length && (i < 2 || i > nu) ==> a[i] == old(a[i])
      decreases nu, 2
    {
      if mu == 2 {
        Visit(m);
      } else {
        F(mu - 1, nu - 1, (mu + sigma) % 2, m);
      }
      ghost var visited := partitions;
      if nu == mu + 1 {
        ForwardLast(mu, nu, m);
      } else if nu > mu + 1 {
        ForwardInner(mu, nu, sigma, m);
      }
      ExtendsTrans(old(partitions), visited, partitions, a.Length, m);
    }

    /** The branch of `f` for `nu == mu + 1`: sets `a[mu]` to `mu - 1`, then visits while counting `a[nu]` down to 0. */
    method ForwardLast(mu: nat, nu: nat, ghost m: nat)
      requires 2 <= mu <= m && nu == mu + 1 && nu < a.Length && Shaped(m)
      modifies this, a
      ensures a == old(a) && Shaped(m)
      ensures Extends(old(partitions), partitions, a.Length, m) && |partitions| > |old(partitions)|
      ensures forall i :: 0 <= i < a.Length && (i < 2 || i > nu) ==> a[i] == old(a[i])
    {
      a[mu] := mu - 1;
      Visit(m);
      while a[nu] > 0
        invariant a == old(a) && Shaped(m)
        invariant Extends(old(partitions), partitions, a.Length, m) && |partitions| > |old(partitions)|
        invariant forall i :: 0 <= i < a.Length && (i < 2 || i > nu) ==> a[i] == old(a[i])
        decreases a[nu]
      {
        a[nu] := a[nu] - 1;
        ghost var before := partitions;
        Visit(m);
        ExtendsTrans(old(partitions), before, partitions, a.Length, m);
      }
    }

    /** The branch of `f` for `nu > mu + 1`: one entry set to `mu - 1` by parity, then a descent for each value of `a[nu]` counting down to 0. */
    method ForwardInner(mu: nat, nu: nat, sigma: nat, ghost m: nat)
      requires 2 <= mu <= m && mu + 1 < nu < a.Length && Shaped(m)
      modifies this, a
      ensures a == old(a) && Shaped(m)
      ensures Extends(old(partitions), partitions, a.Length, m) && |partitions| > |old(partitions)|
      ensures forall i :: 0 <= i < a.Length && (i < 2 || i > nu) ==> a[i] == old(a[i])
      decreases nu, 1
    {
      if (mu + sigma) % 2 == 1 {
        a[nu - 1] := mu - 1;
      } else {
        a[mu] := mu - 1;
      }
      Descend(mu, nu, sigma, m);
      while a[nu] > 0
        invariant a == old(a) && Shaped(m)
        invariant Extends(old(partitions), partitions, a.Length, m) && |partitions| > |old(partitions)|
        invariant forall i :: 0 <= i < a.Length && (i < 2 || i > nu) ==> a[i] == old(a[i])
        decreases a[nu]
      {
        a[nu] := a[nu] - 1;
        ghost var before := partitions;
        Descend(mu, nu, sigma, m);
        ExtendsTrans(old(partitions), before, partitions, a.Length, m);
      }
    }

    /** The parity test of `f`'s descent: `b(mu, nu - 1, 0)` when `a[nu] + sigma` is odd, `f(mu, nu - 1, 0)` otherwise. */
    method Descend(mu: nat, nu: nat, sigma: nat, ghost m: nat)
      requires 2 <= mu <= m && mu + 1 < nu < a.Length && Shaped(m)
      modifies this, a
      ensures a == old(a) && Shaped(m)
      ensures Extends(old(partitions), partitions, a.Length, m) && |partitions| > |old(partitions)|
      ensures forall i :: 0 <= i < a.Length && (i < 2 || i > nu - 1) ==> a[i] == old(a[i])
      decreases nu, 0
    {
      if (a[nu] + sigma) % 2 == 1 {
        B(mu, nu - 1, 0, m);
      } else {
        F(mu, nu - 1, 0, m);
      }
    }

    /** The parity test of `b`'s ascent: `f(mu, nu - 1, 0)` when `a[nu] + sigma` is odd, `b(mu, nu - 1, 0)` otherwise. */
    method Ascend(mu: nat, nu: nat, sigma: nat, ghost m: nat)
      requires 2 <= mu <= m && mu + 1 < nu < a.Length && Shaped(m)
      modifies this, a
      ensures a == old(a) && Shaped(m)
      ensures Extends(old(partitions), partitions, a.Length, m) && |partitions| > |old(partitions)|
      ensures forall i :: 0 <= i < a.Length && (i < 2 || i > nu - 1) ==> a[i] == old(a[i])
      decreases nu, 0
    {
      if (a[nu] + sigma) % 2 == 1 {
        F(mu, nu - 1, 0, m);
      } else {
        B(mu, nu - 1, 0, m);
      }
    }

    /** `b(mu, nu, sigma)`: the backward walk, with the same guarantees as `f`. */
    method B(mu: nat, nu: nat, sigma: nat, ghost m: nat)
      requires 2 <= mu <= m && mu < nu < a.Length && Shaped(m)
      modifies this, a
      ensures a == old(a) && Shaped(m)
      ensures Extends(old(partitions), partitions, a.Length, m) && |partitions| > |old(partitions)|
      ensures forall i :: 0 <= i < a.Length && (i < 2 || i > nu) ==> a[i] == old(a[i])
      decreases nu, 2
    {
      if nu == mu + 1 {
        BackwardLast(mu, nu, m);
      } else if nu > mu + 1 {
        BackwardInner(mu, nu, sigma, m);
      }
      ghost var walked := partitions;
      if mu == 2 {
        Visit(m);
      } else {
        B(mu - 1, nu - 1, (mu + sigma) % 2, m);
      }
      ExtendsTrans(old(partitions), walked, partitions, a.Length, m);
    }

    /** The branch of `b` for `nu == mu + 1`: visits while counting `a[nu]` up to `mu - 1`, visits once more, then resets `a[mu]`. */
    method BackwardLast(mu: nat, nu: nat, ghost m: nat)
      requires 2 <= mu <= m && nu == mu + 1 && nu < a.Length && Shaped(m)
      modifies this, a
      ensures a == old(a) && Shaped(m)
      ensures Extends(old(partitions), partitions, a.Length, m)
      ensures forall i :: 0 <= i < a.Length && (i < 2 || i > nu) ==> a[i] == old(a[i])
    {
      while a[nu] < mu - 1
        invariant a == old(a) && Shaped(m)
        invariant Extends(old(partitions), partitions, a.Length, m)
        invariant forall i :: 0 <= i < a.Length && (i < 2 || i > nu) ==> a[i] == old(a[i])
        decreases mu - 1 - a[nu]
      {
        ghost var before := partitions;
        Visit(m);
        ExtendsTrans(old(partitions), before, partitions, a.Length, m);
        a[nu] := a[nu] + 1;
      }
      ghost var before := partitions;
      Visit(m);
      ExtendsTrans(old(partitions), before, partitions, a.Length, m);
      a[mu] := 0;
    }

    /** The branch of `b` for `nu > mu + 1`: an ascent for each value of `a[nu]` counting up to `mu - 1`, then one entry reset by parity. */
    method BackwardInner(mu: nat, nu: nat, sigma: nat, ghost m: nat)
      requires 2 <= mu <= m && mu + 1 < nu < a.Length && Shaped(m)
      modifies this, a
      ensures a == old(a) && Shaped(m)
      ensures Extends(old(partitions), partitions, a.Length, m)
      ensures forall i :: 0 <= i < a.Length && (i < 2 || i > nu) ==> a[i] == old(a[i])
      decreases nu, 1
    {
      Ascend(mu, nu, sigma, m);
      while a[nu] < mu - 1
        invariant a == old(a) && Shaped(m)
        invariant Extends(old(partitions), partitions, a.Length, m)
        invariant forall i :: 0 <= i < a.Length && (i < 2 || i > nu) ==> a[i] == old(a[i])
        decreases mu - 1 - a[nu]
      {
        a[nu] := a[nu] + 1;
        ghost var before := partitions;
        Ascend(mu, nu, sigma, m);
        ExtendsTrans(old(partitions), before, partitions, a.Length, m);
      }
      if (mu + sigma) % 2 == 1 {
        a[nu - 1] := 0;
      } else {
        a[mu] := 0;
      }
    }

    /**
     * `construct_all_m_blocks_partitions_of_the_set_by_algorithm_u(m)`: the
     * single string for one block or for as many blocks as elements, and
     * otherwise, for 1 < m < n, the strings the walk visits from the string
     * 0 … 0 0 1 … m - 1, each dropped of its sentinel; the store of visited
     * strings is emptied afterwards.
     */
    method Construct(nbBlocks: nat) returns (result: seq<seq<nat>>)
      requires nbBlocks == 1 || nbBlocks == |mSet| || 1 < nbBlocks < |mSet|
      modifies this
      ensures nbBlocks == 1 ==> result == [Zeros(|mSet|)] && partitions == old(partitions)
      ensures nbBlocks != 1 && nbBlocks == |mSet| ==> result == [Common.Iota(|mSet|)] && partitions == old(partitions)
      ensures 1 < nbBlocks < |mSet| ==> |result| >= 1 && partitions == []
      ensures 1 < nbBlocks < |mSet| ==> forall k :: 0 <= k < |result| ==>
        |result[k]| == |mSet| && result[k][0] == 0 && forall i :: 0 <= i < |mSet| ==> result[k][i] < nbBlocks
    {
      var n := |mSet|;
      if nbBlocks == 1 {
        result := [Zeros(n)];
      } else if nbBlocks == n {
        result := [Common.Iota(n)];
      } else {
        a := new nat[n + 1](i => 0);
        for j := 1 to nbBlocks + 1
          invariant a.Length == n + 1 && fresh(a)
          invariant a[0] == 0 && a[1] == 0 && forall i :: 0 <= i < a.Length ==> a[i] < nbBlocks
        {
          a[n - nbBlocks + j] := j - 1;
        }
        var before := partitions;
        F(nbBlocks, n, 0, nbBlocks);
        var visited := partitions[|before|..];
        forall k | 0 <= k < |visited| ensures Legal(visited[k], n + 1, nbBlocks) {
          assert visited[k] == partitions[|before| + k];
        }
        result := [];
        var k := 0;
        while k < |visited|
          invariant 0 <= k <= |visited|
          invariant result == Tails(visited[..k])
        {
          result := result + [visited[k][1..]];
          k := k + 1;
        }
        assert visited[..k] == visited;
        forall q | 0 <= q < |result|
          ensures |result[q]| == n && result[q][0] == 0 && forall i :: 0 <= i < n ==> result[q][i] < nbBlocks
        {
          LegalTail(visited[q], n + 1, nbBlocks);
        }
        partitions := [];
      }
    }
  }
}
