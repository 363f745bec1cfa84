// Occupancy spectra of the urn model (Johnson and Kotz, 1977): when k balls
// (lineages) are thrown into N urns (parents), M_r is the number of urns that
// end up holding r balls.  The spectrum M_0, M_1, ... carries two invariants:
// sum of r * M_r is k and sum of M_r is N.

module Occupancy {

  /** Sum over `r >= i` of `r * M_r`: the balls counted from index `i` on. */
  function BallsFrom(mj: seq<int>, i: nat): int
    decreases |mj| - i
  {
    if i >= |mj| then 0 else i * mj[i] + BallsFrom(mj, i + 1)
  }

  /** Sum over `r >= i` of `M_r`: the urns counted from index `i` on. */
  function UrnsFrom(mj: seq<int>, i: nat): int
    decreases |mj| - i
  {
    if i >= |mj| then 0 else mj[i] + UrnsFrom(mj, i + 1)
  }

  function Balls(mj: seq<int>): int { BallsFrom(mj, 0) }

  function Urns(mj: seq<int>): int { UrnsFrom(mj, 0) }

  predicate NonNegative(mj: seq<int>)
  {
    forall i :: 0 <= i < |mj| ==> mj[i] >= 0
  }

  /** The class invariant of an occupancy spectrum of `k` balls in `n` urns. */
  predicate IsSpectrum(mj: seq<int>, k: int, n: int)
  {
    k >= 0 && n >= 0 && NonNegative(mj) && Balls(mj) == k && Urns(mj) == n
  }

  // ------------------------------------------------------------ arithmetic

  /** Adding one urn of occupancy `j` adds `j` balls and one urn. */
  lemma {:induction false} IncrementFrom(mj: seq<int>, j: nat, i: nat)
    requires i <= j < |mj|
    ensures BallsFrom(mj[j := mj[j] + 1], i) == BallsFrom(mj, i) + j
    ensures UrnsFrom(mj[j := mj[j] + 1], i) == UrnsFrom(mj, i) + 1
    decreases j - i
  {
    var u := mj[j := mj[j] + 1];
    if i == j {
      BallsFromSame(u, mj, i + 1);
      assert j * (mj[j] + 1) == j * mj[j] + j;
    } else {
      IncrementFrom(mj, j, i + 1);
    }
  }

  /** Setting a zero entry `j` to `x` adds `j * x` balls and `x` urns. */
  lemma {:induction false} SetZeroFrom(mj: seq<int>, j: nat, x: int, i: nat)
    requires i <= j < |mj| && mj[j] == 0
    ensures BallsFrom(mj[j := x], i) == BallsFrom(mj, i) + j * x
    ensures UrnsFrom(mj[j := x], i) == UrnsFrom(mj, i) + x
    decreases j - i
  {
    if i == j {
      BallsFromSame(mj[j := x], mj, i + 1);
    } else {
      SetZeroFrom(mj, j, x, i + 1);
    }
  }

  /** The counts from `i` on only read the entries from `i` on. */
  lemma {:induction false} BallsFromSame(a: seq<int>, b: seq<int>, i: nat)
    requires |a| == |b| && forall r :: i <= r < |a| ==> a[r] == b[r]
    ensures BallsFrom(a, i) == BallsFrom(b, i) && UrnsFrom(a, i) == UrnsFrom(b, i)
    decreases |a| - i
  {
    if i < |a| {
      BallsFromSame(a, b, i + 1);
    }
  }

  /** Zero entries contribute nothing, so a tail of zeros can be cut off. */
  lemma {:induction false} ZeroTailFrom(mj: seq<int>, cut: nat, i: nat)
    requires i <= cut <= |mj| && forall r :: cut <= r < |mj| ==> mj[r] == 0
    ensures BallsFrom(mj, i) == BallsFrom(mj[..cut], i)
    ensures UrnsFrom(mj, i) == UrnsFrom(mj[..cut], i)
    decreases |mj| - i
  {
    if i < cut {
      ZeroTailFrom(mj, cut, i + 1);
    } else {
      ZeroesFrom(mj, i);
    }
  }

  lemma {:induction false} ZeroesFrom(mj: seq<int>, i: nat)
    requires forall r :: i <= r < |mj| ==> mj[r] == 0
    ensures BallsFrom(mj, i) == 0 && UrnsFrom(mj, i) == 0
    decreases |mj| - i
  {
    if i < |mj| {
      ZeroesFrom(mj, i + 1);
    }
  }

  /** A vector of `len` zeros: the spectrum the enumeration starts from. */
  function Zeros(len: nat): (r: seq<int>)
    ensures |r| == len && forall i :: 0 <= i < len ==> r[i] == 0
  {
    seq(len, _ => 0)
  }

  // ------------------------------------------------------------ the class

  /** `OccupancySpectrum`: the vector `M_j` with the `k` balls and `N` urns it accounts for. */
  class OccupancySpectrum {
    var mj: seq<int>
    var k: int
    var n: int

    ghost predicate Valid()
      reads this
    {
      IsSpectrum(mj, k, n)
    }

    /**
     * Construction from a vector, `k` and `N` (copy and move versions alike):
     * the constructor asserts both counts non-negative and both conservation
     * laws.  There is no default constructor, so every object starts valid.
     */
    constructor (v: seq<int>, k: int, n: int)
      requires n >= 0 && k >= 0
      requires NonNegative(v) && Balls(v) == k && Urns(v) == n
      ensures this.mj == v && this.k == k && this.n == n
      ensures Valid()
    {
      this.mj := v;
      this.k := k;
      this.n := n;
    }

    /** `test_number_of_balls_conservation`: accumulates `i * M_i` over the vector. */
    method TestNumberOfBallsConservation() returns (b: bool)
      requires NonNegative(mj)
      ensures b <==> Balls(mj) == k
    {
      var sum := 0;
      var i := 0;
      while i < |mj|
        invariant 0 <= i <= |mj|
        invariant sum + BallsFrom(mj, i) == Balls(mj)
      {
        sum := sum + i * mj[i];
        i := i + 1;
      }
      b := sum == k;
    }

    /** `test_number_of_urns_conservation`: accumulates `M_i` over the vector. */
    method TestNumberOfUrnsConservation() returns (b: bool)
      requires NonNegative(mj)
      ensures b <==> Urns(mj) == n
    {
      var sum := 0;
      var i := 0;
      while i < |mj|
        invariant 0 <= i <= |mj|
        invariant sum + UrnsFrom(mj, i) == Urns(mj)
      {
        sum := sum + mj[i];
        i := i + 1;
      }
      b := sum == n;
    }

    /** Copy assignment: `M_j`, `N` and `k` are taken from `other` together. */
    method CopyAssign(other: OccupancySpectrum)
      modifies this
      ensures mj == old(other.mj) && n == old(other.n) && k == old(other.k)
      ensures old(other.Valid()) ==> Valid()
    {
      var copy := other.mj;
      mj := copy;
      n := other.n;
      k := other.k;
    }

    /** Move assignment: the same three fields; the moved-from vector is left empty. */
    method MoveAssign(other: OccupancySpectrum)
      requires other != this
      modifies this, other
      ensures mj == old(other.mj) && n == old(other.n) && k == old(other.k)
      ensures other.mj == [] && other.n == old(other.n) && other.k == old(other.k)
      ensures old(other.Valid()) ==> Valid()
    {
      mj := other.mj;
      other.mj := [];
      n := other.n;
      k := other.k;
    }

    /** `erase(first, last)`: removes exactly the entries in `[first, last)`. */
    method Erase(first: nat, last: nat)
      requires first <= last <= |mj|
      modifies this
      ensures mj == old(mj[..first] + mj[last..])
      ensures k == old(k) && n == old(n)
    {
      mj := mj[..first] + mj[last..];
    }

    /** `empty()`: whether the vector has no entry. */
    method Empty() returns (b: bool)
      ensures b <==> |mj| == 0
    {
      b := mj == [];
    }
  }

  /** Erasing a tail of zero entries keeps the class invariant. */
  lemma EraseZeroTailKeepsSpectrum(mj: seq<int>, k: int, n: int, first: nat)
    requires IsSpectrum(mj, k, n) && first <= |mj|
    requires forall r :: first <= r < |mj| ==> mj[r] == 0
    ensures IsSpectrum(mj[..first] + mj[|mj|..], k, n)
  {
    assert mj[..first] + mj[|mj|..] == mj[..first];
    ZeroTailFrom(mj, first, 0);
  }

  /** `erase` does not re-check the invariant: removing a non-zero entry breaks it. */
  lemma EraseCanBreakSpectrum()
    ensures IsSpectrum([0, 2], 2, 2) && !IsSpectrum([0, 2][..1] + [0, 2][2..], 2, 2)
  {
    assert [0, 2][..1] + [0, 2][2..] == [0];
    assert Balls([0]) == 0;
  }
}
