// The two merger policies a coalescence simulation chooses between: the
// binary merger, which with the Kingman probability merges two of the k
// lineages, and the simultaneous multiple merger, which merges the lineages
// according to an occupancy spectrum drawn for the generation.  Uniform
// draws in [0, 1) and the shuffle's draws stand in for the random generator.

module MergerPolicy {
  import opened Common
  import opened Occupancy
  import opened Merge
  import opened SamplingPolicy

  /** The probability the binary merger hands to `std::bernoulli_distribution`, as written: `k (k - 1) / 2N`. */
  function CoalescenceProbability(k: nat, n: nat): real
    requires n >= 1
  {
    (k as real) * ((k as real) - 1.0) / (2 * n) as real
  }

  /** Three lineages in a population of one pass the asserts, yet the probability is 3. */
  lemma CoalescenceProbabilityExceedsOne()
    ensures CoalescenceProbability(3, 1) == 3.0
    ensures CoalescenceProbability(3, 1) > 1.0
  {
  }

  /** The probability clamped into [0, 1], the domain `std::bernoulli_distribution` requires. */
  function MergeProbability(k: nat, n: nat): (p: real)
    requires n >= 1
    ensures 0.0 <= p <= 1.0
    ensures CoalescenceProbability(k, n) <= 1.0 ==> p == CoalescenceProbability(k, n)
    ensures CoalescenceProbability(k, n) > 1.0 ==> p == 1.0
  {
    var q := CoalescenceProbability(k, n);
    assert 0.0 <= q by {
      if k >= 1 {
        assert (k as real) - 1.0 >= 0.0;
      }
    }
    if q <= 1.0 then q else 1.0
  }

  /** Once the population is too small for the Kingman approximation, the merge is certain. */
  lemma CertainMergeWhenProbabilityTooLarge(k: nat, n: nat, u: real)
    requires n >= 1 && 0.0 <= u < 1.0 && CoalescenceProbability(k, n) > 1.0
    ensures u < MergeProbability(k, n)
  {
  }

  /** Merges `mj` into the representation `merge` reads: one count per number of children. */
  function AsCounts(mj: seq<int>): (sp: seq<nat>)
    requires NonNegative(mj)
    ensures |sp| == |mj| && forall i :: 0 <= i < |mj| ==> sp[i] == mj[i]
  {
    seq(|mj|, i requires 0 <= i < |mj| => mj[i] as nat)
  }

  /** The children the parents of `j` or more children take are the balls counted from `j`; each parent removes all its children but one. */
  lemma {:induction false} SpectrumCountsBridge(mj: seq<int>, j: nat)
    requires NonNegative(mj) && j >= 1
    ensures Consumed(AsCounts(mj), j) == BallsFrom(mj, j)
    ensures MergedAway(AsCounts(mj), j) == BallsFrom(mj, j) - UrnsFrom(mj, j)
    decreases |mj| - j
  {
    var sp := AsCounts(mj);
    if j < |mj| {
      SpectrumCountsBridge(mj, j + 1);
      RepeatedIsProduct(j, sp[j]);
      RepeatedIsProduct(j - 1, sp[j]);
      assert (j - 1) * mj[j] == j * mj[j] - mj[j];
    }
  }

  /** A spectrum of at least one ball has an entry at index 1 or beyond. */
  lemma SpectrumLongEnough(mj: seq<int>, k: int, n: int)
    requires IsSpectrum(mj, k, n) && k >= 1
    ensures |mj| >= 2
  {
    ShortHasNoBalls(mj);
  }

  lemma ShortHasNoBalls(mj: seq<int>)
    ensures |mj| < 2 ==> Balls(mj) == 0
  {
    if |mj| < 2 {
      assert BallsFrom(mj, 1) == 0;
    }
  }

  /** The balls and urns of a spectrum, split into `M_0`, `M_1` and the parents of two or more. */
  lemma SpectrumHead(mj: seq<int>)
    requires |mj| >= 2
    ensures Balls(mj) == mj[1] + BallsFrom(mj, 2)
    ensures Urns(mj) == mj[0] + mj[1] + UrnsFrom(mj, 2)
  {
    assert BallsFrom(mj, 0) == 0 * mj[0] + BallsFrom(mj, 1);
    assert BallsFrom(mj, 1) == 1 * mj[1] + BallsFrom(mj, 2);
    assert UrnsFrom(mj, 0) == mj[0] + UrnsFrom(mj, 1);
    assert UrnsFrom(mj, 1) == mj[1] + UrnsFrom(mj, 2);
  }

  /** `BinaryMerger`: with the Kingman probability, merges two elements of the range. */
  class BinaryMerger {
    /** `merge(first, last, N, init, op, g)`: `u` is the uniform draw the Bernoulli trial compares to its probability. */
    static method Merge<T>(a: array<T>, first: nat, last: nat, n: nat, init: T, op: (T, T) -> T,
                           u: real, draws: seq<nat>)
      returns (newLast: nat)
      requires n >= 1 && first <= last <= a.Length && last - first > 1
      modifies a
      ensures u < MergeProbability(last - first, n) ==>
                newLast == last - 1 &&
                a[..] == BinaryMerged(ShuffledRange(old(a[..]), first, last, draws), first, last, init, op)
      ensures !(u < MergeProbability(last - first, n)) ==> newLast == last && a[..] == old(a[..])
    {
      var p := MergeProbability(last - first, n);
      newLast := last;
      if u < p {
        newLast := BinaryMerge(a, first, last, init, op, draws);
      }
    }

    /** `merge(first, last, N, g)`: `T()` is 0 and the operation `+`, so the range keeps its total. */
    static method MergeSum(a: array<int>, first: nat, last: nat, n: nat, u: real, draws: seq<nat>)
      returns (newLast: nat)
      requires n >= 1 && first <= last <= a.Length && last - first > 1
      modifies a
      ensures newLast == (if u < MergeProbability(last - first, n) then last - 1 else last)
      ensures first < newLast && Sum(a[first..newLast]) == Sum(old(a[first..last]))
      ensures a[..first] == old(a[..first]) && a[last..] == old(a[last..])
    {
      var p := MergeProbability(last - first, n);
      newLast := last;
      if u < p {
        newLast := BinaryMergeSum(a, first, last, draws);
      }
    }
  }

  /** `SimultaneousMultipleMerger`: merges the range according to an occupancy spectrum of its `k` elements in `N` parents. */
  class SimultaneousMultipleMerger {
    /**
     * `merge(first, last, N, init, op, g)`, where `mj` is the spectrum the
     * sampling policy draws for `k = last - first` and `N`.  What remains is
     * one element per occupied parent.
     */
    static method Merge<T>(a: array<T>, first: nat, last: nat, n: nat, init: T, op: (T, T) -> T,
                           mj: seq<int>, draws: seq<nat>)
      returns (newLast: nat)
      requires n >= 1 && first <= last <= a.Length && last - first > 1
      requires IsSpectrum(mj, last - first, n)
      modifies a
      ensures first + Consumed(AsCounts(mj), 2) <= last
      ensures first <= newLast <= last && newLast - first == Urns(mj) - mj[0]
      ensures a[..] == MergeSpectrum(ShuffledRange(old(a[..]), first, last, draws), first, last, init, op, AsCounts(mj), 2)
    {
      SpectrumLongEnough(mj, last - first, n);
      SpectrumCountsBridge(mj, 2);
      SpectrumHead(mj);
      MergedAwayBelowConsumed(AsCounts(mj), 2);
      newLast := SimultaneousMultipleMerge(a, first, last, init, AsCounts(mj), op, draws);
    }

    /** `merge(first, last, N, g)`: with 0 and `+`, the survivors carry the range's total. */
    static method MergeSum(a: array<int>, first: nat, last: nat, n: nat, mj: seq<int>, draws: seq<nat>)
      returns (newLast: nat)
      requires n >= 1 && first <= last <= a.Length && last - first > 1
      requires IsSpectrum(mj, last - first, n)
      modifies a
      ensures first <= newLast <= last && newLast - first == Urns(mj) - mj[0]
      ensures Sum(a[first..newLast]) == Sum(old(a[first..last]))
      ensures a[..first] == old(a[..first]) && a[last..] == old(a[last..])
    {
      SpectrumLongEnough(mj, last - first, n);
      SpectrumCountsBridge(mj, 2);
      SpectrumHead(mj);
      MergedAwayBelowConsumed(AsCounts(mj), 2);
      newLast := SimultaneousMultipleMergeSum(a, first, last, AsCounts(mj), draws);
    }

    /** The merger with the `on_the_fly` sampling policy: `ballDraws` place the `k` lineages among the `N` parents. */
    static method MergeOnTheFly<T>(a: array<T>, first: nat, last: nat, n: nat, init: T, op: (T, T) -> T,
                                   ballDraws: seq<int>, draws: seq<nat>)
      returns (newLast: nat)
      requires n >= 1 && first <= last <= a.Length && last - first > 1
      requires |ballDraws| == last - first && forall i :: 0 <= i < |ballDraws| ==> 0 <= ballDraws[i] < n
      modifies a
      ensures first < newLast <= last
      ensures newLast - first == |Occupied(ballDraws, n)| && newLast - first <= n
    {
      var mj := Occupancies(last - first, n, ballDraws);
      newLast := Merge(a, first, last, n, init, op, mj, draws);
      OccupiedUrns(ballDraws, n, mj);
      OccupiedBounds(mj, last - first, n);
    }

    /** The same merger with 0 and `+`: the survivors carry the range's total. */
    static method MergeSumOnTheFly(a: array<int>, first: nat, last: nat, n: nat, ballDraws: seq<int>, draws: seq<nat>)
      returns (newLast: nat)
      requires n >= 1 && first <= last <= a.Length && last - first > 1
      requires |ballDraws| == last - first && forall i :: 0 <= i < |ballDraws| ==> 0 <= ballDraws[i] < n
      modifies a
      ensures first < newLast <= last && newLast - first == |Occupied(ballDraws, n)| && newLast - first <= n
      ensures Sum(a[first..newLast]) == Sum(old(a[first..last]))
      ensures a[..first] == old(a[..first]) && a[last..] == old(a[last..])
    {
      var mj := Occupancies(last - first, n, ballDraws);
      newLast := MergeSum(a, first, last, n, mj, draws);
      OccupiedUrns(ballDraws, n, mj);
      OccupiedBounds(mj, last - first, n);
    }
  }

  /** At least one parent and at most `N` of them are occupied by one or more balls. */
  lemma OccupiedBounds(mj: seq<int>, k: int, n: int)
    requires IsSpectrum(mj, k, n) && k >= 1
    ensures 1 <= Urns(mj) - mj[0] <= n
  {
    SpectrumLongEnough(mj, k, n);
    assert Balls(mj) == 0 * mj[0] + BallsFrom(mj, 1);
    assert Urns(mj) == mj[0] + UrnsFrom(mj, 1);
    BallsNeedUrns(mj, 1);
  }

  /** Balls from index `i` on need an urn from index `i` on. */
  lemma {:induction false} BallsNeedUrns(mj: seq<int>, i: nat)
    requires NonNegative(mj)
    ensures UrnsFrom(mj, i) >= 0
    ensures BallsFrom(mj, i) > 0 ==> UrnsFrom(mj, i) > 0
    decreases |mj| - i
  {
    if i < |mj| {
      BallsNeedUrns(mj, i + 1);
    }
  }

  /** The urns that receive at least one of the balls `draws`. */
  function Occupied(draws: seq<int>, n: nat): set<int>
  {
    set u: int | 0 <= u < n && Count(draws, u) > 0
  }

  /** The urns of the experiment that receive a ball are the urns of the spectrum other than `M_0`. */
  lemma OccupiedUrns(ballDraws: seq<int>, n: nat, mj: seq<int>)
    requires n >= 1 && forall i :: 0 <= i < |ballDraws| ==> 0 <= ballDraws[i] < n
    requires |mj| == |ballDraws| + 1 && forall r :: 0 <= r < |mj| ==> mj[r] == Count(Loads(ballDraws, n), r)
    requires IsSpectrum(mj, |ballDraws|, n)
    ensures Urns(mj) - mj[0] == |Occupied(ballDraws, n)|
  {
    var loads := Loads(ballDraws, n);
    assert Urns(mj) == n;
    UrnsSplit(loads, n);
    assert mj[0] == Count(loads, 0);
    assert (set u: int | 0 <= u < n && loads[u] > 0) == Occupied(ballDraws, n);
  }

  /** Of `n` urns, `Count(loads, 0)` are empty and the others are occupied. */
  lemma UrnsSplit(loads: seq<int>, n: nat)
    requires |loads| == n && forall u :: 0 <= u < n ==> loads[u] >= 0
    ensures n - Count(loads, 0) == |set u: int | 0 <= u < n && loads[u] > 0|
  {
    OccupiedPrefix(loads, n);
    assert loads[..n] == loads;
  }

  lemma {:induction false} OccupiedPrefix(loads: seq<int>, m: nat)
    requires m <= |loads| && forall u :: 0 <= u < |loads| ==> loads[u] >= 0
    ensures m - Count(loads[..m], 0) == |set u: int | 0 <= u < m && loads[u] > 0|
    decreases m
  {
    if m > 0 {
      OccupiedPrefix(loads, m - 1);
      assert loads[..m] == loads[..m - 1] + [loads[m - 1]];
      CountConcat(loads[..m - 1], [loads[m - 1]], 0);
      var below := set u: int | 0 <= u < m - 1 && loads[u] > 0;
      if loads[m - 1] > 0 {
        assert (set u: int | 0 <= u < m && loads[u] > 0) == below + {m - 1};
      } else {
        assert (set u: int | 0 <= u < m && loads[u] > 0) == below;
      }
    }
  }
}
