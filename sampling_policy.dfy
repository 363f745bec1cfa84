// The two ways of drawing the occupancy spectrum of one generation: from the
// memoized distribution of all spectra, or by throwing the balls at the urns.
// The random number generator is replaced by its draws.

module SamplingPolicy {
  import opened Common
  import opened Occupancy
  import opened SpectrumDistribution

  /** The load of each of the `n` urns once the balls fall in the urns `draws`. */
  function Loads(draws: seq<int>, n: nat): (r: seq<int>)
    ensures |r| == n && forall u :: 0 <= u < n ==> r[u] == Count(draws, u)
  {
    seq(n, u => Count(draws, u))
  }

  /** One more ball in urn `d` adds one to that urn's load and to no other. */
  lemma LoadsSnoc(draws: seq<int>, d: int, n: nat)
    requires 0 <= d < n
    ensures Loads(draws + [d], n) == Loads(draws, n)[d := Loads(draws, n)[d] + 1]
  {
    forall u | 0 <= u < n
      ensures Count(draws + [d], u) == Count(draws, u) + (if u == d then 1 else 0)
    {
      CountConcat(draws, [d], u);
    }
  }

  /** Raising one entry by one raises the sum by one. */
  lemma SumIncrement(s: seq<int>, j: nat)
    requires j < |s|
    ensures Sum(s[j := s[j] + 1]) == Sum(s) + 1
  {
    var t := s[j := s[j] + 1];
    RemoveAtSum(s, j);
    RemoveAtSum(t, j);
    assert t[..j] + t[j + 1..] == s[..j] + s[j + 1..];
  }

  /** Every ball lands in some urn: the loads add up to the number of balls. */
  lemma {:induction false} LoadsSum(draws: seq<int>, n: nat)
    requires forall i :: 0 <= i < |draws| ==> 0 <= draws[i] < n
    ensures Sum(Loads(draws, n)) == |draws|
    decreases |draws|
  {
    if |draws| == 0 {
      ZeroSum(Loads(draws, n));
    } else {
      var front := draws[..|draws| - 1];
      var d := draws[|draws| - 1];
      assert draws == front + [d];
      LoadsSum(front, n);
      LoadsSnoc(front, d, n);
      SumIncrement(Loads(front, n), d);
    }
  }

  lemma {:induction false} ZeroSum(s: seq<int>)
    requires forall i :: 0 <= i < |s| ==> s[i] == 0
    ensures Sum(s) == 0
    decreases |s|
  {
    if |s| > 0 {
      ZeroSum(s[1..]);
    }
  }

  /** No urn holds more balls than were thrown. */
  lemma {:induction false} CountBound(s: seq<int>, x: int)
    ensures Count(s, x) <= |s|
  {
    CountIsMultiplicity(s, x);
    assert |multiset(s)| == |s|;
    MultiplicityBound(multiset(s), x);
  }

  lemma MultiplicityBound(m: multiset<int>, x: int)
    ensures m[x] <= |m|
  {
    var rest := m - multiset{x};
    if x in m {
      assert m == rest + multiset{x};
    }
    assert m == rest + (m - rest);
  }

  /**
   * `on_the_fly::sample` without its final construction: throws ball `i` into
   * urn `draws[i - 1]` for `i = 1, ..., k`, then counts for each occupancy how
   * many urns have it.
   */
  method Occupancies(k: int, n: int, draws: seq<int>) returns (mj: seq<int>)
    requires k > 0 && n > 0
    requires |draws| == k && forall i :: 0 <= i < |draws| ==> 0 <= draws[i] < n
    ensures |mj| == k + 1
    ensures forall r :: 0 <= r <= k ==> mj[r] == Count(Loads(draws, n), r)
    ensures IsSpectrum(mj, k, n)
  {
    var parents := new int[n](_ => 0);
    assert parents[..] == Loads(draws[..0], n);
    var i := 1;
    while i <= k
      invariant 1 <= i <= k + 1
      invariant parents[..] == Loads(draws[..i - 1], n)
    {
      var d := draws[i - 1];
      LoadsSnoc(draws[..i - 1], d, n);
      assert draws[..i] == draws[..i - 1] + [d];
      parents[d] := parents[d] + 1;
      i := i + 1;
    }
    assert draws[..k] == draws;
    LoadsSum(draws, n);
    var occupancy := new int[k + 1](_ => 0);
    ZeroesFrom(occupancy[..], 0);
    var u := 0;
    while u < n
      invariant 0 <= u <= n
      invariant parents[..] == Loads(draws, n)
      invariant forall r :: 0 <= r <= k ==> occupancy[r] == Count(parents[..u], r)
      invariant NonNegative(occupancy[..])
      invariant Balls(occupancy[..]) == Sum(parents[..u]) && Urns(occupancy[..]) == u
    {
      var load := parents[u];
      CountBound(draws, u);
      ghost var before := occupancy[..];
      occupancy[load] := occupancy[load] + 1;
      assert occupancy[..] == before[load := before[load] + 1];
      IncrementFrom(before, load, 0);
      assert parents[..u + 1] == parents[..u] + [load];
      forall r | 0 <= r <= k
        ensures occupancy[r] == Count(parents[..u + 1], r)
      {
        CountConcat(parents[..u], [load], r);
      }
      SumConcat(parents[..u], [load]);
      u := u + 1;
    }
    assert parents[..n] == parents[..];
    mj := occupancy[..];
  }

  /** `on_the_fly::sample`: the spectrum built from the draws, as a valid `OccupancySpectrum`. */
  method OnTheFly(k: int, n: int, draws: seq<int>) returns (spectrum: OccupancySpectrum)
    requires k > 0 && n > 0
    requires |draws| == k && forall i :: 0 <= i < |draws| ==> 0 <= draws[i] < n
    ensures spectrum.k == k && spectrum.n == n && |spectrum.mj| == k + 1
    ensures forall r :: 0 <= r <= k ==> spectrum.mj[r] == Count(Loads(draws, n), r)
    ensures spectrum.Valid()
  {
    var mj := Occupancies(k, n, draws);
    spectrum := new OccupancySpectrum(mj, k, n);
  }

  /**
   * `in_memoized_distribution::sample`: the spectrum of the memoized
   * distribution of `k` and `n` at the index drawn.  It is a spectrum of `k`
   * balls in `n` urns.
   */
  method InMemoized(k: int, n: int, dist: OccupancySpectrumDistribution, choice: nat) returns (mj: seq<int>)
    requires k > 0 && n > 0
    requires dist.k == k && dist.n == n && dist.Valid() && choice < |dist.support|
    ensures mj == dist.support[choice]
    ensures IsSpectrum(mj, k, n)
  {
    mj := dist.Sample(choice);
    SupportAreSpectra(dist.k, dist.n, dist.keep, dist.editor, dist.probability);
    assert mj in dist.support;
  }
}
