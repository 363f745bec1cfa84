// The constrained sampling scheme: sampling points are drawn from a space with
// probabilities proportional to a weight, and a point is only accepted while
// its intensity stays below its population size.  The discrete distribution's
// draws are an explicit input, one space index per try.

module SamplingScheme {
  import opened Common
  import MutationKernels

  /** `10 * sampling_size()` computed in 32-bit unsigned arithmetic. */
  function MaxTries(n: nat): (r: nat)
    ensures r < 0x1_0000_0000
    ensures n < 0x1999_999A ==> r == 10 * n
  {
    (10 * n) % 0x1_0000_0000
  }

  function Get<X>(m: map<X, nat>, x: X): nat
  {
    if x in m then m[x] else 0
  }

  /** Where the sampling loop stands: the sample so far, the successes `i` and the tries `nb_try`. */
  datatype Draw<X> = Draw(sample: map<X, nat>, successes: nat, tries: nat)

  /**
   * The sampling loop from try `tries` on.  `lookupInserts` says whether a
   * rejected point is still entered in the sample: `std::map::operator[]`
   * inserts a zero intensity when it reads an absent key.
   */
  function Loop<X>(space: seq<X>, pop: X -> nat, n: nat, limit: nat, draws: seq<nat>,
                   st: Draw<X>, lookupInserts: bool): (r: Draw<X>)
    requires MutationKernels.AllBelow(draws, |space|) && limit <= |draws| && st.tries <= limit
    ensures st.tries <= r.tries <= limit && st.successes <= r.successes
    decreases limit - st.tries
  {
    if st.successes < n && st.tries < limit then
      Loop(space, pop, n, limit, draws, TryOnce(pop, st, space[draws[st.tries]], lookupInserts), lookupInserts)
    else st
  }

  /** One try on the drawn point `x`: accepted while its intensity is below its population size. */
  function TryOnce<X>(pop: X -> nat, st: Draw<X>, x: X, lookupInserts: bool): (r: Draw<X>)
    ensures r.tries == st.tries + 1 && st.successes <= r.successes <= st.successes + 1
  {
    var have := Get(st.sample, x);
    if have < pop(x) then Draw(st.sample[x := have + 1], st.successes + 1, st.tries + 1)
    else Draw(if lookupInserts then st.sample[x := have] else st.sample, st.successes, st.tries + 1)
  }

  /** A try keeps the intensities within the population sizes and summing to the successes. */
  lemma TryOnceKeeps<X>(space: seq<X>, pop: X -> nat, n: nat, st: Draw<X>, x: X, lookupInserts: bool)
    requires Within(space, pop, n, st) && MapTotal(st.sample) == st.successes && st.successes < n && x in space
    ensures var r := TryOnce(pop, st, x, lookupInserts);
            Within(space, pop, n, r) && MapTotal(r.sample) == r.successes &&
            (!lookupInserts && Positive(st.sample) ==> Positive(r.sample))
  {
    var have := Get(st.sample, x);
    if have < pop(x) {
      MapTotalUpdate(st.sample, x, have + 1);
    } else {
      MapTotalUpdate(st.sample, x, have);
    }
  }

  /** The guard after the loop: an empty sample is a `logic_error`. */
  function Finish<X>(sample: map<X, nat>): (r: Result<map<X, nat>>)
    ensures r.Failure? <==> sample == map[]
    ensures r.Failure? ==> r.error == LogicError
    ensures r.Success? ==> r.value == sample
  {
    if sample == map[] then Failure(LogicError) else Success(sample)
  }

  /**
   * What `operator()` returns as written, zero intensities of rejected points
   * included: the first try always enters its point, so the `logic_error` is
   * raised only when no try is made at all.
   */
  function SampleAsWritten<X>(space: seq<X>, pop: X -> nat, n: nat, draws: seq<nat>): (r: Result<map<X, nat>>)
    requires MutationKernels.AllBelow(draws, |space|) && MaxTries(n) <= |draws|
    ensures r.Failure? <==> n == 0 || MaxTries(n) == 0
    ensures r.Failure? ==> r.error == LogicError
    ensures r.Success? ==> MapTotal(r.value) <= n && forall x :: x in r.value ==> x in space && r.value[x] <= pop(x)
  {
    var st0 := Draw(map[], 0, 0);
    LoopKeeps(space, pop, n, MaxTries(n), draws, st0, true);
    LoopKeysGrow(space, pop, n, MaxTries(n), draws, st0, true);
    Finish(Loop(space, pop, n, MaxTries(n), draws, st0, true).sample)
  }

  /**
   * The sampling outcome with the lookup that does not insert: a `logic_error`
   * exactly when no point could be accepted; otherwise at most `n` points in
   * total, all from the space and none above its population size.
   */
  function SampleOf<X>(space: seq<X>, pop: X -> nat, n: nat, draws: seq<nat>): (r: Result<map<X, nat>>)
    requires MutationKernels.AllBelow(draws, |space|) && MaxTries(n) <= |draws|
    ensures var st := Loop(space, pop, n, MaxTries(n), draws, Draw(map[], 0, 0), false);
            (r.Failure? <==> st.successes == 0) &&
            (r.Success? ==> MapTotal(r.value) == st.successes <= n &&
                            forall x :: x in r.value ==> x in space && 0 < r.value[x] <= pop(x))
    ensures r.Failure? ==> r.error == LogicError
  {
    var st0 := Draw(map[], 0, 0);
    var st := Loop(space, pop, n, MaxTries(n), draws, st0, false);
    LoopKeeps(space, pop, n, MaxTries(n), draws, st0, false);
    EmptyIffNoSuccess(st.sample);
    Finish(st.sample)
  }

  /** What the loop keeps true: intensities within the population sizes, summing to the successes. */
  predicate Within<X>(space: seq<X>, pop: X -> nat, n: nat, st: Draw<X>)
  {
    st.successes <= n &&
    (forall x :: x in st.sample ==> x in space && st.sample[x] <= pop(x))
  }

  /** Every stored intensity is positive. */
  predicate Positive<X>(m: map<X, nat>)
  {
    forall x :: x in m ==> m[x] > 0
  }

  /**
   * The loop never gives a point more than its population size, never makes
   * more than `n` successes or more than `limit` tries, and the intensities add
   * up to the number of successes; without insertion on lookup every stored
   * intensity is positive.
   */
  lemma {:induction false} LoopKeeps<X>(space: seq<X>, pop: X -> nat, n: nat, limit: nat, draws: seq<nat>,
                                        st: Draw<X>, lookupInserts: bool)
    requires MutationKernels.AllBelow(draws, |space|) && limit <= |draws| && st.tries <= limit
    requires Within(space, pop, n, st) && MapTotal(st.sample) == st.successes
    ensures var r := Loop(space, pop, n, limit, draws, st, lookupInserts);
            Within(space, pop, n, r) && MapTotal(r.sample) == r.successes &&
            r.tries <= limit && (r.successes == n || r.tries == limit) &&
            (!lookupInserts && Positive(st.sample) ==> Positive(r.sample))
    decreases limit - st.tries
  {
    if st.successes < n && st.tries < limit {
      TryOnceKeeps(space, pop, n, st, space[draws[st.tries]], lookupInserts);
      LoopKeeps(space, pop, n, limit, draws, TryOnce(pop, st, space[draws[st.tries]], lookupInserts), lookupInserts);
    }
  }

  /** With positive intensities, the sample is empty exactly when no try succeeded. */
  lemma EmptyIffNoSuccess<X>(m: map<X, nat>)
    requires Positive(m)
    ensures m == map[] <==> MapTotal(m) == 0
  {
    if m != map[] {
      var x :| x in m;
      MapTotalRemove(m, x);
    }
  }

  /** The loop never removes a point, and with insertion on lookup the next drawn point is entered. */
  lemma {:induction false} LoopKeysGrow<X>(space: seq<X>, pop: X -> nat, n: nat, limit: nat, draws: seq<nat>,
                                           st: Draw<X>, lookupInserts: bool)
    requires MutationKernels.AllBelow(draws, |space|) && limit <= |draws| && st.tries <= limit
    ensures var r := Loop(space, pop, n, limit, draws, st, lookupInserts);
            st.sample.Keys <= r.sample.Keys &&
            (lookupInserts && st.successes < n && st.tries < limit ==> space[draws[st.tries]] in r.sample)
    decreases limit - st.tries
  {
    if st.successes < n && st.tries < limit {
      LoopKeysGrow(space, pop, n, limit, draws, TryOnce(pop, st, space[draws[st.tries]], lookupInserts), lookupInserts);
    }
  }

  /** Where every population size is 0 nothing is accepted, yet with insertion every drawn point is entered. */
  lemma {:induction false} NothingAccepted<X>(space: seq<X>, pop: X -> nat, n: nat, limit: nat, draws: seq<nat>,
                                              st: Draw<X>, lookupInserts: bool)
    requires MutationKernels.AllBelow(draws, |space|) && limit <= |draws| && st.tries <= limit
    requires forall x :: x in space ==> pop(x) == 0
    requires st.successes == 0
    ensures var r := Loop(space, pop, n, limit, draws, st, lookupInserts);
            r.successes == 0 && st.sample.Keys <= r.sample.Keys &&
            (lookupInserts && 0 < n && st.tries < limit ==> space[draws[st.tries]] in r.sample)
    decreases limit - st.tries
  {
    if st.successes < n && st.tries < limit {
      var x := space[draws[st.tries]];
      var have := Get(st.sample, x);
      var next := if lookupInserts then st.sample[x := have] else st.sample;
      NothingAccepted(space, pop, n, limit, draws, Draw(next, 0, st.tries + 1), lookupInserts);
    }
  }

  /**
   * As written, a point whose population size is 0 is entered with intensity
   * 0, so a sample in which nothing was accepted is returned instead of
   * raising the `logic_error`.
   */
  lemma ZeroIntensityEscapesCheck()
    ensures SampleAsWritten(['x'], (_: char) => 0, 1, [0, 0, 0, 0, 0, 0, 0, 0, 0, 0]) == Success(map['x' := 0])
    ensures SampleOf(['x'], (_: char) => 0, 1, [0, 0, 0, 0, 0, 0, 0, 0, 0, 0]).Failure?
  {
    var space, pop, draws := ['x'], (_: char) => 0, [0, 0, 0, 0, 0, 0, 0, 0, 0, 0];
    assert MaxTries(1) == 10;
    var st0: Draw<char> := Draw(map[], 0, 0);
    var w := Loop(space, pop, 1, 10, draws, st0, true);
    LoopKeeps(space, pop, 1, 10, draws, st0, true);
    NothingAccepted(space, pop, 1, 10, draws, st0, true);
    assert w.sample == map['x' := 0];
    NothingAccepted(space, pop, 1, 10, draws, st0, false);
  }

  /** `constrained_sampling`: the space, one weight per point, the population sizes and the sampling size. */
  class ConstrainedSampling<X(==)> {
    const space: seq<X>
    const weights: seq<real>
    const popSize: X -> nat
    var size: nat

    /** Computes `f` at every point of the space, and asserts a positive sampling size. */
    constructor (space: seq<X>, f: X -> real, popSize: X -> nat, n: nat)
      requires n > 0
      ensures this.space == space && this.popSize == popSize && size == n
      ensures |weights| == |space| && forall i :: 0 <= i < |space| ==> weights[i] == f(space[i])
    {
      this.space := space;
      this.weights := seq(|space|, i requires 0 <= i < |space| => f(space[i]));
      this.popSize := popSize;
      this.size := n;
    }

    /** `param()`: a copy of the parameter. */
    method Param() returns (p: MutationKernels.ParamBase)
      ensures fresh(p) && p.n == size
    {
      p := new MutationKernels.ParamBase(size);
    }

    /** `param(n)`: replaces the parameter. */
    method SetParam(n: nat)
      modifies this
      ensures size == n
    {
      size := n;
    }

    /**
     * `operator()(gen)`: tries until `n` points are accepted or `10 n` draws
     * are spent, accepting a point only below its population size.
     */
    method Sample(draws: seq<nat>) returns (r: Result<map<X, nat>>)
      requires MutationKernels.AllBelow(draws, |space|) && MaxTries(size) <= |draws|
      ensures r == SampleOf(space, popSize, size, draws)
    {
      var limit := MaxTries(size);
      var sample: map<X, nat> := map[];
      var i := 0;
      var nbTry := 0;
      while i < size && nbTry < limit
        invariant nbTry <= limit
        invariant Loop(space, popSize, size, limit, draws, Draw(sample, i, nbTry), false)
                  == Loop(space, popSize, size, limit, draws, Draw(map[], 0, 0), false)
        decreases limit - nbTry
      {
        var x := space[draws[nbTry]];
        var have := Get(sample, x);
        if have < popSize(x) {
          sample := sample[x := have + 1];
          i := i + 1;
        }
        nbTry := nbTry + 1;
      }
      if sample == map[] {
        r := Failure(LogicError);
      } else {
        r := Success(sample);
      }
    }
  }

  /** `make_constrained_sampler`: a `logic_error` on an empty space, otherwise the sampler. */
  method MakeConstrainedSampler<X(==)>(space: seq<X>, f: X -> real, popSize: X -> nat, n: nat)
      returns (r: Result<ConstrainedSampling<X>>)
    requires space != [] ==> n > 0
    ensures r.Failure? <==> space == []
    ensures r.Failure? ==> r.error == LogicError
    ensures r.Success? ==> fresh(r.value) && r.value.space == space && r.value.popSize == popSize && r.value.size == n
    ensures r.Success? ==> |r.value.weights| == |space| && forall i :: 0 <= i < |space| ==> r.value.weights[i] == f(space[i])
  {
    if space == [] {
      return Failure(LogicError);
    }
    var s := new ConstrainedSampling(space, f, popSize, n);
    r := Success(s);
  }

  /** `make_unif_constrained_sampler`: the same with every weight 1. */
  method MakeUnifConstrainedSampler<X(==)>(space: seq<X>, popSize: X -> nat, n: nat)
      returns (r: Result<ConstrainedSampling<X>>)
    requires space != [] ==> n > 0
    ensures r.Failure? <==> space == []
    ensures r.Failure? ==> r.error == LogicError
    ensures r.Success? ==> fresh(r.value) && r.value.space == space && r.value.popSize == popSize && r.value.size == n
    ensures r.Success? ==> |r.value.weights| == |space| && forall i :: 0 <= i < |space| ==> r.value.weights[i] == 1.0
  {
    r := MakeConstrainedSampler(space, (_: X) => 1.0, popSize, n);
  }
}
