// Transition kernels: for each departure state (and, in the timed variant,
// each departure time) a probability distribution on the arrival state.  A
// distribution is an opaque value; the state it yields when sampled with the
// caller's generator is given by a `draw` function.

module TransitionKernels {

  /** `TransitionKernel<Distribution>`: one distribution per departure state. */
  class TransitionKernel<S(==), D> {
    var distributions: map<S, D>

    /** The default constructor: no state has a distribution. */
    constructor ()
      ensures distributions == map[]
    {
      distributions := map[];
    }

    /** `TransitionKernel(x, d)`: `x` alone has a distribution, `d`. */
    constructor Of(x: S, d: D)
      ensures distributions == map[x := d]
      ensures HasDistribution(x)
    {
      distributions := map[x := d];
    }

    /** `set(x, d)`: gives `x` the distribution `d`, the others keeping theirs. */
    method Set(x: S, d: D)
      modifies this
      ensures distributions == old(distributions)[x := d]
      ensures HasDistribution(x) && forall y :: y != x ==> (HasDistribution(y) <==> y in old(distributions))
    {
      distributions := distributions[x := d];
    }

    /** `has_distribution(x)`. */
    predicate HasDistribution(x: S)
      reads this
      ensures HasDistribution(x) <==> distributions - {x} != distributions
    {
      x in distributions
    }

    /** `operator()(g, x)`: asserts `x` has a distribution and samples it. */
    method Sample(draw: D -> S, x: S) returns (y: S)
      requires HasDistribution(x)
      ensures y == draw(distributions[x])
    {
      y := draw(distributions[x]);
    }
  }

  /** Whether layer `t` exists and gives `x` a distribution. */
  predicate Has<S, T, D>(m: map<T, map<S, D>>, x: S, t: T)
  {
    t in m && x in m[t]
  }

  /** `m_kernels[t] = InsiderType(x, d)`: the whole layer at `t` becomes the one-state kernel. */
  function ReplaceLayer<S(==), T(==), D>(m: map<T, map<S, D>>, x: S, t: T, d: D): map<T, map<S, D>>
  {
    m[t := map[x := d]]
  }

  /** The documented `set(x, t, d)`: `x` gets `d` at `t` and the rest of the layer stays. */
  function InsertInLayer<S(==), T(==), D>(m: map<T, map<S, D>>, x: S, t: T, d: D): map<T, map<S, D>>
  {
    m[t := (if t in m then m[t] else map[])[x := d]]
  }

  /** As written, after `set(x, t, d)` no other state has a distribution at `t`; other times keep theirs. */
  lemma ReplaceLayerMeaning<S, T, D>(m: map<T, map<S, D>>, x: S, t: T, d: D)
    ensures forall y :: Has(ReplaceLayer(m, x, t, d), y, t) <==> y == x
    ensures forall y, u :: u != t ==> (Has(ReplaceLayer(m, x, t, d), y, u) <==> Has(m, y, u))
  {
  }

  /** The documented update adds `(x, t)` and keeps every other defined pair with its distribution. */
  lemma InsertInLayerMeaning<S, T, D>(m: map<T, map<S, D>>, x: S, t: T, d: D)
    ensures forall y, u :: Has(InsertInLayer(m, x, t, d), y, u) <==> Has(m, y, u) || (y == x && u == t)
    ensures InsertInLayer(m, x, t, d)[t][x] == d
    ensures forall y, u :: Has(m, y, u) && (y != x || u != t) ==> InsertInLayer(m, x, t, d)[u][y] == m[u][y]
  {
  }

  /** Two successive calls to `set` at the same time, as written: the first state loses its distribution. */
  lemma SetForgetsEarlierState<D>(d1: D, d2: D)
    ensures Has(ReplaceLayer<int, int, D>(map[], 0, 2017, d1), 0, 2017)
    ensures !Has(ReplaceLayer(ReplaceLayer<int, int, D>(map[], 0, 2017, d1), 1, 2017, d2), 0, 2017)
    ensures Has(InsertInLayer(InsertInLayer<int, int, D>(map[], 0, 2017, d1), 1, 2017, d2), 0, 2017)
  {
    ReplaceLayerMeaning(ReplaceLayer<int, int, D>(map[], 0, 2017, d1), 1, 2017, d2);
    InsertInLayerMeaning(InsertInLayer<int, int, D>(map[], 0, 2017, d1), 1, 2017, d2);
  }

  /** `TransitionKernel<Time, Distribution>`: one single-time kernel per departure time. */
  class TimedTransitionKernel<S(==), T(==), D> {
    var kernels: map<T, map<S, D>>

    /** The default constructor. */
    constructor ()
      ensures kernels == map[]
    {
      kernels := map[];
    }

    /** `TransitionKernel(x, t, d)`: `(x, t)` alone has a distribution. */
    constructor Of(x: S, t: T, d: D)
      ensures kernels == map[t := map[x := d]]
      ensures HasDistribution(x, t)
    {
      kernels := map[t := map[x := d]];
    }

    /** `set(x, t, d)` as written: replaces the whole layer at `t` by the kernel of `x` alone. */
    method SetAsWritten(x: S, t: T, d: D)
      modifies this
      ensures kernels == ReplaceLayer(old(kernels), x, t, d)
    {
      kernels := kernels[t := map[x := d]];
    }

    /** `set(x, t, d)` as documented: gives `x` the distribution `d` at `t`, every other pair unchanged. */
    method Set(x: S, t: T, d: D)
      modifies this
      ensures kernels == InsertInLayer(old(kernels), x, t, d)
      ensures HasDistribution(x, t)
    {
      var layer := if t in kernels then kernels[t] else map[];
      kernels := kernels[t := layer[x := d]];
    }

    /** `has_distribution(x, t)`: layer `t` exists and gives `x` a distribution. */
    predicate HasDistribution(x: S, t: T)
      reads this
      ensures HasDistribution(x, t) <==> t in kernels && kernels[t] - {x} != kernels[t]
      ensures kernels == map[] ==> !HasDistribution(x, t)
    {
      t in kernels && x in kernels[t]
    }

    /** `operator()(g, x, t)`: asserts the pair has a distribution, then samples it. */
    method Sample(draw: D -> S, x: S, t: T) returns (y: S)
      requires HasDistribution(x, t)
      ensures y == draw(kernels[t][x])
    {
      y := draw(kernels[t][x]);
    }
  }
}
