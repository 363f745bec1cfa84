// The backward part of the forward-backward spatially explicit simulator:
// the sample checks, the consistency check against the simulated history,
// the backward migration of the lineages and the coalescence of the
// lineages found in the same deme, generation after generation back to the
// introduction time.  The generator and the merger are inputs:
// `draw(t, i, d)` is the deme the generator picks from the backward
// distribution `d` for the `i`-th lineage migrated at `t`, and
// `merge(x, t, n, v)` is the range of survivors the merger leaves when it
// merges the trees `v` found in `x` at `t`, where the population size is `n`.

module ForwardBackward {
  import opened Common
  import opened Flows
  import opened PopulationSizes
  import opened Forests
  import opened Histories

  /** `test_sample_consistency`: a `logic_error` for an empty sample, or for a single deme holding fewer than two copies. */
  function TestSampleConsistency<X>(sample: map<X, nat>): (r: Outcome)
    ensures r.Pass? || r == Fail(LogicError)
    ensures r.Pass? ==> |sample| >= 1
    ensures |sample| == 1 ==> (r.Pass? <==> MapTotal(sample) >= 2)
    ensures |sample| >= 2 ==> r.Pass?
  {
    if |sample| == 0 then Fail(LogicError)
    else if |sample| == 1 then
      SingletonTotal(sample);
      if forall x :: x in sample ==> sample[x] < 2 then Fail(LogicError) else Pass
    else Pass
  }

  /** A map with one key totals that key's count. */
  lemma SingletonTotal<X>(m: map<X, nat>)
    requires |m| == 1
    ensures exists x :: x in m && MapTotal(m) == m[x]
    ensures forall x, y :: x in m && y in m ==> x == y
  {
    var x :| x in m;
    MapTotalRemove(m, x);
    assert |(m - {x}).Keys| == 0;
    assert m - {x} == map[];
    assert |m.Keys - {x}| == 0;
    assert m.Keys - {x} == {};
  }

  /**
   * Only a single-deme sample has its size checked: two demes holding
   * one copy between them pass the test.
   */
  lemma OneCopyOverTwoDemesPasses()
    ensures TestSampleConsistency(map[0 := 1, 1 := 0]) == Pass
    ensures MapTotal(map[0 := 1, 1 := 0]) == 1
  {
    var m := map[0 := 1, 1 := 0];
    MapTotalRemove(m, 0);
    assert m - {0} == map[1 := 0];
    MapTotalRemove(map[1 := 0], 1);
    assert map[1 := 0] - {1} == map[];
  }

  /** The population size `N(x, t)`, zero where none was written. */
  function Size<X, T>(p: map<T, map<X, int>>, x: X, t: T): int
  {
    Get(Layer(p, t), x)
  }

  /** Every deme holding lineages is at least as populated as the number of its lineages at `t`. */
  ghost predicate Sustains<X, T>(p: map<int, map<X, int>>, t: int, d: seq<(X, T)>)
  {
    forall x :: x in Keys(d) ==> CountAt(d, x) <= Size(p, x, t)
  }

  /** The generator's pick from a discrete distribution is one of its support points. */
  ghost predicate DrawsFromSupport<X(!new)>(draw: (int, nat, Discrete<X>) -> X)
  {
    forall t: int, i: nat, d: Discrete<X> :: |d.support| > 0 ==> draw(t, i, d) in d.support
  }

  /**
   * `migrate_backward` at `t`: the `i`-th lineage keeps its tree and moves to
   * the deme drawn for it from a backward distribution of the flux into its
   * deme at `t - 1`.
   */
  ghost predicate MigratedBy<X(!new), T>(e: seq<(X, T)>, d: seq<(X, T)>, t: int,
                                        r: map<ReverseKey<X, int>, map<X, int>>, draw: (int, nat, Discrete<X>) -> X)
  {
    |e| == |d|
    && forall i :: 0 <= i < |d| ==>
         e[i].1 == d[i].1 && ReverseKey(d[i].0, t - 1) in r
         && DrawnFrom(e[i].0, r[ReverseKey(d[i].0, t - 1)], t, i, draw)
  }

  /** `y` is the pick of the `i`-th draw at `t` from some backward distribution of the flux `m`. */
  ghost predicate DrawnFrom<X(!new)>(y: X, m: map<X, int>, t: int, i: nat, draw: (int, nat, Discrete<X>) -> X)
  {
    exists b :: IsBackward(b, m) && y == draw(t, i, b)
  }

  /** One more lineage moved to the deme drawn for it extends a migration of the lineages before it. */
  lemma MigratedByStep<X(!new), T>(e: seq<(X, T)>, d: seq<(X, T)>, i: nat, t: int,
                                   r: map<ReverseKey<X, int>, map<X, int>>, draw: (int, nat, Discrete<X>) -> X,
                                   b: Discrete<X>)
    requires i < |d| && MigratedBy(e, d[..i], t, r, draw)
    requires ReverseKey(d[i].0, t - 1) in r && IsBackward(b, r[ReverseKey(d[i].0, t - 1)])
    ensures MigratedBy(e + [(draw(t, i, b), d[i].1)], d[..i + 1], t, r, draw)
  {
    var e', d' := e + [(draw(t, i, b), d[i].1)], d[..i + 1];
    forall j | 0 <= j < |d'|
      ensures e'[j].1 == d'[j].1 && ReverseKey(d'[j].0, t - 1) in r
      ensures DrawnFrom(e'[j].0, r[ReverseKey(d'[j].0, t - 1)], t, j, draw)
    {
      if j < i {
        assert d'[j] == d[..i][j] && e'[j] == e[j];
      }
    }
    assert |e'| == |d'|;
  }

  function Coalesced<X(==), T>(d: seq<(X, T)>, y: X, t: int, p: map<int, map<X, int>>,
                               merge: (X, int, int, seq<T>) -> seq<T>): seq<T>
  {
    if CountAt(d, y) >= 2 then merge(y, t, Size(p, y, t), TreesAt(d, y)) else TreesAt(d, y)
  }

  /** The trees of `e` are those of `d`, coalesced at the positions of `done`. */
  ghost predicate SoFar<X(!new), T>(e: seq<(X, T)>, d: seq<(X, T)>, done: set<X>, t: int,
                              p: map<int, map<X, int>>, merge: (X, int, int, seq<T>) -> seq<T>)
  {
    forall y :: TreesAt(e, y) == (if y in done then Coalesced(d, y, t, p, merge) else TreesAt(d, y))
  }

  /** `e` and `d` hold trees at the same positions. */
  ghost predicate SamePositions<X(!new), T>(e: seq<(X, T)>, d: seq<(X, T)>)
  {
    forall y :: CountAt(e, y) > 0 <==> CountAt(d, y) > 0
  }

  lemma SamePositionsTrans<X(!new), T>(a: seq<(X, T)>, b: seq<(X, T)>, c: seq<(X, T)>)
    requires SamePositions(a, b) && SamePositions(b, c)
    ensures SamePositions(a, c)
  {
  }

  /** One more position coalesced: its trees are replaced, the others stay. */
  lemma CoalesceStep<X(!new), T>(d: seq<(X, T)>, before: seq<(X, T)>, after: seq<(X, T)>, done: set<X>, x: X, t: int,
                           p: map<int, map<X, int>>, merge: (X, int, int, seq<T>) -> seq<T>)
    requires SoFar(before, d, done, t, p, merge) && x !in done
    requires SoFar(after, before, {x}, t, p, merge)
    ensures SoFar(after, d, done + {x}, t, p, merge)
  {
    CountMeaning(before, x);
    CountMeaning(d, x);
  }

  /** Replacing the trees at `x` by the survivors coalesces `x` alone, keeps the positions, and adds no entry. */
  lemma Replaced<X(!new), T(!new)>(before: seq<(X, T)>, x: X, last: seq<T>, t: int,
                                   p: map<int, map<X, int>>, merge: (X, int, int, seq<T>) -> seq<T>)
    requires Shrinks(merge) && CountAt(before, x) >= 2
    requires last == merge(x, t, Size(p, x, t), TreesAt(before, x))
    ensures SoFar(Without(before, x) + Pairs(x, last), before, {x}, t, p, merge)
    ensures SamePositions(Without(before, x) + Pairs(x, last), before)
    ensures |Without(before, x) + Pairs(x, last)| <= |before|
  {
    CountMeaning(before, x);
    ReplacedTrees(before, x, last, t, p, merge);
    ReplacedPositions(before, x, last);
  }

  lemma ReplacedTrees<X(!new), T>(before: seq<(X, T)>, x: X, last: seq<T>, t: int,
                                  p: map<int, map<X, int>>, merge: (X, int, int, seq<T>) -> seq<T>)
    requires CountAt(before, x) >= 2
    requires last == merge(x, t, Size(p, x, t), TreesAt(before, x))
    ensures SoFar(Without(before, x) + Pairs(x, last), before, {x}, t, p, merge)
  {
    CountMeaning(before, x);
    AppendPairsMeaning(Without(before, x), x, last);
  }

  lemma ReplacedPositions<X(!new), T>(before: seq<(X, T)>, x: X, last: seq<T>)
    requires |last| >= 1 && CountAt(before, x) > 0
    ensures SamePositions(Without(before, x) + Pairs(x, last), before)
  {
    CountMeaning(before, x);
    AppendPairsMeaning(Without(before, x), x, last);
    forall y ensures CountAt(Without(before, x) + Pairs(x, last), y) > 0 <==> CountAt(before, y) > 0 {
      CountMeaning(before, y);
    }
  }

  /** A position with fewer than two trees is left as it is. */
  lemma Untouched<X(!new), T>(e: seq<(X, T)>, x: X, t: int, p: map<int, map<X, int>>, merge: (X, int, int, seq<T>) -> seq<T>)
    requires CountAt(e, x) < 2
    ensures SoFar(e, e, {x}, t, p, merge) && SamePositions(e, e)
  {
  }

  /** One iteration of `may_coalesce_colocated`'s loop keeps its invariant. */
  lemma Advance<X(!new), T>(d: seq<(X, T)>, before: seq<(X, T)>, after: seq<(X, T)>, positions: set<X>,
                            done: set<X>, rest: set<X>, x: X, t: int,
                            p: map<int, map<X, int>>, merge: (X, int, int, seq<T>) -> seq<T>)
    requires done <= positions && rest == positions - done && x in rest
    requires SoFar(before, d, done, t, p, merge) && SamePositions(before, d)
    requires SoFar(after, before, {x}, t, p, merge) && SamePositions(after, before)
    ensures done + {x} <= positions && rest - {x} == positions - (done + {x}) && |rest - {x}| < |rest|
    ensures SoFar(after, d, done + {x}, t, p, merge) && SamePositions(after, d)
  {
    CoalesceStep(d, before, after, done, x, t, p, merge);
  }

  /** Once every position is done, each one holds its coalesced trees, and the positions are the same. */
  lemma CoalescedWhole<X(!new), T>(e: seq<(X, T)>, d: seq<(X, T)>, done: set<X>, t: int,
                                   p: map<int, map<X, int>>, merge: (X, int, int, seq<T>) -> seq<T>)
    requires SoFar(e, d, done, t, p, merge) && Keys(d) <= done && SamePositions(e, d)
    ensures forall y :: TreesAt(e, y) == Coalesced(d, y, t, p, merge)
    ensures Keys(e) == Keys(d)
    ensures d != [] ==> e != []
  {
    forall y | y !in done ensures TreesAt(e, y) == Coalesced(d, y, t, p, merge) {
      CountMeaning(d, y);
    }
    SameKeys(e, d);
    NonEmptyKeys(e);
    NonEmptyKeys(d);
  }

  /** The merger leaves between one survivor and all of them: the range it returns is `[first + 1, last]`. */
  ghost predicate Shrinks<X(!new), T(!new)>(merge: (X, int, int, seq<T>) -> seq<T>)
  {
    forall x, t, n, v :: |v| >= 2 ==> 1 <= |merge(x, t, n, v)| <= |v|
  }

  /** A forest is empty exactly when it has no position. */
  lemma NonEmptyKeys<X, T>(d: seq<(X, T)>)
    ensures d != [] <==> Keys(d) != {}
  {
    if d != [] {
      assert d[0].0 in Keys(d);
    }
  }

  lemma PositionCount<X, T>(d: seq<(X, T)>, x: X)
    requires x in Keys(d)
    ensures CountAt(d, x) > 0
  {
    CountMeaning(d, x);
  }

  /** Two forests with the same positive counts have the same positions. */
  lemma SameKeys<X(!new), T>(d: seq<(X, T)>, e: seq<(X, T)>)
    requires SamePositions(d, e)
    ensures Keys(d) == Keys(e)
  {
    forall y ensures y in Keys(d) <==> y in Keys(e) {
      CountMeaning(d, y);
      CountMeaning(e, y);
    }
  }

  /** The migration keeps every tree, in order. */
  lemma MigratedKeepsTrees<X(!new), T>(e: seq<(X, T)>, d: seq<(X, T)>, t: int,
                                       r: map<ReverseKey<X, int>, map<X, int>>, draw: (int, nat, Discrete<X>) -> X)
    requires MigratedBy(e, d, t, r, draw)
    ensures |e| == |d| && AllTrees(e) == AllTrees(d)
  {
  }

  /**
   * In a history obeying the generation law at `t - 1`, each lineage found in
   * a populated deme at `t` moves to an origin of the flux into it, which is a
   * deme populated at `t - 1`.
   */
  lemma MigratedPopulated<X(!new), T>(p: map<int, map<X, int>>, f: map<Key<X, int>, int>,
                                      r: map<ReverseKey<X, int>, map<X, int>>, e: seq<(X, T)>, d: seq<(X, T)>, t: int,
                                      growth: (X, int) -> nat, disperse: (X, int, nat) -> X,
                                      draw: (int, nat, Discrete<X>) -> X)
    requires GenerationHolds(p, f, t - 1, growth, disperse) && Consistent(f, r)
    requires forall k :: k in f ==> f[k] > 0
    requires forall x :: x in Keys(d) ==> Size(p, x, t) >= 1
    requires MigratedBy(e, d, t, r, draw) && DrawsFromSupport(draw)
    ensures forall i :: 0 <= i < |e| ==> e[i].0 in r[ReverseKey(d[i].0, t - 1)]
    ensures forall y :: y in Keys(e) ==> Size(p, y, t - 1) >= 1
  {
    forall i | 0 <= i < |e| ensures e[i].0 in r[ReverseKey(d[i].0, t - 1)] && Size(p, e[i].0, t - 1) >= 1 {
      var x := d[i].0;
      assert x in Keys(d);
      PopulatedHasFlux(p, f, r, t - 1, growth, disperse, x);
      var b :| IsBackward(b, r[ReverseKey(x, t - 1)]) && e[i].0 == draw(t, i, b);
      var y :| y in r[ReverseKey(x, t - 1)];
      assert y in b.support;
      BackwardOriginsPopulated(p, f, r, t - 1, growth, disperse, x);
    }
  }

  /** `ForwardBackwardSpatiallyExplicit`: the history it simulates and the number of generations it spans. */
  class Simulator<X(==,!new)> {
    const history: History<X>
    const nbGenerations: nat

    ghost predicate Valid()
      reads this, history, history.sizes, history.flows, history.kernel
    {
      history.Valid()
    }

    /** `ForwardBackwardSpatiallyExplicit(x_0, N_0, nb_generations)`: `N_0` individuals in `x_0` at time 0. */
    constructor (x0: X, n0: nat, nbGenerations: nat)
      ensures this.nbGenerations == nbGenerations
      ensures history.sizes.populations == map[0 := map[x0 := n0]] && history.times == [0]
      ensures fresh(history) && fresh(history.sizes) && fresh(history.flows) && fresh(history.kernel)
      ensures Valid()
    {
      history := new History<X>(x0, 0, n0);
      this.nbGenerations := nbGenerations;
    }

    /** `get_functor_N()(x, t)`: the read-only size, through `get`, which asserts the entry is defined. */
    function PopSize(x: X, t: int): (n: int)
      requires DefinedIn(history.sizes.populations, x, t)
      reads this, history, history.sizes
      ensures n == history.sizes.populations[t][x]
      ensures n >= 1 <==> x in Support(history.sizes.populations, t)
    {
      Size(history.sizes.populations, x, t)
    }

    /** `simulate_forward_demography`: expands the history over its generations. */
    method SimulateForwardDemography(growth: (X, int) -> nat, disperse: (X, int, nat) -> X) returns (r: Outcome)
      requires Valid()
      modifies history, history.flows, history.sizes
      ensures Valid()
      ensures r.Pass? ==> HoldFrom(history.sizes.populations, history.flows.flows, old(history.LastTime()),
                                   history.LastTime(), growth, disperse)
      ensures r.Pass? ==> history.LastTime() == old(history.LastTime()) + nbGenerations
    {
      r := history.Expand(nbGenerations, growth, disperse);
    }

    /** `distribution_area(t)`: asserts `t` is before the last generation, then the demes populated at `t`. */
    method DistributionArea(t: nat) returns (r: Result<seq<X>>)
      requires t < nbGenerations
      ensures r.Failure? <==> t !in history.sizes.populations
      ensures r.Success? ==> forall y :: y in r.value <==> DefinedIn(history.sizes.populations, y, t) && PopSize(y, t) > 0
    {
      r := history.sizes.DefinitionSpace(t);
    }

    /** `check_consistency`: a `domain_error` when some deme holds more lineages than individuals at the last generation. */
    method CheckConsistency<T>(forest: Forest<X, T>) returns (r: Outcome)
      ensures r.Pass? || r == Fail(DomainError)
      ensures r.Pass? <==> Sustains(history.sizes.populations, nbGenerations, forest.data)
    {
      var positions := forest.Positions();
      var rest := positions;
      while rest != {}
        invariant rest <= positions
        invariant forall x :: x in positions - rest ==> CountAt(forest.data, x) <= Size(history.sizes.populations, x, nbGenerations)
        decreases |rest|
      {
        var x :| x in rest;
        var count := forest.NbTreesAt(x);
        if Size(history.sizes.populations, x, nbGenerations) < count {
          return Fail(DomainError);
        }
        rest := rest - {x};
      }
      r := Pass;
    }

    /**
     * `migrate_backward(forest, t)`: every lineage moves to the deme that
     * `backward_kernel` draws for it, which demands a flux into its deme at
     * `t - 1`; none is lost and the trees are kept.
     */
    method MigrateBackward<T>(forest: Forest<X, T>, t: int, draw: (int, nat, Discrete<X>) -> X)
      requires Valid()
      requires forall x :: x in Keys(forest.data) ==> history.flows.FluxToIsDefined(x, t - 1)
      modifies forest, history.kernel
      ensures Valid()
      ensures MigratedBy(forest.data, old(forest.data), t, history.flows.reverseFlows, draw)
      ensures |forest.data| == |old(forest.data)| && AllTrees(forest.data) == AllTrees(old(forest.data))
    {
      var d := forest.data;
      var moved := new Forest<X, T>();
      var i := 0;
      while i < |d|
        invariant 0 <= i <= |d| && Valid()
        invariant MigratedBy(moved.data, d[..i], t, history.flows.reverseFlows, draw)
      {
        var x := d[i].0;
        assert x in Keys(d);
        var y := history.BackwardKernel(x, t, b => draw(t, i, b));
        ghost var b := history.kernel.kernels[t - 1][x];
        assert IsBackward(b, history.flows.reverseFlows[ReverseKey(x, t - 1)]) && y == draw(t, i, b);
        ghost var before := moved.data;
        moved.Insert(y, d[i].1);
        MigratedByStep(before, d, i, t, history.flows.reverseFlows, draw, b);
        i := i + 1;
      }
      assert d[..i] == d;
      forest.Assign(moved);
      MigratedKeepsTrees(forest.data, d, t, history.flows.reverseFlows, draw);
    }

    /**
     * `may_coalesce_colocated(forest, t)`: at every position holding two or
     * more trees, asserts the deme is populated and replaces its trees by
     * the merger's survivors; the other positions keep their trees.
     */
    method MayCoalesceColocated<T(!new)>(forest: Forest<X, T>, t: int, merge: (X, int, int, seq<T>) -> seq<T>)
      requires Shrinks(merge)
      requires forall x :: x in Keys(forest.data) ==> Size(history.sizes.populations, x, t) >= 1
      modifies forest
      ensures forall y :: TreesAt(forest.data, y) == Coalesced(old(forest.data), y, t, history.sizes.populations, merge)
      ensures Keys(forest.data) == Keys(old(forest.data))
      ensures |forest.data| <= |old(forest.data)|
      ensures old(forest.data) != [] ==> forest.data != []
    {
      ghost var d := forest.data;
      var positions := forest.Positions();
      var rest := positions;
      ghost var done: set<X> := {};
      while rest != {}
        invariant positions == Keys(d) && done <= positions && rest == positions - done
        invariant SoFar(forest.data, d, done, t, history.sizes.populations, merge)
        invariant SamePositions(forest.data, d)
        invariant |forest.data| <= |d|
        decreases |rest|
      {
        var x :| x in rest;
        ghost var before := forest.data;
        PositionCount(d, x);
        CoalesceAt(forest, x, t, merge);
        Advance(d, before, forest.data, positions, done, rest, x, t, history.sizes.populations, merge);
        done := done + {x};
        rest := rest - {x};
      }
      CoalescedWhole(forest.data, d, done, t, history.sizes.populations, merge);
    }

    /** The body of `may_coalesce_colocated`'s loop, for the position `x`. */
    method CoalesceAt<T(!new)>(forest: Forest<X, T>, x: X, t: int, merge: (X, int, int, seq<T>) -> seq<T>)
      requires Shrinks(merge) && CountAt(forest.data, x) > 0 && Size(history.sizes.populations, x, t) >= 1
      modifies forest
      ensures SoFar(forest.data, old(forest.data), {x}, t, history.sizes.populations, merge)
      ensures SamePositions(forest.data, old(forest.data))
      ensures |forest.data| <= |old(forest.data)|
    {
      var v := forest.TreesAtSamePosition(x);
      if |v| >= 2 {
        var last := merge(x, t, PopSize(x, t), v);
        ghost var before := forest.data;
        var removed := forest.Erase(x);
        forest.InsertAll(x, last);
        Replaced(before, x, last, t, history.sizes.populations, merge);
      } else {
        Untouched(forest.data, x, t, history.sizes.populations, merge);
      }
    }

    /**
     * One round of `coalesce_along_spatial_history`'s loop at generation `t`:
     * the colocated lineages coalesce, then migrate back to demes populated
     * at `t - 1`.
     */
    method GoBack<T(!new)>(forest: Forest<X, T>, t: int, draw: (int, nat, Discrete<X>) -> X,
                           merge: (X, int, int, seq<T>) -> seq<T>,
                           ghost growth: (X, int) -> nat, ghost disperse: (X, int, nat) -> X)
      requires Valid() && Shrinks(merge) && DrawsFromSupport(draw)
      requires GenerationHolds(history.sizes.populations, history.flows.flows, t - 1, growth, disperse)
      requires forall x :: x in Keys(forest.data) ==> Size(history.sizes.populations, x, t) >= 1
      modifies forest, history.kernel
      ensures Valid()
      ensures forall x :: x in Keys(forest.data) ==> Size(history.sizes.populations, x, t - 1) >= 1
      ensures |forest.data| <= |old(forest.data)| && (old(forest.data) != [] ==> forest.data != [])
    {
      MayCoalesceColocated(forest, t, merge);
      ghost var before := forest.data;
      ghost var p, f, rf := history.sizes.populations, history.flows.flows, history.flows.reverseFlows;
      assert Consistent(f, rf) && forall k :: k in f ==> f[k] > 0;
      forall x | x in Keys(before) ensures history.flows.FluxToIsDefined(x, t - 1) {
        PopulatedHasFlux(p, f, rf, t - 1, growth, disperse, x);
      }
      MigrateBackward(forest, t, draw);
      MigratedPopulated(p, f, rf, forest.data, before, t, growth, disperse, draw);
    }

    /**
     * `coalesce_along_spatial_history`: a `domain_error` when the history
     * cannot hold the sample; otherwise, from the last generation back,
     * coalesces the colocated lineages then migrates them one generation
     * back, until one lineage remains or time 0 is reached, and coalesces
     * once more there.  Returns the time it stopped at.
     */
    method CoalesceAlongSpatialHistory<T(!new)>(forest: Forest<X, T>, draw: (int, nat, Discrete<X>) -> X,
                                                merge: (X, int, int, seq<T>) -> seq<T>,
                                                ghost growth: (X, int) -> nat, ghost disperse: (X, int, nat) -> X)
      returns (r: Outcome, stop: int)
      requires Valid() && Shrinks(merge) && DrawsFromSupport(draw)
      requires HoldFrom(history.sizes.populations, history.flows.flows, 0, nbGenerations, growth, disperse)
      modifies forest, history.kernel
      ensures Valid()
      ensures r.Pass? || r == Fail(DomainError)
      ensures r.Pass? <==> Sustains(history.sizes.populations, nbGenerations, old(forest.data))
      ensures r.Fail? ==> forest.data == old(forest.data)
      ensures r.Pass? ==> 0 <= stop <= nbGenerations && (stop == 0 || |forest.data| <= 1)
      ensures r.Pass? ==> forall x :: x in Keys(forest.data) ==> Size(history.sizes.populations, x, stop) >= 1
      ensures |forest.data| <= |old(forest.data)|
      ensures old(forest.data) != [] ==> forest.data != []
    {
      stop := nbGenerations;
      r := CheckConsistency(forest);
      if r.Fail? {
        return;
      }
      ghost var d := forest.data;
      forall x | x in Keys(forest.data) ensures Size(history.sizes.populations, x, stop) >= 1 {
        CountMeaning(forest.data, x);
      }
      while |forest.data| > 1 && stop > 0
        invariant 0 <= stop <= nbGenerations && Valid()
        invariant forall x :: x in Keys(forest.data) ==> Size(history.sizes.populations, x, stop) >= 1
        invariant |forest.data| <= |d| && (d != [] ==> forest.data != [])
        decreases stop
      {
        GoBack(forest, stop, draw, merge, growth, disperse);
        stop := stop - 1;
      }
      MayCoalesceColocated(forest, stop, merge);
    }
  }
}
