/**
 * The forward-in-time demographic history of the individual-based strategy
 * (modules/demography/History.h): a database of population sizes, a database
 * of flows between demes, the consecutive times simulated so far, and a cache
 * of backward dispersal distributions built from the flows.
 *
 * The random draws are inputs: `growth(x, t)` is the number of offspring
 * simulated in deme `x` at time `t`, and
 * `disperse(x, t, i)` is the deme the `i`-th of them moves to.
 */
module Histories {
  import opened Common
  import opened PopulationSizes
  import opened Flows
  import opened TransitionKernels

  /** `DiscreteDistribution`: a support and the weight of each element. */
  datatype Discrete<X> = Discrete(support: seq<X>, weights: seq<int>)

  /** The backward distribution of a deme: the origins of the flows converging to it, each once, weighted by its flow. */
  ghost predicate IsBackward<X(!new)>(d: Discrete<X>, origins: map<X, int>)
  {
    |d.support| == |d.weights|
    && (forall i, j :: 0 <= i < j < |d.support| ==> d.support[i] != d.support[j])
    && (forall y :: y in d.support <==> y in origins)
    && (forall i :: 0 <= i < |d.support| ==> d.weights[i] == origins[d.support[i]])
  }

  // ----------------------------------------------------- one deme, as values

  /** The destinations of the `n` individuals leaving `x` at `t`, ranked 1 to `n`. */
  function Emigrants<X>(disperse: (X, int, nat) -> X, x: X, t: int, n: nat): (m: multiset<X>)
    ensures |m| == n
  {
    if n == 0 then multiset{} else Emigrants(disperse, x, t, n - 1) + multiset{disperse(x, t, n)}
  }

  /** The forward flows once the first `n` individuals of `x` have each added a unit flow to their destination. */
  function FlowsAfter<X(==)>(f: map<Key<X, int>, int>, disperse: (X, int, nat) -> X, x: X, t: int, n: nat)
    : map<Key<X, int>, int>
  {
    if n == 0 then f
    else
      var g := FlowsAfter(f, disperse, x, t, n - 1);
      var y := disperse(x, t, n);
      SetForward(g, x, y, t, Get(g, Key(t, x, y)) + 1)
  }

  /** The reverse index after the same unit flows. */
  function ReverseAfter<X(==)>(r: map<ReverseKey<X, int>, map<X, int>>, f: map<Key<X, int>, int>,
                           disperse: (X, int, nat) -> X, x: X, t: int, n: nat)
    : map<ReverseKey<X, int>, map<X, int>>
  {
    if n == 0 then r
    else
      var y := disperse(x, t, n);
      SetReverse(ReverseAfter(r, f, disperse, x, t, n - 1), x, y, t,
                 Get(FlowsAfter(f, disperse, x, t, n - 1), Key(t, x, y)) + 1)
  }

  /** The sizes once each of the first `n` individuals of `x` has added one to its destination at `t + 1`. */
  function SizesAfter<X(==)>(p: map<int, map<X, int>>, disperse: (X, int, nat) -> X, x: X, t: int, n: nat)
    : map<int, map<X, int>>
  {
    if n == 0 then p
    else
      var q := SizesAfter(p, disperse, x, t, n - 1);
      var y := disperse(x, t, n);
      Write(q, y, t + 1, Get(Layer(q, t + 1), y) + 1)
  }

  /** The flow from `x` to each deme grows by the number of its emigrants sent there; no other flow changes. */
  lemma {:induction false} FlowsAfterMeaning<X>(f: map<Key<X, int>, int>, disperse: (X, int, nat) -> X, x: X, t: int, n: nat)
    ensures forall k: Key<X, int> ::
              Get(FlowsAfter(f, disperse, x, t, n), k)
              == Get(f, k) + (if k.time == t && k.from == x then Emigrants(disperse, x, t, n)[k.to] else 0)
  {
    if n > 0 {
      FlowsAfterMeaning(f, disperse, x, t, n - 1);
      var g, y := FlowsAfter(f, disperse, x, t, n - 1), disperse(x, t, n);
      var e, e1 := Emigrants(disperse, x, t, n), Emigrants(disperse, x, t, n - 1);
      forall k: Key<X, int>
        ensures Get(FlowsAfter(f, disperse, x, t, n), k) == Get(f, k) + (if k.time == t && k.from == x then e[k.to] else 0)
      {
        assert e[k.to] == e1[k.to] + (if k.to == y then 1 else 0);
        if k == Key(t, x, y) {
          assert Get(FlowsAfter(f, disperse, x, t, n), k) == Get(g, k) + 1;
        } else {
          assert Get(FlowsAfter(f, disperse, x, t, n), k) == Get(g, k);
        }
      }
    }
  }

  /** The unit flows store a key exactly when it was stored or some individual of `x` went that way. */
  lemma {:induction false} FlowsAfterKeys<X>(f: map<Key<X, int>, int>, disperse: (X, int, nat) -> X, x: X, t: int, n: nat)
    ensures forall k: Key<X, int> :: k in FlowsAfter(f, disperse, x, t, n) <==>
              (k in f || (k.time == t && k.from == x && Emigrants(disperse, x, t, n)[k.to] > 0))
  {
    if n > 0 {
      FlowsAfterKeys(f, disperse, x, t, n - 1);
    }
  }

  /** The unit flows keep the two indexes consistent and touch no reverse entry of another time. */
  lemma {:induction false} ReverseAfterMeaning<X>(r: map<ReverseKey<X, int>, map<X, int>>, f: map<Key<X, int>, int>,
                                                  disperse: (X, int, nat) -> X, x: X, t: int, n: nat)
    ensures Consistent(f, r) ==> Consistent(FlowsAfter(f, disperse, x, t, n), ReverseAfter(r, f, disperse, x, t, n))
    ensures forall rk: ReverseKey<X, int> :: rk.time != t ==>
              (rk in ReverseAfter(r, f, disperse, x, t, n) <==> rk in r)
    ensures forall rk: ReverseKey<X, int> :: rk.time != t && rk in r ==> ReverseAfter(r, f, disperse, x, t, n)[rk] == r[rk]
  {
    if n > 0 {
      ReverseAfterMeaning(r, f, disperse, x, t, n - 1);
      if Consistent(f, r) {
        var y := disperse(x, t, n);
        SetKeepsConsistent(FlowsAfter(f, disperse, x, t, n - 1), ReverseAfter(r, f, disperse, x, t, n - 1),
                           x, y, t, Get(FlowsAfter(f, disperse, x, t, n - 1), Key(t, x, y)) + 1);
      }
    }
  }

  /** The unit arrivals of one deme change no size at another time than `t + 1`. */
  lemma {:induction false} SizesAfterFrame<X>(p: map<int, map<X, int>>, disperse: (X, int, nat) -> X, x: X, t: int, n: nat)
    ensures forall u :: u != t + 1 ==> (u in SizesAfter(p, disperse, x, t, n) <==> u in p)
    ensures forall u :: u != t + 1 && u in p ==> SizesAfter(p, disperse, x, t, n)[u] == p[u]
  {
    if n > 0 {
      SizesAfterFrame(p, disperse, x, t, n - 1);
    }
  }

  /** A layer of sizes once the individuals of `a` have arrived, one each. */
  function AddArrivals<X>(l: map<X, int>, a: multiset<X>): map<X, int>
  {
    map z | z in l.Keys + (set y | y in a) :: Get(l, z) + a[z]
  }

  /** One more arrival at `y`. */
  lemma AddArrivalsOne<X>(l: map<X, int>, a: multiset<X>, y: X)
    ensures AddArrivals(l, a + multiset{y}) == AddArrivals(l, a)[y := Get(AddArrivals(l, a), y) + 1]
  {
    var lhs, rhs := AddArrivals(l, a + multiset{y}), AddArrivals(l, a)[y := Get(AddArrivals(l, a), y) + 1];
    assert lhs.Keys == rhs.Keys;
    forall z | z in lhs.Keys ensures lhs[z] == rhs[z] {
      assert (a + multiset{y})[z] == a[z] + (if z == y then 1 else 0);
    }
  }

  /** No arrival leaves a layer as it was. */
  lemma AddArrivalsNone<X>(l: map<X, int>)
    ensures AddArrivals(l, multiset{}) == l
  {
  }

  /** One more individual arriving at `y` at `u` extends the arrivals of a layer by one. */
  lemma ArrivalStep<X>(r: map<int, map<X, int>>, q: map<int, map<X, int>>, l: map<X, int>,
                       a: multiset<X>, e: multiset<X>, y: X, u: int)
    requires Layer(q, u) == AddArrivals(l, a)
    requires r == Write(q, y, u, Get(Layer(q, u), y) + 1) && e == a + multiset{y}
    ensures Layer(r, u) == AddArrivals(l, e)
  {
    AddArrivalsOne(l, a, y);
  }

  lemma SizesAfterUnfold<X>(p: map<int, map<X, int>>, disperse: (X, int, nat) -> X, x: X, t: int, n: nat)
    requires n > 0
    ensures SizesAfter(p, disperse, x, t, n)
            == Write(SizesAfter(p, disperse, x, t, n - 1), disperse(x, t, n), t + 1,
                     Get(Layer(SizesAfter(p, disperse, x, t, n - 1), t + 1), disperse(x, t, n)) + 1)
    ensures Emigrants(disperse, x, t, n) == Emigrants(disperse, x, t, n - 1) + multiset{disperse(x, t, n)}
  {
  }

  /** The layer at `t + 1` is the former one with the emigrants of `x` added. */
  lemma {:induction false} SizesAfterLayer<X>(p: map<int, map<X, int>>, disperse: (X, int, nat) -> X, x: X, t: int, n: nat)
    ensures Layer(SizesAfter(p, disperse, x, t, n), t + 1) == AddArrivals(Layer(p, t + 1), Emigrants(disperse, x, t, n))
    ensures (t + 1 in p || n > 0) ==> t + 1 in SizesAfter(p, disperse, x, t, n)
  {
    if n > 0 {
      SizesAfterLayer(p, disperse, x, t, n - 1);
      var q := SizesAfter(p, disperse, x, t, n - 1);
      var y := disperse(x, t, n);
      SizesAfterUnfold(p, disperse, x, t, n);
      ArrivalStep(SizesAfter(p, disperse, x, t, n), q, Layer(p, t + 1),
                  Emigrants(disperse, x, t, n - 1), Emigrants(disperse, x, t, n), y, t + 1);
    } else {
      AddArrivalsNone(Layer(p, t + 1));
    }
  }

  // ----------------------------------------------------- one generation, as values

  /** The offspring drawn in the demes of `demes`, in order. */
  function TotalGrowth<X>(growth: (X, int) -> nat, t: int, demes: seq<X>): nat
  {
    if demes == [] then 0 else TotalGrowth(growth, t, demes[..|demes| - 1]) + growth(demes[|demes| - 1], t)
  }

  /** The forward flows once every deme of `demes` has sent its offspring away. */
  function GenFlows<X(==)>(f: map<Key<X, int>, int>, growth: (X, int) -> nat, disperse: (X, int, nat) -> X,
                       t: int, demes: seq<X>): map<Key<X, int>, int>
  {
    if demes == [] then f
    else
      var x := demes[|demes| - 1];
      FlowsAfter(GenFlows(f, growth, disperse, t, demes[..|demes| - 1]), disperse, x, t, growth(x, t))
  }

  /** The reverse index after the same flows. */
  function GenReverse<X(==)>(r: map<ReverseKey<X, int>, map<X, int>>, f: map<Key<X, int>, int>, growth: (X, int) -> nat,
                         disperse: (X, int, nat) -> X, t: int, demes: seq<X>): map<ReverseKey<X, int>, map<X, int>>
  {
    if demes == [] then r
    else
      var x := demes[|demes| - 1];
      var front := demes[..|demes| - 1];
      ReverseAfter(GenReverse(r, f, growth, disperse, t, front), GenFlows(f, growth, disperse, t, front),
                   disperse, x, t, growth(x, t))
  }

  /** The sizes once every deme of `demes` has sent its offspring away. */
  function GenSizes<X(==)>(p: map<int, map<X, int>>, growth: (X, int) -> nat, disperse: (X, int, nat) -> X,
                       t: int, demes: seq<X>): map<int, map<X, int>>
  {
    if demes == [] then p
    else
      var x := demes[|demes| - 1];
      SizesAfter(GenSizes(p, growth, disperse, t, demes[..|demes| - 1]), disperse, x, t, growth(x, t))
  }

  /** Every individual leaving one of the demes of `demes`. */
  function ArrivalsOf<X>(growth: (X, int) -> nat, disperse: (X, int, nat) -> X, t: int, demes: seq<X>): (a: multiset<X>)
    ensures |a| == TotalGrowth(growth, t, demes)
  {
    if demes == [] then multiset{}
    else
      var x := demes[|demes| - 1];
      ArrivalsOf(growth, disperse, t, demes[..|demes| - 1]) + Emigrants(disperse, x, t, growth(x, t))
  }

  predicate Distinct<X(==)>(s: seq<X>)
  {
    forall i, j :: 0 <= i < j < |s| ==> s[i] != s[j]
  }

  /** No offspring at all exactly when every deme drew none. */
  lemma {:induction false} TotalGrowthZero<X>(growth: (X, int) -> nat, t: int, demes: seq<X>)
    ensures TotalGrowth(growth, t, demes) == 0 <==> forall x :: x in demes ==> growth(x, t) == 0
  {
    if demes != [] {
      var front := demes[..|demes| - 1];
      TotalGrowthZero(growth, t, front);
      assert demes == front + [demes[|demes| - 1]];
    }
  }

  /** Each flow of generation `t` from a deme of `demes` is its number of emigrants sent there. */
  lemma {:induction false} GenFlowsMeaning<X>(f: map<Key<X, int>, int>, growth: (X, int) -> nat, disperse: (X, int, nat) -> X,
                                              t: int, demes: seq<X>)
    requires Distinct(demes)
    ensures forall k: Key<X, int> ::
              Get(GenFlows(f, growth, disperse, t, demes), k)
              == Get(f, k) + (if k.time == t && k.from in demes then Emigrants(disperse, k.from, t, growth(k.from, t))[k.to] else 0)
    ensures forall k: Key<X, int> :: k in GenFlows(f, growth, disperse, t, demes) <==>
              (k in f || (k.time == t && k.from in demes && Emigrants(disperse, k.from, t, growth(k.from, t))[k.to] > 0))
  {
    if demes != [] {
      var x := demes[|demes| - 1];
      var front := demes[..|demes| - 1];
      assert demes == front + [x];
      assert x !in front;
      GenFlowsMeaning(f, growth, disperse, t, front);
      FlowsAfterMeaning(GenFlows(f, growth, disperse, t, front), disperse, x, t, growth(x, t));
      FlowsAfterKeys(GenFlows(f, growth, disperse, t, front), disperse, x, t, growth(x, t));
    }
  }

  /** A generation keeps the indexes consistent and touches no reverse entry of another time. */
  lemma {:induction false} GenReverseMeaning<X>(r: map<ReverseKey<X, int>, map<X, int>>, f: map<Key<X, int>, int>,
                                                growth: (X, int) -> nat, disperse: (X, int, nat) -> X, t: int, demes: seq<X>)
    ensures Consistent(f, r) ==>
              Consistent(GenFlows(f, growth, disperse, t, demes), GenReverse(r, f, growth, disperse, t, demes))
    ensures forall rk: ReverseKey<X, int> :: rk.time != t ==>
              (rk in GenReverse(r, f, growth, disperse, t, demes) <==> rk in r)
    ensures forall rk: ReverseKey<X, int> :: rk.time != t && rk in r ==>
              GenReverse(r, f, growth, disperse, t, demes)[rk] == r[rk]
  {
    if demes != [] {
      var x := demes[|demes| - 1];
      var front := demes[..|demes| - 1];
      GenReverseMeaning(r, f, growth, disperse, t, front);
      ReverseAfterMeaning(GenReverse(r, f, growth, disperse, t, front), GenFlows(f, growth, disperse, t, front),
                          disperse, x, t, growth(x, t));
    }
  }

  /** A generation at `t` changes no size at another time than `t + 1`. */
  lemma {:induction false} GenSizesFrame<X>(p: map<int, map<X, int>>, growth: (X, int) -> nat, disperse: (X, int, nat) -> X,
                                            t: int, demes: seq<X>)
    ensures forall u :: u != t + 1 ==> (u in GenSizes(p, growth, disperse, t, demes) <==> u in p)
    ensures forall u :: u != t + 1 && u in p ==> GenSizes(p, growth, disperse, t, demes)[u] == p[u]
  {
    if demes != [] {
      var x := demes[|demes| - 1];
      var front := demes[..|demes| - 1];
      GenSizesFrame(p, growth, disperse, t, front);
      SizesAfterFrame(GenSizes(p, growth, disperse, t, front), disperse, x, t, growth(x, t));
    }
  }

  /** The layer at `t + 1` is the former one with the arrivals of a generation at `t` added. */
  lemma {:induction false} GenSizesLayer<X>(p: map<int, map<X, int>>, growth: (X, int) -> nat, disperse: (X, int, nat) -> X,
                                            t: int, demes: seq<X>)
    ensures Layer(GenSizes(p, growth, disperse, t, demes), t + 1) == AddArrivals(Layer(p, t + 1), ArrivalsOf(growth, disperse, t, demes))
    ensures (t + 1 in p || TotalGrowth(growth, t, demes) > 0) ==> t + 1 in GenSizes(p, growth, disperse, t, demes)
  {
    if demes != [] {
      var x := demes[|demes| - 1];
      var front := demes[..|demes| - 1];
      GenSizesLayer(p, growth, disperse, t, front);
      SizesAfterLayer(GenSizes(p, growth, disperse, t, front), disperse, x, t, growth(x, t));
      AddArrivalsSum(Layer(p, t + 1), ArrivalsOf(growth, disperse, t, front), Emigrants(disperse, x, t, growth(x, t)));
    } else {
      var l := Layer(p, t + 1);
      assert AddArrivals(l, multiset{}) == l;
    }
  }

  /** Arrivals in two batches make the same layer as all at once. */
  lemma AddArrivalsSum<X>(l: map<X, int>, a: multiset<X>, b: multiset<X>)
    ensures AddArrivals(AddArrivals(l, a), b) == AddArrivals(l, a + b)
  {
    var lhs, rhs := AddArrivals(AddArrivals(l, a), b), AddArrivals(l, a + b);
    assert lhs.Keys == rhs.Keys;
  }

  /** The offspring count of each deme of `s`. */
  function GrowthMap<X>(growth: (X, int) -> nat, t: int, s: set<X>): map<X, nat>
  {
    map x | x in s :: growth(x, t)
  }

  /** Every individual leaving one of the demes of `s`, whatever the order of the demes. */
  ghost function Arrivals<X>(growth: (X, int) -> nat, disperse: (X, int, nat) -> X, t: int, s: set<X>): multiset<X>
    decreases s
  {
    if s == {} then multiset{}
    else
      var x :| x in s;
      Emigrants(disperse, x, t, growth(x, t)) + Arrivals(growth, disperse, t, s - {x})
  }

  /** The arrivals do not depend on the deme taken first. */
  lemma {:induction false} ArrivalsRemove<X>(growth: (X, int) -> nat, disperse: (X, int, nat) -> X, t: int, s: set<X>, y: X)
    requires y in s
    ensures Arrivals(growth, disperse, t, s)
         == Emigrants(disperse, y, t, growth(y, t)) + Arrivals(growth, disperse, t, s - {y})
    decreases s
  {
    var x :| x in s && Arrivals(growth, disperse, t, s)
                     == Emigrants(disperse, x, t, growth(x, t)) + Arrivals(growth, disperse, t, s - {x});
    if x != y {
      ArrivalsRemove(growth, disperse, t, s - {x}, y);
      ArrivalsRemove(growth, disperse, t, s - {y}, x);
      assert s - {x} - {y} == s - {y} - {x};
    }
  }

  /** The arrivals of the demes in iteration order are those of the set of demes. */
  lemma {:induction false} ArrivalsOfIsArrivals<X>(growth: (X, int) -> nat, disperse: (X, int, nat) -> X, t: int, demes: seq<X>)
    requires Distinct(demes)
    ensures ArrivalsOf(growth, disperse, t, demes) == Arrivals(growth, disperse, t, set x | x in demes)
  {
    if demes != [] {
      var x, front := demes[|demes| - 1], demes[..|demes| - 1];
      assert demes == front + [x];
      DemesSplit(demes, front, x);
      ArrivalsOfIsArrivals(growth, disperse, t, front);
      ArrivalsRemove(growth, disperse, t, (set y | y in demes), x);
    }
  }

  /** The set of distinct demes without the last one is the set of the others. */
  lemma DemesSplit<X>(demes: seq<X>, front: seq<X>, x: X)
    requires Distinct(demes) && demes == front + [x]
    ensures Distinct(front)
    ensures x in (set y | y in demes)
    ensures (set y | y in demes) - {x} == set y | y in front
  {
    assert forall k :: 0 <= k < |front| ==> front[k] == demes[k] != demes[|front|] == x;
  }

  /** As many individuals arrive as the demes of `s` produce. */
  lemma {:induction false} ArrivalsSize<X>(growth: (X, int) -> nat, disperse: (X, int, nat) -> X, t: int, s: set<X>)
    ensures |Arrivals(growth, disperse, t, s)| == MapTotal(GrowthMap(growth, t, s))
    decreases s
  {
    if s != {} {
      var y :| y in s;
      ArrivalsRemove(growth, disperse, t, s, y);
      ArrivalsSize(growth, disperse, t, s - {y});
      MapTotalRemove(GrowthMap(growth, t, s), y);
      assert GrowthMap(growth, t, s) - {y} == GrowthMap(growth, t, s - {y});
    }
  }

  /** The population sizes a multiset of individuals makes. */
  function Counts<X>(a: multiset<X>): map<X, nat>
  {
    map y | y in a :: a[y]
  }

  /** The sizes sum to the number of individuals. */
  lemma {:induction false} CountsTotal<X>(a: multiset<X>)
    ensures MapTotal(Counts(a)) == |a|
    decreases |a|
  {
    if a != multiset{} {
      var y :| y in a;
      var b := a - multiset{y};
      CountsTotal(b);
      assert Counts(a) == Counts(b)[y := a[y]];
      MapTotalUpdate(Counts(b), y, a[y]);
      assert a == b + multiset{y};
    } else {
      assert Counts(a) == map[];
    }
  }

  /**
   * Generation `t` of the history: every deme of positive size at `t` sends
   * its offspring away one flow unit at a time, so the flow from `x` to `y` is
   * the number of its emigrants that went to `y`, and the sizes at `t + 1` are
   * the counts of all arrivals.
   */
  ghost predicate GenerationHolds<X(!new)>(pops: map<int, map<X, int>>, f: map<Key<X, int>, int>, t: int,
                                          growth: (X, int) -> nat, disperse: (X, int, nat) -> X)
  {
    t in pops
    && (forall x, y :: Get(f, Key(t, x, y))
                       == if x in Support(pops, t) then Emigrants(disperse, x, t, growth(x, t))[y] else 0)
    && Layer(pops, t + 1) == Counts(Arrivals(growth, disperse, t, Support(pops, t)))
  }

  /** Every arrival of a generation is an emigrant of one of the demes that reproduced. */
  lemma {:induction false} ArrivalHasOrigin<X>(growth: (X, int) -> nat, disperse: (X, int, nat) -> X, t: int, s: set<X>, y: X)
    requires y in Arrivals(growth, disperse, t, s)
    ensures exists x :: x in s && y in Emigrants(disperse, x, t, growth(x, t))
    decreases s
  {
    var x :| x in s;
    ArrivalsRemove(growth, disperse, t, s, x);
    if y !in Emigrants(disperse, x, t, growth(x, t)) {
      ArrivalHasOrigin(growth, disperse, t, s - {x}, y);
    }
  }

  /**
   * A deme populated at `t + 1` received a flow at `t`: the flux into it is
   * defined and has an origin, so the assertion of `backward_kernel` holds.
   */
  lemma PopulatedHasFlux<X(!new)>(p: map<int, map<X, int>>, f: map<Key<X, int>, int>,
                                  r: map<ReverseKey<X, int>, map<X, int>>, t: int,
                                  growth: (X, int) -> nat, disperse: (X, int, nat) -> X, x: X)
    requires GenerationHolds(p, f, t, growth, disperse) && Consistent(f, r)
    requires Get(Layer(p, t + 1), x) >= 1
    ensures ReverseKey(x, t) in r && r[ReverseKey(x, t)] != map[]
  {
    var a := Arrivals(growth, disperse, t, Support(p, t));
    assert x in Counts(a);
    ArrivalHasOrigin(growth, disperse, t, Support(p, t), x);
    var y :| y in Support(p, t) && x in Emigrants(disperse, y, t, growth(y, t));
    assert Get(f, Key(t, y, x)) > 0;
    assert Key(t, y, x) in f;
    assert y in r[ReverseKey(x, t)];
  }

  /**
   * Every origin of the flux into `x` at `t` is a deme of positive size at
   * `t`: the backward kernel only sends a lineage where individuals lived.
   */
  lemma BackwardOriginsPopulated<X(!new)>(p: map<int, map<X, int>>, f: map<Key<X, int>, int>,
                                          r: map<ReverseKey<X, int>, map<X, int>>, t: int,
                                          growth: (X, int) -> nat, disperse: (X, int, nat) -> X, x: X)
    requires GenerationHolds(p, f, t, growth, disperse) && Consistent(f, r)
    requires forall k :: k in f ==> f[k] > 0
    requires ReverseKey(x, t) in r
    ensures forall y :: y in r[ReverseKey(x, t)] ==> Get(Layer(p, t), y) >= 1
  {
    forall y | y in r[ReverseKey(x, t)] ensures Get(Layer(p, t), y) >= 1 {
      assert Key(t, y, x) in f;
      assert Get(f, Key(t, y, x)) > 0;
    }
  }

  /**
   * Conservation within a generation: the sizes at `t + 1` sum to the total
   * offspring at `t`, and each deme's outgoing flows sum to its offspring.
   */
  lemma GenerationConserves<X(!new)>(pops: map<int, map<X, int>>, f: map<Key<X, int>, int>, t: int,
                                     growth: (X, int) -> nat, disperse: (X, int, nat) -> X)
    requires GenerationHolds(pops, f, t, growth, disperse)
    ensures MapTotal(Layer(pops, t + 1)) == MapTotal(GrowthMap(growth, t, Support(pops, t)))
    ensures forall x :: x in Support(pops, t) ==> |Emigrants(disperse, x, t, growth(x, t))| == growth(x, t)
  {
    var a := Arrivals(growth, disperse, t, Support(pops, t));
    CountsTotal(a);
    ArrivalsSize(growth, disperse, t, Support(pops, t));
  }

  /** A generation's law reads only the sizes at `t` and `t + 1` and the flows at `t`. */
  lemma GenerationHoldsFrame<X(!new)>(p1: map<int, map<X, int>>, f1: map<Key<X, int>, int>,
                                      p2: map<int, map<X, int>>, f2: map<Key<X, int>, int>, t: int,
                                      growth: (X, int) -> nat, disperse: (X, int, nat) -> X)
    requires GenerationHolds(p1, f1, t, growth, disperse)
    requires t in p2 && p2[t] == p1[t] && Layer(p2, t + 1) == Layer(p1, t + 1)
    requires forall x, y :: Get(f2, Key(t, x, y)) == Get(f1, Key(t, x, y))
    ensures GenerationHolds(p2, f2, t, growth, disperse)
  {
    assert Support(p2, t) == Support(p1, t);
  }

  /** Nothing recorded up to `t` changed: the sizes up to `t` and the flows before `t`. */
  ghost predicate Extends<X(!new)>(p0: map<int, map<X, int>>, f0: map<Key<X, int>, int>, t: int,
                                   p: map<int, map<X, int>>, f: map<Key<X, int>, int>)
  {
    (forall u :: u <= t ==> (u in p <==> u in p0))
    && (forall u :: u <= t && u in p0 ==> p[u] == p0[u])
    && (forall k: Key<X, int> :: k.time < t ==> Get(f, k) == Get(f0, k))
  }

  /** The law of each generation from `t0` to `t1 - 1` holds. */
  ghost predicate HoldFrom<X(!new)>(p: map<int, map<X, int>>, f: map<Key<X, int>, int>, t0: int, t1: int,
                                    growth: (X, int) -> nat, disperse: (X, int, nat) -> X)
  {
    forall u :: t0 <= u < t1 ==> GenerationHolds(p, f, u, growth, disperse)
  }

  /** A generation at `t` that keeps everything up to `t` keeps the earlier history and its laws. */
  lemma ExpandStep<X(!new)>(p0: map<int, map<X, int>>, f0: map<Key<X, int>, int>, t0: int,
                            pa: map<int, map<X, int>>, fa: map<Key<X, int>, int>, t: int,
                            pb: map<int, map<X, int>>, fb: map<Key<X, int>, int>,
                            growth: (X, int) -> nat, disperse: (X, int, nat) -> X)
    requires t0 <= t && Extends(p0, f0, t0, pa, fa) && Extends(pa, fa, t, pb, fb)
    ensures Extends(p0, f0, t0, pb, fb)
    ensures HoldFrom(pa, fa, t0, t, growth, disperse) && GenerationHolds(pb, fb, t, growth, disperse) ==>
              HoldFrom(pb, fb, t0, t + 1, growth, disperse)
  {
    if HoldFrom(pa, fa, t0, t, growth, disperse) && GenerationHolds(pb, fb, t, growth, disperse) {
      forall u | t0 <= u < t + 1 ensures GenerationHolds(pb, fb, u, growth, disperse) {
        if u < t {
          GenerationHoldsFrame(pa, fa, pb, fb, u, growth, disperse);
        }
      }
    }
  }

  // ------------------------------------------------------------- the databases

  /**
   * The databases agree with each other and with the last time: the flows are
   * consistent, positive and strictly before it; no size is recorded after
   * it; and every cached backward distribution is the one its flows define.
   */
  ghost predicate Agree<X(!new)>(f: map<Key<X, int>, int>, r: map<ReverseKey<X, int>, map<X, int>>,
                                 p: map<int, map<X, int>>, kernels: map<int, map<X, Discrete<X>>>, last: int)
  {
    Consistent(f, r)
    && (forall k: Key<X, int> :: k in f ==> k.time < last && f[k] > 0)
    && (forall rk: ReverseKey<X, int> :: rk in r ==> rk.time < last)
    && (forall u :: u in p ==> u <= last)
    && (forall x, u :: Has(kernels, x, u) ==> ReverseKey(x, u) in r && IsBackward(kernels[u][x], r[ReverseKey(x, u)]))
  }

  /** A generation at the last time `t` leaves the databases in agreement at `t + 1`. */
  lemma GenerationAgrees<X(!new)>(f: map<Key<X, int>, int>, r: map<ReverseKey<X, int>, map<X, int>>,
                                  p: map<int, map<X, int>>, kernels: map<int, map<X, Discrete<X>>>, t: int,
                                  growth: (X, int) -> nat, disperse: (X, int, nat) -> X, demes: seq<X>)
    requires Agree(f, r, p, kernels, t)
    requires t in p && Distinct(demes) && forall y :: y in demes <==> y in Support(p, t)
    ensures Agree(GenFlows(f, growth, disperse, t, demes), GenReverse(r, f, growth, disperse, t, demes),
                  GenSizes(p, growth, disperse, t, demes), kernels, t + 1)
  {
    var f2 := GenFlows(f, growth, disperse, t, demes);
    GenFlowsMeaning(f, growth, disperse, t, demes);
    GenReverseMeaning(r, f, growth, disperse, t, demes);
    GenSizesFrame(p, growth, disperse, t, demes);
    forall k: Key<X, int> | k in f2 ensures k.time < t + 1 && f2[k] > 0 {
      assert Get(f2, k) == f2[k];
    }
  }

  /** A generation at the last time `t`, over the demes of positive size at `t` each once, obeys its law. */
  lemma GenerationObeysLaw<X(!new)>(f: map<Key<X, int>, int>, r: map<ReverseKey<X, int>, map<X, int>>,
                                  p: map<int, map<X, int>>, kernels: map<int, map<X, Discrete<X>>>, t: int,
                                  growth: (X, int) -> nat, disperse: (X, int, nat) -> X, demes: seq<X>)
    requires Agree(f, r, p, kernels, t)
    requires t in p && Distinct(demes) && forall y :: y in demes <==> y in Support(p, t)
    ensures GenerationHolds(GenSizes(p, growth, disperse, t, demes), GenFlows(f, growth, disperse, t, demes), t, growth, disperse)
  {
    var p2 := GenSizes(p, growth, disperse, t, demes);
    GenSizesFrame(p, growth, disperse, t, demes);
    assert Support(p2, t) == Support(p, t);
    GenerationFlowsLaw(f, r, p, kernels, t, growth, disperse, demes);
    GenerationSizesLaw(p, t, growth, disperse, demes);
  }

  /** The flows of the generation are the emigrants of each deme of positive size. */
  lemma GenerationFlowsLaw<X(!new)>(f: map<Key<X, int>, int>, r: map<ReverseKey<X, int>, map<X, int>>,
                                    p: map<int, map<X, int>>, kernels: map<int, map<X, Discrete<X>>>, t: int,
                                    growth: (X, int) -> nat, disperse: (X, int, nat) -> X, demes: seq<X>)
    requires Agree(f, r, p, kernels, t)
    requires t in p && Distinct(demes) && forall y :: y in demes <==> y in Support(p, t)
    ensures forall x, y :: Get(GenFlows(f, growth, disperse, t, demes), Key(t, x, y))
                           == if x in Support(p, t) then Emigrants(disperse, x, t, growth(x, t))[y] else 0
  {
    GenFlowsMeaning(f, growth, disperse, t, demes);
  }

  /** The sizes at `t + 1` count the arrivals from the demes of positive size. */
  lemma GenerationSizesLaw<X(!new)>(p: map<int, map<X, int>>, t: int,
                                    growth: (X, int) -> nat, disperse: (X, int, nat) -> X, demes: seq<X>)
    requires t in p && Distinct(demes) && forall y :: y in demes <==> y in Support(p, t)
    requires forall u :: u in p ==> u <= t
    ensures Layer(GenSizes(p, growth, disperse, t, demes), t + 1) == Counts(Arrivals(growth, disperse, t, Support(p, t)))
  {
    GenSizesLayer(p, growth, disperse, t, demes);
    ArrivalsOfIsArrivals(growth, disperse, t, demes);
    assert (set x | x in demes) == Support(p, t);
    assert Layer(p, t + 1) == map[];
    AddArrivalsToEmpty(ArrivalsOf(growth, disperse, t, demes));
  }

  /** Arrivals into an empty layer give exactly their counts. */
  lemma AddArrivalsToEmpty<X>(a: multiset<X>)
    ensures AddArrivals(map[], a) == Counts(a)
  {
    var lhs, rhs := AddArrivals(map[], a), Counts(a);
    assert lhs.Keys == rhs.Keys;
  }

  /** A generation at `t` changes no size up to `t` and no flow before `t`. */
  lemma GenerationExtends<X(!new)>(f: map<Key<X, int>, int>, p: map<int, map<X, int>>, t: int,
                                   growth: (X, int) -> nat, disperse: (X, int, nat) -> X, demes: seq<X>)
    requires Distinct(demes)
    ensures Extends(p, f, t, GenSizes(p, growth, disperse, t, demes), GenFlows(f, growth, disperse, t, demes))
  {
    GenFlowsMeaning(f, growth, disperse, t, demes);
    GenSizesFrame(p, growth, disperse, t, demes);
  }

  /**
   * A generation at the last time `t`, over the demes of positive size at `t`
   * each once, leaves the databases in agreement at `t + 1`, obeys the law of
   * the generation, changes nothing before `t`, and produces no offspring
   * exactly when every deme drew none.
   */
  lemma GenerationEffect<X(!new)>(f: map<Key<X, int>, int>, r: map<ReverseKey<X, int>, map<X, int>>,
                                  p: map<int, map<X, int>>, kernels: map<int, map<X, Discrete<X>>>, t: int,
                                  growth: (X, int) -> nat, disperse: (X, int, nat) -> X, demes: seq<X>)
    requires Agree(f, r, p, kernels, t)
    requires t in p && Distinct(demes) && forall y :: y in demes <==> y in Support(p, t)
    ensures Agree(GenFlows(f, growth, disperse, t, demes), GenReverse(r, f, growth, disperse, t, demes),
                  GenSizes(p, growth, disperse, t, demes), kernels, t + 1)
    ensures GenerationHolds(GenSizes(p, growth, disperse, t, demes), GenFlows(f, growth, disperse, t, demes), t, growth, disperse)
    ensures Extends(p, f, t, GenSizes(p, growth, disperse, t, demes), GenFlows(f, growth, disperse, t, demes))
    ensures TotalGrowth(growth, t, demes) == 0 <==> forall x :: x in Support(p, t) ==> growth(x, t) == 0
    ensures TotalGrowth(growth, t, demes) > 0 ==> t + 1 in GenSizes(p, growth, disperse, t, demes)
  {
    GenerationAgrees(f, r, p, kernels, t, growth, disperse, demes);
    GenerationObeysLaw(f, r, p, kernels, t, growth, disperse, demes);
    GenerationExtends(f, p, t, growth, disperse, demes);
    TotalGrowthZero(growth, t, demes);
    GenSizesLayer(p, growth, disperse, t, demes);
  }

  /** Caching the backward distribution its flows define keeps the databases in agreement. */
  lemma CacheStep<X(!new)>(f: map<Key<X, int>, int>, r: map<ReverseKey<X, int>, map<X, int>>,
                           p: map<int, map<X, int>>, kernels: map<int, map<X, Discrete<X>>>, last: int,
                           x: X, u: int, d: Discrete<X>)
    requires Agree(f, r, p, kernels, last)
    requires ReverseKey(x, u) in r && IsBackward(d, r[ReverseKey(x, u)])
    ensures Agree(f, r, p, InsertInLayer(kernels, x, u, d), last)
  {
    InsertInLayerMeaning(kernels, x, u, d);
  }

  /** Caching as written, which replaces the whole layer by that one distribution, keeps the databases in agreement too. */
  lemma CacheReplaceStep<X(!new)>(f: map<Key<X, int>, int>, r: map<ReverseKey<X, int>, map<X, int>>,
                                  p: map<int, map<X, int>>, kernels: map<int, map<X, Discrete<X>>>, last: int,
                                  x: X, u: int, d: Discrete<X>)
    requires Agree(f, r, p, kernels, last)
    requires ReverseKey(x, u) in r && IsBackward(d, r[ReverseKey(x, u)])
    ensures Agree(f, r, p, ReplaceLayer(kernels, x, u, d), last)
  {
    ReplaceLayerMeaning(kernels, x, u, d);
  }

  /** Databases in agreement at `t` still agree at any later time. */
  lemma AgreeLater<X(!new)>(f: map<Key<X, int>, int>, r: map<ReverseKey<X, int>, map<X, int>>,
                            p: map<int, map<X, int>>, kernels: map<int, map<X, Discrete<X>>>, t: int, t2: int)
    requires Agree(f, r, p, kernels, t) && t <= t2
    ensures Agree(f, r, p, kernels, t2)
  {
  }

  /** Two writes at the same place: the second wins. */
  lemma WriteOver<X, T>(m: map<T, map<X, int>>, x: X, t: T, a: int, b: int)
    ensures Write(Write(m, x, t, a), x, t, b) == Write(m, x, t, b)
  {
    assert Layer(Write(m, x, t, a), t) == Layer(m, t)[x := a];
    assert Layer(m, t)[x := a][x := b] == Layer(m, t)[x := b];
  }

  /** The databases `f1`, `r1`, `p1` are `f0`, `r0`, `p0` after one individual moved from `x` to `y` at `t`. */
  ghost predicate UnitMove<X>(f0: map<Key<X, int>, int>, r0: map<ReverseKey<X, int>, map<X, int>>, p0: map<int, map<X, int>>,
                              x: X, y: X, t: int,
                              f1: map<Key<X, int>, int>, r1: map<ReverseKey<X, int>, map<X, int>>, p1: map<int, map<X, int>>)
  {
    f1 == SetForward(f0, x, y, t, Get(f0, Key(t, x, y)) + 1)
    && r1 == SetReverse(r0, x, y, t, Get(f0, Key(t, x, y)) + 1)
    && p1 == Write(p0, y, t + 1, Get(Layer(p0, t + 1), y) + 1)
  }

  /** One more individual of `x`: a unit flow to its destination and one more individual there. */
  lemma UnitStep<X>(f: map<Key<X, int>, int>, r: map<ReverseKey<X, int>, map<X, int>>, p: map<int, map<X, int>>,
                    disperse: (X, int, nat) -> X, x: X, t: int, ind: nat, y: X,
                    f0: map<Key<X, int>, int>, r0: map<ReverseKey<X, int>, map<X, int>>, p0: map<int, map<X, int>>,
                    f1: map<Key<X, int>, int>, r1: map<ReverseKey<X, int>, map<X, int>>, p1: map<int, map<X, int>>)
    requires ind >= 1
    requires f0 == FlowsAfter(f, disperse, x, t, ind - 1)
    requires r0 == ReverseAfter(r, f, disperse, x, t, ind - 1)
    requires p0 == SizesAfter(p, disperse, x, t, ind - 1)
    requires y == disperse(x, t, ind)
    requires UnitMove(f0, r0, p0, x, y, t, f1, r1, p1)
    ensures f1 == FlowsAfter(f, disperse, x, t, ind)
    ensures r1 == ReverseAfter(r, f, disperse, x, t, ind)
    ensures p1 == SizesAfter(p, disperse, x, t, ind)
  {
  }

  /** One more deme of the generation has sent its offspring away. */
  lemma DemeStep<X>(f: map<Key<X, int>, int>, r: map<ReverseKey<X, int>, map<X, int>>, p: map<int, map<X, int>>,
                    growth: (X, int) -> nat, disperse: (X, int, nat) -> X, t: int, demes: seq<X>, i: nat,
                    f0: map<Key<X, int>, int>, r0: map<ReverseKey<X, int>, map<X, int>>, p0: map<int, map<X, int>>,
                    f1: map<Key<X, int>, int>, r1: map<ReverseKey<X, int>, map<X, int>>, p1: map<int, map<X, int>>)
    requires i < |demes|
    requires f0 == GenFlows(f, growth, disperse, t, demes[..i])
    requires r0 == GenReverse(r, f, growth, disperse, t, demes[..i])
    requires p0 == GenSizes(p, growth, disperse, t, demes[..i])
    requires growth(demes[i], t) >= 1 ==> f1 == FlowsAfter(f0, disperse, demes[i], t, growth(demes[i], t))
    requires growth(demes[i], t) >= 1 ==> r1 == ReverseAfter(r0, f0, disperse, demes[i], t, growth(demes[i], t))
    requires growth(demes[i], t) >= 1 ==> p1 == SizesAfter(p0, disperse, demes[i], t, growth(demes[i], t))
    requires growth(demes[i], t) == 0 ==> f1 == f0 && r1 == r0 && p1 == p0
    ensures f1 == GenFlows(f, growth, disperse, t, demes[..i + 1])
    ensures r1 == GenReverse(r, f, growth, disperse, t, demes[..i + 1])
    ensures p1 == GenSizes(p, growth, disperse, t, demes[..i + 1])
    ensures TotalGrowth(growth, t, demes[..i + 1]) == TotalGrowth(growth, t, demes[..i]) + growth(demes[i], t)
  {
    assert demes[..i + 1][..i] == demes[..i];
  }

  // ------------------------------------------------------------- the history

  /** Each time is one more than the time before it. */
  ghost predicate Consecutive(ts: seq<int>)
  {
    forall i :: 0 < i < |ts| ==> ts[i] == ts[i - 1] + 1
  }

  /** Consecutive times run from the first one, one step per entry. */
  lemma {:induction false} ConsecutiveOffsets(ts: seq<int>)
    ensures Consecutive(ts) ==> forall i :: 0 <= i < |ts| ==> ts[i] == ts[0] + i
  {
    if Consecutive(ts) && |ts| > 1 {
      var init := ts[..|ts| - 1];
      assert Consecutive(init);
      ConsecutiveOffsets(init);
      assert forall i :: 0 <= i < |init| ==> ts[i] == init[i];
      assert ts[|ts| - 1] == ts[|ts| - 2] + 1;
    }
  }

  /** `History<Space, Time, individual_based>`, with the members of `BaseHistory`. */
  class History<X(==,!new)> {
    const sizes: PopulationSize<X, int>
    const flows: Flow<X, int>
    const kernel: TimedTransitionKernel<X, int, Discrete<X>>
    var times: seq<int>

    /** The times are consecutive and the databases agree with the last of them. */
    ghost predicate Valid()
      reads this, sizes, flows, kernel
    {
      |times| > 0
      && (forall i :: 0 < i < |times| ==> times[i] == times[i - 1] + 1)
      && Agree(flows.flows, flows.reverseFlows, sizes.populations, kernel.kernels, times[|times| - 1])
    }

    /** `BaseHistory(x, t, N)`: size `N` at `x` at the introduction time `t`, no flow yet. */
    constructor (x: X, t: int, n: nat)
      ensures sizes.populations == map[t := map[x := n]]
      ensures flows.flows == map[] && flows.reverseFlows == map[] && kernel.kernels == map[]
      ensures times == [t] && FirstTime() == t && LastTime() == t
      ensures fresh(sizes) && fresh(flows) && fresh(kernel)
      ensures Valid()
    {
      var s := new PopulationSize<X, int>();
      s.AssignAt(x, t, n);
      assert Layer<X, int>(map[], t) == map[];
      sizes := s;
      flows := new Flow<X, int>();
      kernel := new TimedTransitionKernel<X, int, Discrete<X>>();
      times := [t];
    }

    /** `first_time()`: the introduction time, the earliest of the consecutive times. */
    function FirstTime(): (r: int)
      requires |times| > 0
      reads this
      ensures r in times
      ensures Consecutive(times) ==> forall i :: 0 <= i < |times| ==> r <= times[i]
    {
      ConsecutiveOffsets(times);
      times[0]
    }

    /** `last_time()`: the latest time, `|times| - 1` generations after the first. */
    function LastTime(): (r: int)
      requires |times| > 0
      reads this
      ensures r in times
      ensures Consecutive(times) ==> r == times[0] + |times| - 1 && forall i :: 0 <= i < |times| ==> times[i] <= r
    {
      ConsecutiveOffsets(times);
      times[|times| - 1]
    }

    /** `make_backward_distribution(x, t)`: the origins of the flux to `x` at `t`, weighted by their flows. */
    method MakeBackwardDistribution(x: X, t: int) returns (d: Discrete<X>)
      requires flows.FluxToIsDefined(x, t)
      ensures IsBackward(d, flows.FluxTo(x, t))
    {
      var origins := flows.FluxTo(x, t);
      var support: seq<X> := [];
      var weights: seq<int> := [];
      var rest := origins.Keys;
      while rest != {}
        invariant rest <= origins.Keys
        invariant |support| == |weights|
        invariant forall i, j :: 0 <= i < j < |support| ==> support[i] != support[j]
        invariant forall y :: y in support <==> y in origins && y !in rest
        invariant forall i :: 0 <= i < |support| ==> weights[i] == origins[support[i]]
        decreases |rest|
      {
        var y :| y in rest;
        support := support + [y];
        weights := weights + [origins[y]];
        rest := rest - {y};
      }
      d := Discrete(support, weights);
    }

    /**
     * `backward_kernel(x, t, gen)`: asserts some flow converges to `x` at
     * `t - 1`, builds and caches its backward distribution when none is cached,
     * and samples the cached one.  The cache holds the distribution of the
     * flows: its support is the origins and its weights the flows from them.
     * Caching goes through `set` as written, so a new distribution at `t - 1`
     * evicts the others cached at that time.
     */
    method BackwardKernel(x: X, t: int, draw: Discrete<X> -> X) returns (y: X)
      requires Valid()
      requires flows.FluxToIsDefined(x, t - 1)
      modifies kernel
      ensures Valid()
      ensures kernel.HasDistribution(x, t - 1) && y == draw(kernel.kernels[t - 1][x])
      ensures IsBackward(kernel.kernels[t - 1][x], flows.FluxTo(x, t - 1))
      ensures old(kernel.HasDistribution(x, t - 1)) ==> kernel.kernels == old(kernel.kernels)
      ensures !old(kernel.HasDistribution(x, t - 1)) ==>
                kernel.kernels == ReplaceLayer(old(kernel.kernels), x, t - 1, kernel.kernels[t - 1][x])
    {
      var u := t - 1;
      if !kernel.HasDistribution(x, u) {
        var d := MakeBackwardDistribution(x, u);
        kernel.SetAsWritten(x, u, d);
        CacheReplaceStep(flows.flows, flows.reverseFlows, sizes.populations, old(kernel.kernels), LastTime(), x, u, d);
      }
      y := kernel.Sample(draw, x, u);
    }

    /** One individual moves from `x` to `y` at `t`: a unit flow, and one more individual at `y` at `t + 1`. */
    method MoveOne(x: X, y: X, t: int)
      requires flows.Valid()
      modifies flows, sizes
      ensures flows.Valid()
      ensures flows.flows == SetForward(old(flows.flows), x, y, t, Get(old(flows.flows), Key(t, x, y)) + 1)
      ensures flows.reverseFlows == SetReverse(old(flows.reverseFlows), x, y, t, Get(old(flows.flows), Key(t, x, y)) + 1)
      ensures sizes.populations == Write(old(sizes.populations), y, t + 1, Get(Layer(old(sizes.populations), t + 1), y) + 1)
      ensures UnitMove(old(flows.flows), old(flows.reverseFlows), old(sizes.populations), x, y, t,
                       flows.flows, flows.reverseFlows, sizes.populations)
    {
      flows.AddToFluxFromTo(x, y, t, 1);
      ghost var f1, r1 := flows.flows, flows.reverseFlows;
      var size := sizes.At(y, t + 1);
      ghost var pMid := sizes.populations;
      sizes.AssignAt(y, t + 1, size + 1);
      assert flows.flows == f1 && flows.reverseFlows == r1;
      WriteOver(old(sizes.populations), y, t + 1, size, size + 1);
    }

    /**
     * The inner loop of `expand` for one deme: each of the `n` individuals of
     * `x` adds a unit flow from `x` to its destination and one to the size
     * there at `t + 1`.
     */
    method DisperseFrom(x: X, t: int, n: nat, disperse: (X, int, nat) -> X)
      requires flows.Valid()
      modifies flows, sizes
      ensures flows.Valid()
      ensures flows.flows == FlowsAfter(old(flows.flows), disperse, x, t, n)
      ensures flows.reverseFlows == ReverseAfter(old(flows.reverseFlows), old(flows.flows), disperse, x, t, n)
      ensures sizes.populations == SizesAfter(old(sizes.populations), disperse, x, t, n)
    {
      ghost var f, r, p := flows.flows, flows.reverseFlows, sizes.populations;
      var ind := 1;
      while ind <= n
        invariant 1 <= ind <= n + 1
        invariant flows.Valid()
        invariant flows.flows == FlowsAfter(f, disperse, x, t, ind - 1)
        invariant flows.reverseFlows == ReverseAfter(r, f, disperse, x, t, ind - 1)
        invariant sizes.populations == SizesAfter(p, disperse, x, t, ind - 1)
      {
        var y := disperse(x, t, ind);
        ghost var f0, r0, p0 := flows.flows, flows.reverseFlows, sizes.populations;
        MoveOne(x, y, t);
        ghost var f1, r1, p1 := flows.flows, flows.reverseFlows, sizes.populations;
        UnitStep(f, r, p, disperse, x, t, ind, y, f0, r0, p0, f1, r1, p1);
        ind := ind + 1;
      }
    }

    /** The loop of `expand` over the demes: each sends its offspring away in turn; the offspring are counted. */
    method DisperseAll(demes: seq<X>, t: int, growth: (X, int) -> nat, disperse: (X, int, nat) -> X) returns (count: nat)
      requires flows.Valid()
      modifies flows, sizes
      ensures flows.Valid()
      ensures flows.flows == GenFlows(old(flows.flows), growth, disperse, t, demes)
      ensures flows.reverseFlows == GenReverse(old(flows.reverseFlows), old(flows.flows), growth, disperse, t, demes)
      ensures sizes.populations == GenSizes(old(sizes.populations), growth, disperse, t, demes)
      ensures count == TotalGrowth(growth, t, demes)
    {
      count := 0;
      var i := 0;
      while i < |demes|
        invariant 0 <= i <= |demes|
        invariant flows.Valid()
        invariant flows.flows == GenFlows(old(flows.flows), growth, disperse, t, demes[..i])
        invariant flows.reverseFlows == GenReverse(old(flows.reverseFlows), old(flows.flows), growth, disperse, t, demes[..i])
        invariant sizes.populations == GenSizes(old(sizes.populations), growth, disperse, t, demes[..i])
        invariant count == TotalGrowth(growth, t, demes[..i])
      {
        var x := demes[i];
        var nTilde := growth(x, t);
        count := count + nTilde;
        ghost var f1, r1, p1 := flows.flows, flows.reverseFlows, sizes.populations;
        if nTilde >= 1 {
          DisperseFrom(x, t, nTilde, disperse);
        }
        DemeStep(old(flows.flows), old(flows.reverseFlows), old(sizes.populations), growth, disperse, t, demes, i,
                 f1, r1, p1, flows.flows, flows.reverseFlows, sizes.populations);
        i := i + 1;
      }
      assert demes[..i] == demes;
    }

    /**
     * One generation of `expand`: appends `t + 1` to the times, disperses the
     * offspring of every deme of the definition space at `t`, and reports
     * extinction when no offspring was produced.  The `out_of_range` of
     * `definition_space` when no size is recorded at `t` propagates.
     */
    method Generation(growth: (X, int) -> nat, disperse: (X, int, nat) -> X) returns (r: Outcome)
      requires Valid()
      modifies this, flows, sizes
      ensures Valid()
      ensures times == old(times) + [old(LastTime()) + 1]
      ensures r == Fail(OutOfRange) <==> old(LastTime()) !in old(sizes.populations)
      ensures r == Fail(DomainError) <==>
                old(LastTime()) in old(sizes.populations) &&
                forall x :: x in old(Support(sizes.populations, LastTime())) ==> growth(x, old(LastTime())) == 0
      ensures r.Pass? || r == Fail(OutOfRange) || r == Fail(DomainError)
      ensures r.Pass? ==> GenerationHolds(sizes.populations, flows.flows, old(LastTime()), growth, disperse)
      ensures r.Pass? ==> LastTime() in sizes.populations
      ensures Extends(old(sizes.populations), old(flows.flows), old(LastTime()), sizes.populations, flows.flows)
      ensures kernel.kernels == old(kernel.kernels)
    {
      ghost var f0, r0, p0 := flows.flows, flows.reverseFlows, sizes.populations;
      var t := LastTime();
      times := times + [t + 1];
      var space := sizes.DefinitionSpace(t);
      if space.Failure? {
        AgreeLater(f0, r0, p0, kernel.kernels, t, t + 1);
        r := Fail(OutOfRange);
      } else {
        r := Reproduce(space.value, t, growth, disperse);
      }
    }

    /** The body of a generation once the definition space `demes` at `t` is known. */
    method Reproduce(demes: seq<X>, t: int, growth: (X, int) -> nat, disperse: (X, int, nat) -> X) returns (r: Outcome)
      requires Agree(flows.flows, flows.reverseFlows, sizes.populations, kernel.kernels, t)
      requires t in sizes.populations && Distinct(demes)
      requires forall y :: y in demes <==> y in Support(sizes.populations, t)
      modifies flows, sizes
      ensures Agree(flows.flows, flows.reverseFlows, sizes.populations, kernel.kernels, t + 1)
      ensures r == Fail(DomainError) <==> forall x :: x in old(Support(sizes.populations, t)) ==> growth(x, t) == 0
      ensures r.Pass? || r == Fail(DomainError)
      ensures r.Pass? ==> GenerationHolds(sizes.populations, flows.flows, t, growth, disperse)
      ensures r.Pass? ==> t + 1 in sizes.populations
      ensures Extends(old(sizes.populations), old(flows.flows), t, sizes.populations, flows.flows)
    {
      ghost var f0, r0, p0 := flows.flows, flows.reverseFlows, sizes.populations;
      var count := DisperseAll(demes, t, growth, disperse);
      GenerationEffect(f0, r0, p0, kernel.kernels, t, growth, disperse, demes);
      r := if count == 0 then Fail(DomainError) else Pass;
    }

    /**
     * `expand(nb_generations, sim_growth, kernel, gen)`: simulates the
     * generations one after another, each appending the next time, until
     * all are done or the landscape goes extinct.
     */
    method Expand(nbGenerations: nat, growth: (X, int) -> nat, disperse: (X, int, nat) -> X) returns (r: Outcome)
      requires Valid()
      modifies this, flows, sizes
      ensures Valid()
      ensures r.Pass? || r == Fail(OutOfRange) || r == Fail(DomainError)
      ensures |old(times)| < |times| <= |old(times)| + nbGenerations || (nbGenerations == 0 && times == old(times))
      ensures times[..|old(times)|] == old(times)
      ensures r.Pass? ==> |times| == |old(times)| + nbGenerations && LastTime() == old(LastTime()) + nbGenerations
      ensures old(LastTime() in sizes.populations) ==> r != Fail(OutOfRange)
      ensures r.Pass? ==> HoldFrom(sizes.populations, flows.flows, old(LastTime()), LastTime(), growth, disperse)
      ensures Extends(old(sizes.populations), old(flows.flows), old(LastTime()), sizes.populations, flows.flows)
    {
      ghost var p0, f0, times0 := sizes.populations, flows.flows, times;
      ghost var t0 := LastTime();
      r := Pass;
      var g := 0;
      while g < nbGenerations && r.Pass?
        invariant 0 <= g <= nbGenerations
        invariant Valid()
        invariant r.Pass? || r == Fail(OutOfRange) || r == Fail(DomainError)
        invariant !r.Pass? ==> g > 0
        invariant |times| == |times0| + g && times[..|times0|] == times0
        invariant LastTime() == t0 + g
        invariant r.Pass? && g > 0 ==> LastTime() in sizes.populations
        invariant r == Fail(OutOfRange) ==> t0 !in p0
        invariant r.Pass? ==> HoldFrom(sizes.populations, flows.flows, t0, LastTime(), growth, disperse)
        invariant Extends(p0, f0, t0, sizes.populations, flows.flows)
      {
        ghost var pa, fa, last := sizes.populations, flows.flows, LastTime();
        r := Generation(growth, disperse);
        ExpandStep(p0, f0, t0, pa, fa, last, sizes.populations, flows.flows, growth, disperse);
        g := g + 1;
      }
    }
  }
}
