// Demographic flows across a landscape: the number of individuals moving from
// deme `from` to deme `to` at time `t`, stored twice — by (time, from, to),
// and by (to, time) then origin — so that the flows converging to a deme can
// be read at once.

module Flows {

  /** `key_type`: time, origin and destination of a flow. */
  datatype Key<X, T> = Key(time: T, from: X, to: X)

  /** `reverse_key_type`: destination and time. */
  datatype ReverseKey<X, T> = ReverseKey(to: X, time: T)

  function Get<K>(m: map<K, int>, k: K): int
  {
    if k in m then m[k] else 0
  }

  /** The origins converging to `rk`, empty when none was stored. */
  function Origins<X(==), T(==)>(r: map<ReverseKey<X, T>, map<X, int>>, rk: ReverseKey<X, T>): map<X, int>
  {
    if rk in r then r[rk] else map[]
  }

  /** Both indexes hold the same flows: every forward entry appears in the reverse index, and back. */
  ghost predicate Consistent<X, T>(f: map<Key<X, T>, int>, r: map<ReverseKey<X, T>, map<X, int>>)
  {
    (forall k {:trigger f[k]} :: k in f ==>
       ReverseKey(k.to, k.time) in r && k.from in r[ReverseKey(k.to, k.time)] && r[ReverseKey(k.to, k.time)][k.from] == f[k]) &&
    (forall rk, x {:trigger r[rk][x]} :: rk in r && x in r[rk] ==> Key(rk.time, x, rk.to) in f && f[Key(rk.time, x, rk.to)] == r[rk][x])
  }

  /** The forward index after `m_flows[key] = v`. */
  function SetForward<X(==), T(==)>(f: map<Key<X, T>, int>, from: X, to: X, t: T, v: int): map<Key<X, T>, int>
  {
    f[Key(t, from, to) := v]
  }

  /** The reverse index after `m_reverse_flows[(to, t)][from] = v`. */
  function SetReverse<X(==), T(==)>(r: map<ReverseKey<X, T>, map<X, int>>, from: X, to: X, t: T, v: int)
    : map<ReverseKey<X, T>, map<X, int>>
  {
    r[ReverseKey(to, t) := Origins(r, ReverseKey(to, t))[from := v]]
  }

  /** Writing the same value at the matching place of both indexes keeps them consistent. */
  lemma SetKeepsConsistent<X, T>(f: map<Key<X, T>, int>, r: map<ReverseKey<X, T>, map<X, int>>,
                                 from: X, to: X, t: T, v: int)
    requires Consistent(f, r)
    ensures Consistent(SetForward(f, from, to, t, v), SetReverse(r, from, to, t, v))
  {
    var f2, r2 := SetForward(f, from, to, t, v), SetReverse(r, from, to, t, v);
    forall k | k in f2
      ensures ReverseKey(k.to, k.time) in r2 && k.from in r2[ReverseKey(k.to, k.time)] &&
              r2[ReverseKey(k.to, k.time)][k.from] == f2[k]
    {
      if k != Key(t, from, to) {
        assert k in f;
      }
    }
    forall rk, x | rk in r2 && x in r2[rk]
      ensures Key(rk.time, x, rk.to) in f2 && f2[Key(rk.time, x, rk.to)] == r2[rk][x]
    {
      if rk != ReverseKey(to, t) || x != from {
        assert rk in r && x in r[rk];
      }
    }
  }

  /** In consistent indexes the forward value equals the reverse one, stored or not. */
  lemma ConsistentGet<X, T>(f: map<Key<X, T>, int>, r: map<ReverseKey<X, T>, map<X, int>>, from: X, to: X, t: T)
    requires Consistent(f, r)
    ensures Get(f, Key(t, from, to)) == Get(Origins(r, ReverseKey(to, t)), from)
  {
    var rk := ReverseKey(to, t);
    if rk in r && from in r[rk] {
      assert Key(rk.time, from, rk.to) == Key(t, from, to);
    }
  }

  /** `Flow`: the flows in both indexes. */
  class Flow<X(==,!new), T(==)> {
    var flows: map<Key<X, T>, int>
    var reverseFlows: map<ReverseKey<X, T>, map<X, int>>

    ghost predicate Valid()
      reads this
    {
      Consistent(flows, reverseFlows)
    }

    /** The default constructor: no flow is stored. */
    constructor ()
      ensures flows == map[] && reverseFlows == map[]
      ensures Valid()
    {
      flows := map[];
      reverseFlows := map[];
    }

    /** `flux_from_to(from, to, t)`: asserts the flow is stored and reads it. */
    function FluxFromTo(from: X, to: X, t: T): (v: int)
      requires Key(t, from, to) in flows
      reads this
      ensures Valid() ==> ReverseKey(to, t) in reverseFlows && v == reverseFlows[ReverseKey(to, t)][from]
    {
      flows[Key(t, from, to)]
    }

    /** `set_flux_from_to(from, to, t, v)`: writes `v` in both indexes. */
    method SetFluxFromTo(from: X, to: X, t: T, v: int)
      requires Valid()
      modifies this
      ensures flows == SetForward(old(flows), from, to, t, v)
      ensures reverseFlows == SetReverse(old(reverseFlows), from, to, t, v)
      ensures Valid()
    {
      flows := flows[Key(t, from, to) := v];
      var rk := ReverseKey(to, t);
      var origins := if rk in reverseFlows then reverseFlows[rk] else map[];
      reverseFlows := reverseFlows[rk := origins[from := v]];
      SetKeepsConsistent(old(flows), old(reverseFlows), from, to, t, v);
    }

    /** `add_to_flux_from_to(from, to, t, v)`: adds `v` in both indexes, an absent flow counting as 0. */
    method AddToFluxFromTo(from: X, to: X, t: T, v: int)
      requires Valid()
      modifies this
      ensures flows == SetForward(old(flows), from, to, t, Get(old(flows), Key(t, from, to)) + v)
      ensures reverseFlows == SetReverse(old(reverseFlows), from, to, t, Get(old(flows), Key(t, from, to)) + v)
      ensures Valid()
    {
      var k := Key(t, from, to);
      var sum := Get(flows, k) + v;
      flows := flows[k := sum];
      var rk := ReverseKey(to, t);
      var origins := if rk in reverseFlows then reverseFlows[rk] else map[];
      ConsistentGet(old(flows), old(reverseFlows), from, to, t);
      reverseFlows := reverseFlows[rk := origins[from := Get(origins, from) + v]];
      SetKeepsConsistent(old(flows), old(reverseFlows), from, to, t, sum);
    }

    /** `flux_to_is_defined(to, t)`: some flow converging to `to` at `t` was written. */
    predicate FluxToIsDefined(to: X, t: T)
      reads this
      ensures Consistent(flows, reverseFlows) ==> forall from :: Key(t, from, to) in flows ==> FluxToIsDefined(to, t)
    {
      ReverseKey(to, t) in reverseFlows
    }

    /** `flux_to(x, t)`: asserts it is defined, then the origins with their flows. */
    function FluxTo(x: X, t: T): (origins: map<X, int>)
      requires FluxToIsDefined(x, t)
      reads this
      ensures Valid() ==> forall y :: y in origins <==> Key(t, y, x) in flows
      ensures Valid() ==> forall y :: y in origins ==> origins[y] == flows[Key(t, y, x)]
    {
      reverseFlows[ReverseKey(x, t)]
    }
  }

  /**
   * The unit test's scenario: nothing is defined at first; after setting
   * Paris → Bordeaux to 12 and adding 1 to Bordeaux → Bordeaux, the flux to
   * Bordeaux is defined and both flows read back.
   */
  method FlowScenario()
  {
    var phi := new Flow<string, int>();
    assert !phi.FluxToIsDefined("Paris", 2017);
    phi.SetFluxFromTo("Paris", "Bordeaux", 2017, 12);
    phi.AddToFluxFromTo("Bordeaux", "Bordeaux", 2017, 1);
    assert phi.FluxToIsDefined("Bordeaux", 2017);
    assert phi.FluxFromTo("Paris", "Bordeaux", 2017) == 12;
    assert phi.FluxFromTo("Bordeaux", "Bordeaux", 2017) == 1;
    assert phi.FluxTo("Bordeaux", 2017).Keys == {"Paris", "Bordeaux"};
  }
}
