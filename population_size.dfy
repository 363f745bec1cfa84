// The population size of every deme at every time: a map from time to a map
// from deme to size, updated in place.

module PopulationSizes {
  import opened Common

  /** Whether the size at deme `x` and time `t` has been written. */
  predicate DefinedIn<X, T>(m: map<T, map<X, int>>, x: X, t: T)
  {
    t in m && x in m[t]
  }

  /** The layer of sizes at time `t`, empty when none was written. */
  function Layer<X, T>(m: map<T, map<X, int>>, t: T): map<X, int>
  {
    if t in m then m[t] else map[]
  }

  /** `m_populations[t][x] = N`: creates the layer if needed, then writes the entry. */
  function Write<X, T>(m: map<T, map<X, int>>, x: X, t: T, n: int): map<T, map<X, int>>
  {
    m[t := Layer(m, t)[x := n]]
  }

  /** The demes with a positive size at `t`. */
  function Support<X, T>(m: map<T, map<X, int>>, t: T): set<X>
    requires t in m
  {
    set y | y in m[t] && m[t][y] > 0
  }

  /** After a write the entry is defined and holds the value; every other entry is as it was. */
  lemma WriteThenRead<X, T>(m: map<T, map<X, int>>, x: X, t: T, n: int)
    ensures DefinedIn(Write(m, x, t, n), x, t) && Write(m, x, t, n)[t][x] == n
    ensures forall y, u :: (y != x || u != t) ==>
              (DefinedIn(Write(m, x, t, n), y, u) <==> DefinedIn(m, y, u))
    ensures forall y, u :: (y != x || u != t) && DefinedIn(m, y, u) ==> Write(m, x, t, n)[u][y] == m[u][y]
  {
  }

  /** A write at `t` puts `x` in the definition space at `t` exactly when the size is positive, and keeps the other demes. */
  lemma WriteSupport<X, T>(m: map<T, map<X, int>>, x: X, t: T, n: int)
    ensures x in Support(Write(m, x, t, n), t) <==> n > 0
    ensures forall y :: y != x ==> (y in Support(Write(m, x, t, n), t) <==> DefinedIn(m, y, t) && m[t][y] > 0)
  {
  }

  /** `PopulationSize`: the size of each deme at each time. */
  class PopulationSize<X(==), T(==)> {
    var populations: map<T, map<X, int>>

    /** The default constructor: nothing is defined. */
    constructor ()
      ensures populations == map[]
    {
      populations := map[];
    }

    /** `is_defined(x, t)`: a layer for `t` exists and has an entry for `x`. */
    predicate IsDefined(x: X, t: T)
      reads this
      ensures IsDefined(x, t) <==> t in populations && x in populations[t]
      ensures populations == map[] ==> !IsDefined(x, t)
    {
      populations != map[] && t in populations && x in populations[t]
    }

    /** `set(x, t, N)`: asserts a non-negative size, then writes it. */
    method Set(x: X, t: T, n: int)
      requires n >= 0
      modifies this
      ensures populations == Write(old(populations), x, t, n)
      ensures IsDefined(x, t) && populations[t][x] == n
    {
      var layer := if t in populations then populations[t] else map[];
      populations := populations[t := layer[x := n]];
      assert t in populations;
    }

    /** `get(x, t)`, and the const `operator()(x, t)`: asserts the entry is defined and reads it. */
    function Get(x: X, t: T): (n: int)
      requires IsDefined(x, t)
      reads this
      ensures DefinedIn(populations, x, t) && n == populations[t][x]
    {
      populations[t][x]
    }

    /** The mutable `operator()(x, t)`: the entry, created with size 0 when absent. */
    method At(x: X, t: T) returns (n: int)
      modifies this
      ensures populations == Write(old(populations), x, t, n)
      ensures DefinedIn(old(populations), x, t) ==> n == old(populations[t][x])
      ensures !DefinedIn(old(populations), x, t) ==> n == 0
      ensures IsDefined(x, t)
    {
      var layer := if t in populations then populations[t] else map[];
      n := if x in layer then layer[x] else 0;
      populations := populations[t := layer[x := n]];
      assert t in populations;
    }

    /** `operator()(x, t) = n`: a write through the reference, without the check of `set`. */
    method AssignAt(x: X, t: T, n: int)
      modifies this
      ensures populations == Write(old(populations), x, t, n)
    {
      var layer := if t in populations then populations[t] else map[];
      populations := populations[t := layer[x := n]];
    }

    /**
     * `definition_space(t)`: the demes of positive size at `t`, each once, in
     * the map's iteration order; an `out_of_range` when no layer exists for `t`.
     */
    method DefinitionSpace(t: T) returns (r: Result<seq<X>>)
      ensures r.Failure? <==> t !in populations
      ensures r.Failure? ==> r.error == OutOfRange
      ensures r.Success? ==> (forall y :: y in r.value <==> y in Support(populations, t))
      ensures r.Success? ==> forall i, j :: 0 <= i < j < |r.value| ==> r.value[i] != r.value[j]
    {
      if t !in populations {
        return Failure(OutOfRange);
      }
      var layer := populations[t];
      var rest := layer.Keys;
      var v: seq<X> := [];
      while rest != {}
        invariant rest <= layer.Keys
        invariant forall y :: y in v <==> y in layer.Keys - rest && layer[y] > 0
        invariant forall i, j :: 0 <= i < j < |v| ==> v[i] != v[j]
        decreases |rest|
      {
        var y :| y in rest;
        if layer[y] > 0 {
          v := v + [y];
        }
        rest := rest - {y};
      }
      r := Success(v);
    }
  }

  /** The unit test's scenario: one write through `operator()` makes one deme defined, and the definition space holds it alone. */
  lemma PopSizeScenario()
    ensures !DefinedIn<string, int>(map[], "Paris", 2017)
    ensures var m := Write(map[], "Paris", 2017, 12);
            DefinedIn(m, "Paris", 2017) && m[2017]["Paris"] == 12 && Support(m, 2017) == {"Paris"}
  {
    var m := Write(map[], "Paris", 2017, 12);
    assert m[2017] == map["Paris" := 12];
    WriteSupport(map[], "Paris", 2017, 12);
  }
}
