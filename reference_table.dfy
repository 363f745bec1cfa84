// `ReferenceTable`: the table of (parameter, simulated data) pairs that an
// approximate Bayesian computation accumulates, and its two transforms.

module ReferenceTable {

  /** The `Cont<ParamType, DataType>` entry: its `param()` and its `data()`. */
  datatype Entry<P, D> = Entry(param: P, data: D)

  /** The table `eta` gives: same parameters in order, data transformed entry by entry. */
  function MapData<P, D, S>(entries: seq<Entry<P, D>>, f: D -> S): (r: seq<Entry<P, S>>)
    ensures |r| == |entries|
    ensures forall i :: 0 <= i < |r| ==> r[i].param == entries[i].param && r[i].data == f(entries[i].data)
  {
    if entries == [] then [] else [Entry(entries[0].param, f(entries[0].data))] + MapData(entries[1..], f)
  }

  class ReferenceTable<P, D> {
    var table: seq<Entry<P, D>>

    constructor ()
      ensures table == []
    {
      table := [];
    }

    /** `size()`: the number of entries, 0 exactly for an empty table. */
    function Size(): (n: nat)
      reads this
      ensures n == 0 <==> table == []
    {
      |table|
    }

    /** `push_back(sample)` (copy and move alike): appends the entry at the end. */
    method PushBack(sample: Entry<P, D>)
      modifies this
      ensures table == old(table) + [sample] && Size() == old(Size()) + 1
    {
      table := table + [sample];
    }

    /** `emplace_back(param, data)`: appends the entry built from its two parts. */
    method EmplaceBack(param: P, data: D)
      modifies this
      ensures table == old(table) + [Entry(param, data)] && Size() == old(Size()) + 1
    {
      table := table + [Entry(param, data)];
    }

    /** `compute_summary_statistics(eta)`: a new table of `(param, eta(data))`; this table is not modified. */
    method ComputeSummaryStatistics<S>(eta: D -> S) returns (s: ReferenceTable<P, S>)
      ensures fresh(s) && s.table == MapData(table, eta)
    {
      s := new ReferenceTable();
      var i := 0;
      while i < |table|
        invariant 0 <= i <= |table| && s.table == MapData(table[..i], eta)
        modifies s
      {
        Prefix(table, i, eta);
        s.EmplaceBack(table[i].param, eta(table[i].data));
        i := i + 1;
      }
      assert table[..i] == table;
    }

    /** `compute_distance_to(obs, rho)`: a new table of `(param, rho(obs, data))`; this table is not modified. */
    method ComputeDistanceTo<R>(obs: D, rho: (D, D) -> R) returns (s: ReferenceTable<P, R>)
      ensures fresh(s) && s.table == MapData(table, d => rho(obs, d))
    {
      s := ComputeSummaryStatistics(d => rho(obs, d));
    }
  }

  /** Extending the prefix by one entry extends the transformed table by one entry. */
  lemma Prefix<P, D, S>(entries: seq<Entry<P, D>>, i: nat, f: D -> S)
    requires i < |entries|
    ensures MapData(entries[..i + 1], f) == MapData(entries[..i], f) + [Entry(entries[i].param, f(entries[i].data))]
  {
  }

  /** Both transforms keep the size and the parameters, in order, and transform nothing but the data. */
  lemma MapDataKeepsParameters<P, D, S>(entries: seq<Entry<P, D>>, f: D -> S)
    ensures |MapData(entries, f)| == |entries|
    ensures forall i :: 0 <= i < |entries| ==> MapData(entries, f)[i].param == entries[i].param
  {
  }

  /** Transforming twice is transforming once by the composition. */
  lemma {:induction false} MapDataCompose<P, D, S, U>(entries: seq<Entry<P, D>>, f: D -> S, g: S -> U)
    ensures MapData(MapData(entries, f), g) == MapData(entries, d => g(f(d)))
  {
    var lhs := MapData(MapData(entries, f), g);
    var rhs := MapData(entries, d => g(f(d)));
    assert |lhs| == |rhs|;
    forall i | 0 <= i < |lhs|
      ensures lhs[i] == rhs[i]
    {
    }
  }
}
