// `SpatialGeneticSample`: genotyped individuals grouped by sampling location,
// with the counts of gene copies and the allelic richness at one locus.  An
// individual is represented by the allelic states of its two alleles at each
// of its loci; a state of 0 or less is missing data.

module SpatialGeneticSample {
  import opened Common

  /** One individual: the allelic states of its pair of alleles, per locus. */
  datatype Genotype = Genotype(loci: map<string, (int, int)>)

  /** Every individual in `inds` is genotyped at `locus`. */
  predicate GenotypedAt(inds: seq<Genotype>, locus: string)
  {
    forall i :: 0 <= i < |inds| ==> locus in inds[i].loci
  }

  function Get(m: map<int, nat>, s: int): nat
  {
    if s in m then m[s] else 0
  }

  /** Counts one more copy of state `s`, unless `s` is missing data. */
  function Bump(m: map<int, nat>, s: int): map<int, nat>
  {
    if s > 0 then m[s := Get(m, s) + 1] else m
  }

  /** The counts the inner loop of `nb_gene_copies_discarding_NA` builds at one location. */
  function CopiesOf(inds: seq<Genotype>, locus: string): map<int, nat>
    requires GenotypedAt(inds, locus)
    decreases |inds|
  {
    if |inds| == 0 then map[]
    else
      var pair := inds[|inds| - 1].loci[locus];
      Bump(Bump(CopiesOf(inds[..|inds| - 1], locus), pair.0), pair.1)
  }

  /** The number of allele slots in `inds` holding state `s` at `locus`. */
  function StateCount(inds: seq<Genotype>, locus: string, s: int): nat
    requires GenotypedAt(inds, locus)
    decreases |inds|
  {
    if |inds| == 0 then 0
    else
      var pair := inds[|inds| - 1].loci[locus];
      StateCount(inds[..|inds| - 1], locus, s) + (if pair.0 == s then 1 else 0) + (if pair.1 == s then 1 else 0)
  }

  /** The counts hold exactly the present states, each with the number of copies carrying it. */
  lemma {:induction false} CopiesOfMeaning(inds: seq<Genotype>, locus: string, s: int)
    requires GenotypedAt(inds, locus)
    ensures s in CopiesOf(inds, locus) <==> s > 0 && StateCount(inds, locus, s) > 0
    ensures s in CopiesOf(inds, locus) ==> CopiesOf(inds, locus)[s] == StateCount(inds, locus, s)
    decreases |inds|
  {
    if |inds| > 0 {
      CopiesOfMeaning(inds[..|inds| - 1], locus, s);
    }
  }

  class SpatialGeneticSample<X(==)> {
    var loci: set<string>
    var locations: set<X>
    var dictionary: map<X, seq<Genotype>>

    /** The sampling points are the locations of the dictionary. */
    ghost predicate Valid()
      reads this
    {
      locations == dictionary.Keys
    }

    /** The default constructor: an empty sample. */
    constructor Default()
      ensures loci == {} && locations == {} && dictionary == map[] && Valid()
    {
      loci := {};
      locations := {};
      dictionary := map[];
    }

    /**
     * The constructor from a map of locations to individuals: the map must be
     * non-empty, every location must hold someone, and all individuals must
     * have the same non-empty set of loci, which becomes the sample's.
     */
    constructor (data: map<X, seq<Genotype>>)
      requires data != map[]
      requires forall x :: x in data ==> |data[x]| > 0 && data[x][0].loci != map[]
      requires forall x, y, i, j :: x in data && y in data && 0 <= i < |data[x]| && 0 <= j < |data[y]| ==>
                 data[x][i].loci.Keys == data[y][j].loci.Keys
      ensures dictionary == data && locations == data.Keys && Valid()
      ensures loci != {} && forall x, i :: x in data && 0 <= i < |data[x]| ==> data[x][i].loci.Keys == loci
    {
      var x0 :| x0 in data;
      var first := data[x0][0];
      assert first.loci.Keys != {} by {
        var l :| l in first.loci;
      }
      loci := first.loci.Keys;
      locations := data.Keys;
      dictionary := data;
    }

    /** `add(x, ind)`: the first individual fixes the loci; later ones must have the same. */
    method Add(x: X, ind: Genotype)
      requires Valid() && (loci == {} || ind.loci.Keys == loci)
      modifies this
      ensures dictionary == old(dictionary)[x := (if x in old(dictionary) then old(dictionary)[x] else []) + [ind]]
      ensures locations == old(locations) + {x}
      ensures loci == (if old(loci) == {} then ind.loci.Keys else old(loci))
      ensures Valid()
    {
      if loci == {} {
        loci := ind.loci.Keys;
      }
      var here := if x in dictionary then dictionary[x] else [];
      dictionary := dictionary[x := here + [ind]];
      locations := locations + {x};
    }

    /** `size(x)`: the number of individuals sampled at `x`, which must have been sampled: what `size()` loses without `x`. */
    function SizeAt(x: X): (n: nat)
      reads this
      requires x in dictionary
      ensures n == Total(dictionary) - Total(dictionary - {x}) && n <= Total(dictionary)
    {
      TotalRemove(dictionary, x);
      |dictionary[x]|
    }

    /** `get_sampling_points()`: exactly the locations where someone was added. */
    function GetSamplingPoints(): (points: set<X>)
      reads this
      requires Valid()
      ensures points == dictionary.Keys
    {
      locations
    }

    /** `individuals_at(x)`: `map::at` throws `out_of_range` for an unsampled location. */
    function IndividualsAt(x: X): (r: Result<seq<Genotype>>)
      reads this
      ensures r.Success? <==> x in dictionary
      ensures r.Success? ==> r.value == dictionary[x]
    {
      if x in dictionary then Success(dictionary[x]) else Failure(OutOfRange)
    }

    /** `size()`: the individuals of all locations, added up location by location. */
    method Size() returns (n: nat)
      ensures n == Total(dictionary)
    {
      n := 0;
      var rest := dictionary;
      while rest != map[]
        invariant rest.Keys <= dictionary.Keys && forall x :: x in rest ==> rest[x] == dictionary[x]
        invariant n + Total(rest) == Total(dictionary)
        decreases |rest.Keys|
      {
        var x :| x in rest;
        TotalRemove(rest, x);
        n := n + |rest[x]|;
        rest := rest - {x};
      }
    }

    /** `nb_gene_copies_discarding_NA(locus)`: per location, the copies of each present state. */
    method NbGeneCopiesDiscardingNA(locus: string) returns (r: Result<map<X, map<int, nat>>>)
      requires Valid()
      ensures r.Success? <==> forall x :: x in dictionary ==> GenotypedAt(dictionary[x], locus)
      ensures r.Failure? ==> r.error == OutOfRange
      ensures r.Success? ==> forall x :: x in r.value <==> x in dictionary && CopiesOf(dictionary[x], locus) != map[]
      ensures r.Success? ==> forall x :: x in r.value ==> r.value[x] == CopiesOf(dictionary[x], locus)
    {
      var counts: map<X, map<int, nat>> := map[];
      var rest := locations;
      while rest != {}
        invariant rest <= locations
        invariant forall x :: x in locations - rest ==> GenotypedAt(dictionary[x], locus)
        invariant forall x :: x in counts <==> x in locations - rest && CopiesOf(dictionary[x], locus) != map[]
        invariant forall x :: x in counts ==> counts[x] == CopiesOf(dictionary[x], locus)
        decreases |rest|
      {
        var x :| x in rest;
        var here := CountAt(dictionary[x], locus);
        if here.Failure? {
          return Failure(OutOfRange);
        }
        if here.value != map[] {
          counts := counts[x := here.value];
        }
        rest := rest - {x};
      }
      r := Success(counts);
    }

    /** `allelic_richness(locus)`: the number of distinct states present anywhere in the sample. */
    method AllelicRichness(locus: string) returns (r: Result<nat>)
      requires Valid()
      ensures r.Success? <==> forall x :: x in dictionary ==> GenotypedAt(dictionary[x], locus)
      ensures r.Success? ==> r.value == |PresentStates(dictionary, locus)|
    {
      var counts := NbGeneCopiesDiscardingNA(locus);
      if counts.Failure? {
        return Failure(counts.error);
      }
      var states := StatesOf(counts.value);
      StatesArePresent(dictionary, locus, counts.value);
      r := Success(|states|);
    }
  }

  /** The number of individuals in all locations. */
  ghost function Total<X>(d: map<X, seq<Genotype>>): nat
    decreases |d.Keys|
  {
    if d == map[] then 0
    else
      var x :| x in d;
      |d[x]| + Total(d - {x})
  }

  /** The total does not depend on the location taken first. */
  lemma {:induction false} TotalRemove<X>(d: map<X, seq<Genotype>>, y: X)
    requires y in d
    ensures Total(d) == |d[y]| + Total(d - {y})
    decreases |d.Keys|
  {
    var x :| x in d && Total(d) == |d[x]| + Total(d - {x});
    if x != y {
      assert (d - {x}).Keys == d.Keys - {x};
      assert (d - {y}).Keys == d.Keys - {y};
      TotalRemove(d - {x}, y);
      TotalRemove(d - {y}, x);
      assert d - {x} - {y} == d - {y} - {x};
    }
  }

  /** The inner loop over the individuals of one location. */
  method CountAt(inds: seq<Genotype>, locus: string) returns (r: Result<map<int, nat>>)
    ensures r.Success? <==> GenotypedAt(inds, locus)
    ensures r.Success? ==> r.value == CopiesOf(inds, locus)
  {
    var m: map<int, nat> := map[];
    var i := 0;
    while i < |inds|
      invariant 0 <= i <= |inds| && GenotypedAt(inds[..i], locus) && m == CopiesOf(inds[..i], locus)
    {
      if locus !in inds[i].loci {
        return Failure(OutOfRange);
      }
      var pair := inds[i].loci[locus];
      assert inds[..i + 1][..i] == inds[..i];
      m := Bump(Bump(m, pair.0), pair.1);
      i := i + 1;
    }
    assert inds[..i] == inds;
    r := Success(m);
  }

  /** Every state that appears in the counts of some location. */
  function States<X>(counts: map<X, map<int, nat>>): set<int>
  {
    set x, s | x in counts && s in counts[x] :: s
  }

  /** The loops of `allelic_richness` collecting the states of every location into one set. */
  method StatesOf<X>(counts: map<X, map<int, nat>>) returns (states: set<int>)
    ensures states == States(counts)
  {
    states := {};
    var rest := counts.Keys;
    assert counts.Keys - rest == {};
    while rest != {}
      invariant rest <= counts.Keys
      invariant states == StatesAmong(counts, counts.Keys - rest)
      decreases |rest|
    {
      var x :| x in rest;
      StatesAmongAdd(counts, counts.Keys - rest, x);
      assert counts.Keys - (rest - {x}) == (counts.Keys - rest) + {x};
      states := states + counts[x].Keys;
      rest := rest - {x};
    }
    assert counts.Keys - rest == counts.Keys;
  }

  /** The states of the locations in `keys`. */
  function StatesAmong<X>(counts: map<X, map<int, nat>>, keys: set<X>): set<int>
  {
    set x, s | x in keys && x in counts && s in counts[x] :: s
  }

  lemma StatesAmongAdd<X>(counts: map<X, map<int, nat>>, keys: set<X>, y: X)
    requires y in counts
    ensures StatesAmong(counts, keys + {y}) == StatesAmong(counts, keys) + counts[y].Keys
  {
    forall s | s in counts[y].Keys
      ensures s in StatesAmong(counts, keys + {y})
    {
      assert y in keys + {y} && s in counts[y];
    }
  }

  /** The states carried by at least one copy somewhere in the sample, missing data excluded. */
  ghost function PresentStates<X>(d: map<X, seq<Genotype>>, locus: string): set<int>
  {
    set x, s | x in d && GenotypedAt(d[x], locus) && s in CopiesOf(d[x], locus) :: s
  }

  /** The states of the counts are the present ones: a state counts iff some copy carries it. */
  lemma StatesArePresent<X>(d: map<X, seq<Genotype>>, locus: string, counts: map<X, map<int, nat>>)
    requires forall x :: x in d ==> GenotypedAt(d[x], locus)
    requires forall x :: x in counts <==> x in d && CopiesOf(d[x], locus) != map[]
    requires forall x :: x in counts ==> counts[x] == CopiesOf(d[x], locus)
    ensures States(counts) == PresentStates(d, locus)
  {
  }

  /** A state is present iff it is not missing data and some individual somewhere carries it. */
  lemma PresentStatesMeaning<X>(d: map<X, seq<Genotype>>, locus: string, s: int)
    requires forall x :: x in d ==> GenotypedAt(d[x], locus)
    ensures s in PresentStates(d, locus) <==> s > 0 && exists x :: x in d && StateCount(d[x], locus, s) > 0
  {
    forall x | x in d
      ensures s in CopiesOf(d[x], locus) <==> s > 0 && StateCount(d[x], locus, s) > 0
    {
      CopiesOfMeaning(d[x], locus, s);
    }
  }
}
