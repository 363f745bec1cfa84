// `DiploidIndividual`: the genotype of one individual, a pair of alleles per
// genotyped locus, the loci being named by strings.

module DiploidIndividual {
  import opened Common

  class DiploidIndividual<A> {
    var loci: map<string, (A, A)>

    /** The default constructor: no locus genotyped. */
    constructor Default()
      ensures loci == map[]
    {
      loci := map[];
    }

    /** The constructors from one locus (its name and its pair, in any of the four argument orders). */
    constructor (name: string, allele1: A, allele2: A)
      ensures loci == map[name := (allele1, allele2)]
    {
      loci := map[name := (allele1, allele2)];
    }

    /** `add(name, a1, a2)` (all three overloads): sets or overwrites that locus and returns the object itself. */
    method Add(name: string, allele1: A, allele2: A) returns (self: DiploidIndividual<A>)
      modifies this
      ensures self == this && loci == old(loci)[name := (allele1, allele2)]
    {
      loci := loci[name := (allele1, allele2)];
      self := this;
    }

    /** `nGenotypedLoci()`: the number of loci stored. */
    function NGenotypedLoci(): (n: nat)
      reads this
      ensures n == |loci.Keys|
    {
      |loci|
    }

    /** `alleles(locus)`: the stored pair; `map::at` throws `out_of_range` for an absent locus. */
    function Alleles(locus: string): (r: Result<(A, A)>)
      reads this
      ensures r.Success? <==> locus in loci
      ensures r.Success? ==> r.value == loci[locus]
      ensures r.Failure? ==> r.error == OutOfRange
    {
      if locus in loci then Success(loci[locus]) else Failure(OutOfRange)
    }

    /** `loci()`: collects the key of every entry into a set. */
    method Loci() returns (names: set<string>)
      ensures names == loci.Keys
    {
      names := {};
      var rest := loci.Keys;
      while rest != {}
        invariant rest <= loci.Keys && names == loci.Keys - rest
        decreases |rest|
      {
        var name :| name in rest;
        names := names + {name};
        rest := rest - {name};
      }
    }
  }

  /** Genotyping a new locus adds one to the count; overwriting one leaves it. */
  lemma AddCount<A>(m: map<string, (A, A)>, name: string, pair: (A, A))
    ensures |m[name := pair].Keys| == |m.Keys| + (if name in m then 0 else 1)
  {
    if name in m {
      assert m[name := pair].Keys == m.Keys;
    } else {
      assert m[name := pair].Keys == m.Keys + {name};
    }
  }

  /** Overwriting a locus with `add` replaces its pair and keeps every other locus. */
  lemma AddKeepsOthers<A>(m: map<string, (A, A)>, name: string, pair: (A, A), other: string)
    requires other != name
    ensures other in m[name := pair] <==> other in m
    ensures other in m ==> m[name := pair][other] == m[other]
  {
  }

  /** A constructed individual has exactly one genotyped locus, and its alleles are the given pair. */
  method ConstructedHasOneLocus<A>(name: string, allele1: A, allele2: A) returns (n: nat, r: Result<(A, A)>)
    ensures n == 1 && r == Success((allele1, allele2))
  {
    var d := new DiploidIndividual(name, allele1, allele2);
    assert d.loci.Keys == {name};
    n := d.NGenotypedLoci();
    r := d.Alleles(name);
  }
}
