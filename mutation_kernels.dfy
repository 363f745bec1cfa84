// Mutation kernels that update an allelic state along a branch, and the
// uniform sampling scheme that draws sampling points from a space.  Every
// random draw is an explicit input: a draw in 0..2 for each JC69 mutation and
// an index into the space for each sampled point.

module MutationKernels {
  import opened Common

  // ------------------------------------------------------------ standard data

  /** `standard_data::mute`: a binary state flips on an odd number of mutations. */
  function StandardMute(state: bool, nbMutations: nat): (r: bool)
    ensures r != state <==> nbMutations % 2 == 1
    ensures nbMutations == 0 ==> r == state
  {
    if nbMutations % 2 != 0 then !state else state
  }

  /** Mutating along two successive stretches is mutating once with all their events. */
  lemma StandardMuteCompose(state: bool, a: nat, b: nat)
    ensures StandardMute(StandardMute(state, a), b) == StandardMute(state, a + b)
  {
    assert (a + b) % 2 == (a % 2 + b % 2) % 2;
  }

  // ------------------------------------------------------------ JC69

  /** `JC69::dico`: for each nucleotide, the three others it may mutate to. */
  const Dico: map<char, string> := map['A' := "TGC", 'T' := "ACG", 'G' := "ATC", 'C' := "ATG"]

  predicate IsNucleotide(c: char)
  {
    c == 'A' || c == 'C' || c == 'G' || c == 'T'
  }

  /** The keys of `dico` are exactly the four nucleotides, each listing three targets. */
  lemma DicoKeys()
    ensures forall c :: c in Dico <==> IsNucleotide(c)
    ensures forall c :: c in Dico ==> |Dico[c]| == 3
  {
  }

  /** One JC69 mutation: the nucleotide at the drawn position of the state's entry. */
  function Step(state: char, draw: nat): (r: char)
    requires state in Dico && draw < 3
    ensures r in Dico && r != state
  {
    DicoKeys();
    Dico[state][draw]
  }

  /** The three draws reach the three other nucleotides, each exactly once. */
  lemma StepReachesEveryOther(state: char, target: char)
    requires state in Dico && target in Dico && target != state
    ensures exists d :: 0 <= d < 3 && Step(state, d) == target
    ensures forall d, e :: 0 <= d < 3 && 0 <= e < 3 && Step(state, d) == Step(state, e) ==> d == e
  {
    DicoKeys();
    if state == 'A' {
      assert Step('A', 0) == 'T' && Step('A', 1) == 'G' && Step('A', 2) == 'C';
    } else if state == 'T' {
      assert Step('T', 0) == 'A' && Step('T', 1) == 'C' && Step('T', 2) == 'G';
    } else if state == 'G' {
      assert Step('G', 0) == 'A' && Step('G', 1) == 'T' && Step('G', 2) == 'C';
    } else {
      assert Step('C', 0) == 'A' && Step('C', 1) == 'T' && Step('C', 2) == 'G';
    }
  }

  predicate AllBelow(draws: seq<nat>, bound: nat)
  {
    forall i :: 0 <= i < |draws| ==> draws[i] < bound
  }

  /** The state after the mutations drawn by `draws`, in order. */
  function Walk(state: char, draws: seq<nat>): (r: char)
    requires state in Dico && AllBelow(draws, 3)
    ensures r in Dico
    decreases |draws|
  {
    if draws == [] then state else Walk(Step(state, draws[0]), draws[1..])
  }

  /** Mutating along two successive stretches is one walk over both sequences of draws. */
  lemma {:induction false} WalkConcat(state: char, a: seq<nat>, b: seq<nat>)
    requires state in Dico && AllBelow(a, 3) && AllBelow(b, 3)
    ensures AllBelow(a + b, 3)
    ensures Walk(state, a + b) == Walk(Walk(state, a), b)
    decreases |a|
  {
    assert AllBelow(a + b, 3) by {
      forall i | 0 <= i < |a + b| ensures (a + b)[i] < 3 {
        if i < |a| { assert (a + b)[i] == a[i]; } else { assert (a + b)[i] == b[i - |a|]; }
      }
    }
    if a != [] {
      assert (a + b)[0] == a[0] && (a + b)[1..] == a[1..] + b;
      assert AllBelow(a[1..], 3);
      WalkConcat(Step(state, a[0]), a[1..], b);
      assert Walk(state, a + b) == Walk(Step(state, a[0]), a[1..] + b);
    } else {
      assert a + b == b;
    }
  }

  /** A single mutation always changes the state. */
  lemma OneMutationChanges(state: char, d: nat)
    requires state in Dico && d < 3
    ensures Walk(state, [d]) != state && Walk(state, [d]) in Dico
  {
    assert [d][1..] == [];
  }

  /** `JC69::mute`: asserts the state is a nucleotide, then mutates it once per event. */
  method JC69Mute(state: char, nbMutations: nat, draws: seq<nat>) returns (r: char)
    requires state in Dico
    requires |draws| == nbMutations && AllBelow(draws, 3)
    ensures r == Walk(state, draws)
    ensures r in Dico
    ensures nbMutations == 0 ==> r == state
    ensures nbMutations == 1 ==> r != state
  {
    r := state;
    var i := 0;
    while i < nbMutations
      invariant 0 <= i <= nbMutations && r in Dico
      invariant AllBelow(draws[i..], 3)
      invariant Walk(r, draws[i..]) == Walk(state, draws)
    {
      assert draws[i..][0] == draws[i] && draws[i..][1..] == draws[i + 1..];
      r := Step(r, draws[i]);
      i := i + 1;
    }
    assert draws[i..] == [];
    if nbMutations == 1 {
      OneMutationChanges(state, draws[0]);
      assert draws == [draws[0]];
    }
  }

  // ------------------------------------------------------------ sampling parameters

  /** `param_base_class`: holds the sampling size. */
  class ParamBase {
    var n: nat

    constructor (n: nat)
      ensures this.n == n
    {
      this.n := n;
    }

    /** `sampling_size()`: the stored size. */
    method SamplingSize() returns (size: nat)
      ensures size == n
    {
      size := n;
    }

    /** `sampling_size(n)`: replaces the stored size. */
    method SetSamplingSize(size: nat)
      modifies this
      ensures n == size
    {
      n := size;
    }
  }

  // ------------------------------------------------------------ uniform sampling

  /** The sample map after one more draw of `x`: its intensity goes up by one. */
  function Bump<C>(m: map<C, nat>, x: C): (r: map<C, nat>)
    ensures r.Keys == m.Keys + {x}
    ensures r[x] == (if x in m then m[x] else 0) + 1
    ensures forall y :: y in m && y != x ==> r[y] == m[y]
  {
    m[x := (if x in m then m[x] else 0) + 1]
  }

  /** The sampling intensities after the draws `draws`, taken in order. */
  function Tally<C>(space: seq<C>, draws: seq<nat>): map<C, nat>
    requires AllBelow(draws, |space|)
    decreases |draws|
  {
    if draws == [] then map[]
    else Bump(Tally(space, draws[..|draws| - 1]), space[draws[|draws| - 1]])
  }

  /** The points the draws pick out of the space. */
  function Picks<C>(space: seq<C>, draws: seq<nat>): (r: seq<C>)
    requires AllBelow(draws, |space|)
    ensures |r| == |draws| && forall i :: 0 <= i < |draws| ==> r[i] == space[draws[i]]
  {
    seq(|draws|, i requires 0 <= i < |draws| => space[draws[i]])
  }

  /** One more draw adds exactly one to the total. */
  lemma TotalBump<C>(m: map<C, nat>, x: C)
    ensures MapTotal(Bump(m, x)) == MapTotal(m) + 1
  {
    MapTotalUpdate(m, x, (if x in m then m[x] else 0) + 1);
  }

  /** The intensities sum to the number of draws, and each is the count of that point among the picks. */
  lemma {:induction false} TallyCounts<C>(space: seq<C>, draws: seq<nat>)
    requires AllBelow(draws, |space|)
    ensures MapTotal(Tally(space, draws)) == |draws|
    ensures forall x :: x in Tally(space, draws) <==> x in Picks(space, draws)
    ensures forall x :: x in Tally(space, draws) ==> Tally(space, draws)[x] == multiset(Picks(space, draws))[x]
    decreases |draws|
  {
    if draws != [] {
      var front := draws[..|draws| - 1];
      var x := space[draws[|draws| - 1]];
      TallyCounts(space, front);
      TotalBump(Tally(space, front), x);
      assert Picks(space, draws) == Picks(space, front) + [x];
    }
  }

  /** `uniform_at_random`: the sampling size it is parameterised with. */
  class UniformAtRandom {
    var size: nat

    /** `uniform_at_random(n)`. */
    constructor (n: nat)
      ensures size == n
    {
      size := n;
    }

    /** `param()`: a copy of the parameter, holding the sampling size. */
    method Param() returns (p: ParamBase)
      ensures fresh(p) && p.n == size
    {
      p := new ParamBase(size);
    }

    /** `param(n)`: replaces the parameter. */
    method SetParam(n: nat)
      modifies this
      ensures size == n
    {
      size := n;
    }

    /** `operator()(space, gen)`: samples with the stored parameter. */
    method SampleWithOwnParam<C>(space: seq<C>, draws: seq<nat>) returns (sample: map<C, nat>)
      requires size > 0 && |draws| == size && AllBelow(draws, |space|)
      ensures sample == Tally(space, draws)
    {
      sample := Sample(space, size, draws);
    }
  }

  /**
   * `uniform_at_random::operator()(space, p, gen)`: asserts a positive sampling
   * size, then adds one to the intensity of the point at each drawn index.
   */
  method Sample<C>(space: seq<C>, n: nat, draws: seq<nat>) returns (sample: map<C, nat>)
    requires n > 0
    requires |draws| == n && AllBelow(draws, |space|)
    ensures sample == Tally(space, draws)
  {
    sample := map[];
    var i := 0;
    while i < n
      invariant 0 <= i <= n
      invariant AllBelow(draws[..i], |space|)
      invariant sample == Tally(space, draws[..i])
    {
      var x := space[draws[i]];
      assert draws[..i + 1][..i] == draws[..i];
      sample := sample[x := (if x in sample then sample[x] else 0) + 1];
      i := i + 1;
    }
    assert draws[..i] == draws;
  }

  /** The uniform sample puts `n` points in total, all of them from the space. */
  lemma SampleIsFromSpace<C>(space: seq<C>, draws: seq<nat>)
    requires AllBelow(draws, |space|)
    ensures MapTotal(Tally(space, draws)) == |draws|
    ensures forall x :: x in Tally(space, draws) ==> x in space
  {
    TallyCounts(space, draws);
    forall x | x in Tally(space, draws) ensures x in space {
      var i :| 0 <= i < |draws| && Picks(space, draws)[i] == x;
    }
  }
}
