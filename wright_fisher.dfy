// The discrete-time Wright–Fisher simulator: coalesces lineages in a single
// population of N gene copies, either until the most recent common ancestor
// is found or for a given number of generations.  When there are more
// lineages than N, one generation of simultaneous multiple merges first
// brings them down to at most N.  The ball draws of the occupancy experiment,
// the shuffles of the binary merges and the sampled waiting times are inputs
// standing for the random generator.

module WrightFisher {
  import opened Common
  import opened Merge
  import opened MergerPolicy
  import opened Forests

  /** The condition `sample_waiting_time(k, N)` asserts, as written. */
  predicate WaitingTimeAsserted(k: nat, n: nat)
  {
    n > k
  }

  /**
   * When the geometric waiting time for `k` lineages among `N` copies is
   * defined: at least one pair to coalesce, and no more lineages than copies,
   * which is what `coalesce` itself asserts before sampling.
   */
  predicate WaitingTimeDefined(k: nat, n: nat)
  {
    2 <= k <= n
  }

  /**
   * With as many lineages as gene copies, `coalesce` passes its own check
   * `k <= N` and then calls `sample_waiting_time(k, N)`, whose `N > k` fails,
   * although the waiting time's parameter is well defined.
   */
  lemma WaitingTimeAssertFailsAtCapacity()
    ensures var k, n := 2, 2; k <= n && k > 1 && !WaitingTimeAsserted(k, n) && WaitingTimeDefined(k, n)
  {
  }

  /** The lineage counts `hi, hi - 1, …, lo + 1`, at which waiting times are sampled. */
  function Countdown(hi: nat, lo: nat): (r: seq<nat>)
    requires lo <= hi
    ensures |r| == hi - lo
    ensures forall i :: 0 <= i < |r| ==> r[i] == hi - i
  {
    seq(hi - lo, i requires 0 <= i < hi - lo => hi - i)
  }

  lemma CountdownStep(hi: nat, lo: nat)
    requires 1 <= lo <= hi
    ensures Countdown(hi, lo - 1) == Countdown(hi, lo) + [lo]
  {
    var r, s := Countdown(hi, lo - 1), Countdown(hi, lo) + [lo];
    assert |r| == |s|;
    forall i | 0 <= i < |r| ensures r[i] == s[i] {
    }
  }

  /**
   * Over the whole run of binary merges from `k` lineages among `N` copies,
   * the assert of `sample_waiting_time` as written fails at some step exactly
   * when the lineages fill the population (`k == N`, with a pair to merge):
   * the first sampled count is `k` itself, and every later one is smaller.
   */
  lemma WaitingTimeAssertFailsInRun(k: nat, n: nat)
    requires 1 <= k <= n
    ensures (exists i :: 0 <= i < |Countdown(k, 1)| && !WaitingTimeAsserted(Countdown(k, 1)[i], n))
            <==> 2 <= k == n
  {
    var ks := Countdown(k, 1);
    if 2 <= k == n {
      assert !WaitingTimeAsserted(ks[0], n);
    }
    if exists i :: 0 <= i < |ks| && !WaitingTimeAsserted(ks[i], n) {
      var i :| 0 <= i < |ks| && !WaitingTimeAsserted(ks[i], n);
      assert ks[i] == k - i;
    }
  }

  /** The urn of each of the `k` balls, from the generator's draws. */
  function BallDraws(k: nat, urn: nat -> int): (r: seq<int>)
    ensures |r| == k && forall i :: 0 <= i < k ==> r[i] == urn(i)
  {
    seq(k, i requires 0 <= i < k => urn(i))
  }

  /**
   * The binary merges of `coalesce(trees, N, …)` after the lineages number
   * `k <= N`: `k - 1` merges, each after a waiting time sampled for the
   * current number of lineages, leave one tree at the front.
   */
  method BinaryMerges<T>(a: array<T>, k: nat, n: nat, makeTree: nat -> T, op: (T, T) -> T,
                         shuffle: nat -> seq<nat>, waitingTime: (nat, nat) -> nat)
    returns (ks: seq<nat>)
    requires 1 <= k <= n && k <= a.Length
    modifies a
    ensures ks == Countdown(k, 1)
    ensures forall i :: 0 <= i < |ks| ==> WaitingTimeDefined(ks[i], n)
  {
    var last, j := k, k;
    ks := [];
    while j > 1
      invariant 1 <= j <= k && last == j
      invariant ks == Countdown(k, j)
    {
      var g := waitingTime(j, n);
      last := BinaryMerge(a, 0, last, makeTree(g), op, shuffle(j));
      CountdownStep(k, j);
      ks := ks + [j];
      j := j - 1;
    }
  }

  /** As `BinaryMerges`, with 0 and `+`: the front element ends holding the total of the first `k`. */
  method BinaryMergesSum(a: array<int>, k: nat, n: nat, shuffle: nat -> seq<nat>)
    returns (ks: seq<nat>)
    requires 1 <= k <= n && k <= a.Length
    modifies a
    ensures ks == Countdown(k, 1)
    ensures forall i :: 0 <= i < |ks| ==> WaitingTimeDefined(ks[i], n)
    ensures a[0] == Sum(old(a[..k]))
    ensures a[k..] == old(a[k..])
  {
    var last, j := k, k;
    ks := [];
    while j > 1
      invariant 1 <= j <= k && last == j
      invariant ks == Countdown(k, j)
      invariant Sum(a[..j]) == Sum(old(a[..k]))
      invariant a[k..] == old(a[k..])
    {
      ghost var before := a[..];
      last := BinaryMergeSum(a, 0, last, shuffle(j));
      assert a[..last] == a[0..last] && before[..j] == before[0..j];
      assert a[k..] == before[k..] by {
        assert a[j..] == before[j..];
        assert a[k..] == a[j..][k - j..] && before[k..] == before[j..][k - j..];
      }
      CountdownStep(k, j);
      ks := ks + [j];
      j := j - 1;
    }
    assert a[..1] == [a[0]];
  }

  /**
   * `coalesce(trees, N, gen, branch, make_tree)` on a vector of at least two
   * trees.  `k` is the number of lineages after the optional generation of
   * simultaneous multiple merges: the number of occupied parents when there
   * were more trees than `N`, the number of trees otherwise.  The root is the
   * front of the vector.
   */
  method Coalesce<T>(a: array<T>, n: nat, makeTree: nat -> T, op: (T, T) -> T, urn: nat -> int,
                     shuffle: nat -> seq<nat>, waitingTime: (nat, nat) -> nat)
    returns (root: T, k: nat, ks: seq<nat>)
    requires a.Length >= 2 && n >= 1
    requires forall i :: 0 <= urn(i) < n
    modifies a
    ensures k == (if a.Length > n then |Occupied(BallDraws(a.Length, urn), n)| else a.Length)
    ensures 1 <= k <= n && k <= a.Length
    ensures ks == Countdown(k, 1)
    ensures forall i :: 0 <= i < |ks| ==> WaitingTimeDefined(ks[i], n)
    ensures root == a[0]
  {
    k := a.Length;
    if a.Length > n {
      k := SimultaneousMultipleMerger.MergeOnTheFly(a, 0, a.Length, n, makeTree(1), op,
                                                    BallDraws(a.Length, urn), shuffle(0));
    }
    ks := BinaryMerges(a, k, n, makeTree, op, shuffle, waitingTime);
    root := a[0];
  }

  /** As `Coalesce` with 0 and `+`: the root carries the total of the trees. */
  method CoalesceSum(a: array<int>, n: nat, urn: nat -> int, shuffle: nat -> seq<nat>)
    returns (root: int, k: nat, ks: seq<nat>)
    requires a.Length >= 2 && n >= 1
    requires forall i :: 0 <= urn(i) < n
    modifies a
    ensures k == (if a.Length > n then |Occupied(BallDraws(a.Length, urn), n)| else a.Length)
    ensures 1 <= k <= n && k <= a.Length
    ensures ks == Countdown(k, 1)
    ensures root == Sum(old(a[..]))
  {
    k := a.Length;
    assert a[..] == a[0..a.Length];
    if a.Length > n {
      k := SimultaneousMultipleMerger.MergeSumOnTheFly(a, 0, a.Length, n, BallDraws(a.Length, urn), shuffle(0));
      assert a[..k] == a[0..k];
    } else {
      assert a[..k] == a[..];
    }
    ks := BinaryMergesSum(a, k, n, shuffle);
    root := a[0];
  }

  /**
   * `coalesce(forest, N, …)`: an empty forest is a logic error, a single tree
   * is returned as it is, and otherwise the forest's trees are coalesced as a
   * vector.
   */
  method CoalesceForest<P, T>(forest: Forest<P, T>, n: nat, makeTree: nat -> T, op: (T, T) -> T,
                              urn: nat -> int, shuffle: nat -> seq<nat>, waitingTime: (nat, nat) -> nat)
    returns (r: Result<T>)
    requires |forest.data| >= 2 ==> n >= 1 && forall i :: 0 <= urn(i) < n
    ensures r.Failure? <==> |forest.data| == 0
    ensures r.Failure? ==> r.error == LogicError
    ensures |forest.data| == 1 ==> r == Success(forest.data[0].1)
  {
    var size := forest.NbTrees();
    if size == 0 {
      return Failure(LogicError);
    } else if size == 1 {
      var positions := forest.Positions();
      assert forest.data[0].0 in Keys(forest.data);
      var x :| x in positions;
      var range := forest.TreesAtSamePosition(x);
      SingleTreeAt(forest.data, x);
      return Success(range[0]);
    }
    var trees := forest.GetAllTrees();
    var a := new T[|trees|](i requires 0 <= i < |trees| => trees[i]);
    var root, k, ks := Coalesce(a, n, makeTree, op, urn, shuffle, waitingTime);
    return Success(root);
  }

  /** In a forest of one tree, the only position holds that tree. */
  lemma SingleTreeAt<P, T>(d: seq<(P, T)>, x: P)
    requires |d| == 1 && x in Keys(d)
    ensures TreesAt(d, x) == [d[0].1]
  {
    CountMeaning(d, x);
  }

  /** As `CoalesceForest` with 0 and `+`: a non-empty forest coalesces to the total of its trees. */
  method CoalesceForestSum<P>(forest: Forest<P, int>, n: nat, urn: nat -> int, shuffle: nat -> seq<nat>)
    returns (r: Result<int>)
    requires |forest.data| >= 2 ==> n >= 1 && forall i :: 0 <= urn(i) < n
    ensures r.Failure? <==> |forest.data| == 0
    ensures r.Failure? ==> r.error == LogicError
    ensures r.Success? ==> r.value == Sum(AllTrees(forest.data))
  {
    var size := forest.NbTrees();
    if size == 0 {
      return Failure(LogicError);
    } else if size == 1 {
      var positions := forest.Positions();
      assert forest.data[0].0 in Keys(forest.data);
      var x :| x in positions;
      var range := forest.TreesAtSamePosition(x);
      SingleTreeAt(forest.data, x);
      assert AllTrees(forest.data) == [forest.data[0].1];
      return Success(range[0]);
    }
    var trees := forest.GetAllTrees();
    var a := new int[|trees|](i requires 0 <= i < |trees| => trees[i]);
    assert a[..] == trees;
    var root, k, ks := CoalesceSum(a, n, urn, shuffle);
    return Success(root);
  }

  /**
   * `coalesce<MergerType>(trees, N, g, …)` with the default simultaneous
   * multiple merger: at most `g` generations of merges, stopping early once a
   * single lineage remains; the vector's tail past the survivors is erased.
   * `urn(t, i)` is the parent drawn for ball `i` at generation `t`.
   */
  method CoalesceFor<T>(a: array<T>, n: nat, g: nat, makeTree: nat -> T, op: (T, T) -> T,
                        urn: (nat, nat) -> int, shuffle: nat -> seq<nat>)
    returns (trees: seq<T>, generations: nat)
    requires a.Length >= 2 && g > 0 && n >= 1
    requires forall t, i :: 0 <= urn(t, i) < n
    modifies a
    ensures 1 <= |trees| <= a.Length && trees == a[..|trees|]
    ensures 1 <= generations <= g && (generations == g || |trees| == 1)
  {
    var t, last := 0, a.Length;
    while t < g && last > 1
      invariant 0 <= t <= g && 1 <= last <= a.Length
      invariant t == 0 ==> last == a.Length
    {
      var next := SimultaneousMultipleMerger.MergeOnTheFly(a, 0, last, n, makeTree(t), op,
                                                           BallDraws(last, (i: nat) => urn(t, i)), shuffle(t));
      last := next;
      t := t + 1;
    }
    trees, generations := a[..last], t;
  }

  /** As `CoalesceFor` with 0 and `+`: the surviving lineages carry the total of the trees. */
  method CoalesceForSum(a: array<int>, n: nat, g: nat, urn: (nat, nat) -> int, shuffle: nat -> seq<nat>)
    returns (trees: seq<int>, generations: nat)
    requires a.Length >= 2 && g > 0 && n >= 1
    requires forall t, i :: 0 <= urn(t, i) < n
    modifies a
    ensures 1 <= |trees| <= a.Length && trees == a[..|trees|]
    ensures 1 <= generations <= g && (generations == g || |trees| == 1)
    ensures Sum(trees) == Sum(old(a[..]))
  {
    var t, last := 0, a.Length;
    assert a[..] == a[0..a.Length];
    while t < g && last > 1
      invariant 0 <= t <= g && 1 <= last <= a.Length
      invariant t == 0 ==> last == a.Length
      invariant Sum(a[0..last]) == Sum(old(a[..]))
    {
      last := SimultaneousMultipleMerger.MergeSumOnTheFly(a, 0, last, n, BallDraws(last, (i: nat) => urn(t, i)), shuffle(t));
      t := t + 1;
    }
    assert a[..last] == a[0..last];
    trees, generations := a[..last], t;
  }
}
