/**
 * The coalescence merge kernels of `merge.h`: `binary_merge` and
 * `simultaneous_multiple_merge`, both working in place on the range
 * `[first, last)` of an array and returning the new past-the-end index.
 *
 * `std::shuffle` is the only source of randomness. It is modelled as the
 * Fisher–Yates shuffle driven by an explicit sequence of draws: step `k`
 * swaps position `i = n - 1 - k` with position `draws[k] % (i + 1)`.
 */
module Merge {
  import opened Common

  // ---------------------------------------------------------------- shuffle

  function Swap<T>(s: seq<T>, i: nat, j: nat): (r: seq<T>)
    requires i < |s| && j < |s|
    ensures |r| == |s|
  {
    s[i := s[j]][j := s[i]]
  }

  /** The partner of position `i` at step `k`; missing draws leave `i` in place. */
  function Pick(draws: seq<nat>, k: nat, i: nat): (j: nat)
    ensures j <= i
  {
    if k < |draws| then draws[k] % (i + 1) else i
  }

  /** Fisher–Yates steps `i`, `i - 1`, ..., `1` applied to `s`. */
  function ShuffleFrom<T>(s: seq<T>, draws: seq<nat>, i: nat): (r: seq<T>)
    requires i < |s| || i == 0
    ensures |r| == |s|
    decreases i
  {
    if i == 0 then s else ShuffleFrom(Swap(s, i, Pick(draws, |s| - 1 - i, i)), draws, i - 1)
  }

  /** The order `std::shuffle` leaves `s` in, given the generator's draws. */
  function Shuffled<T>(s: seq<T>, draws: seq<nat>): (r: seq<T>)
    ensures |r| == |s|
  {
    if s == [] then s else ShuffleFrom(s, draws, |s| - 1)
  }

  /** The shuffle is a permutation: it keeps every element with its multiplicity. */
  lemma {:induction false} ShuffleFromIsPermutation<T>(s: seq<T>, draws: seq<nat>, i: nat)
    requires i < |s| || i == 0
    ensures multiset(ShuffleFrom(s, draws, i)) == multiset(s)
    decreases i
  {
    if i > 0 {
      var j := Pick(draws, |s| - 1 - i, i);
      SwapIsPermutation(s, i, j);
      ShuffleFromIsPermutation(Swap(s, i, j), draws, i - 1);
    }
  }

  lemma SwapIsPermutation<T>(s: seq<T>, i: nat, j: nat)
    requires i < |s| && j < |s|
    ensures multiset(Swap(s, i, j)) == multiset(s)
  {
  }

  lemma ShuffledIsPermutation<T>(s: seq<T>, draws: seq<nat>)
    ensures multiset(Shuffled(s, draws)) == multiset(s)
  {
    if s != [] {
      ShuffleFromIsPermutation(s, draws, |s| - 1);
    }
  }

  /** `s` with only its range `[first, last)` shuffled. */
  function ShuffledRange<T>(s: seq<T>, first: nat, last: nat, draws: seq<nat>): (r: seq<T>)
    requires first <= last <= |s|
    ensures |r| == |s|
  {
    s[..first] + Shuffled(s[first..last], draws) + s[last..]
  }

  /** The same Fisher–Yates steps, performed on the range `[first, first + n)` of a longer sequence. */
  function ShuffleSteps<T>(s: seq<T>, first: nat, n: nat, draws: seq<nat>, i: nat): (r: seq<T>)
    requires first + n <= |s| && (i < n || i == 0)
    ensures |r| == |s|
    decreases i
  {
    if i == 0 then s
    else ShuffleSteps(Swap(s, first + i, first + Pick(draws, n - 1 - i, i)), first, n, draws, i - 1)
  }

  lemma {:induction false} ShuffleStepsInRange<T>(s: seq<T>, first: nat, n: nat, draws: seq<nat>, i: nat)
    requires first + n <= |s| && (i < n || i == 0)
    ensures var r := ShuffleSteps(s, first, n, draws, i);
            r[..first] == s[..first] && r[first + n..] == s[first + n..] &&
            r[first..first + n] == ShuffleFrom(s[first..first + n], draws, i)
    decreases i
  {
    if i > 0 {
      var j := Pick(draws, n - 1 - i, i);
      var t := Swap(s, first + i, first + j);
      SwapInRange(s, first, n, i, j);
      ShuffleStepsInRange(t, first, n, draws, i - 1);
      ShuffleStepsStep(s, first, n, draws, i);
      var range := s[first..first + n];
      assert |range| - 1 - i == n - 1 - i;
      ShuffleFromStep(range, draws, i);
    }
  }

  lemma ShuffleFromStep<T>(s: seq<T>, draws: seq<nat>, i: nat)
    requires 0 < i < |s|
    ensures ShuffleFrom(s, draws, i) == ShuffleFrom(Swap(s, i, Pick(draws, |s| - 1 - i, i)), draws, i - 1)
  {
  }

  lemma ShuffleStepsStep<T>(s: seq<T>, first: nat, n: nat, draws: seq<nat>, i: nat)
    requires first + n <= |s| && 0 < i < n
    ensures ShuffleSteps(s, first, n, draws, i)
         == ShuffleSteps(Swap(s, first + i, first + Pick(draws, n - 1 - i, i)), first, n, draws, i - 1)
  {
  }

  /** Swapping two positions of the range `[first, first + n)` touches nothing outside it. */
  lemma SwapInRange<T>(s: seq<T>, first: nat, n: nat, i: nat, j: nat)
    requires first + n <= |s| && i < n && j < n
    ensures var t := Swap(s, first + i, first + j);
            t[first..first + n] == Swap(s[first..first + n], i, j) &&
            t[..first] == s[..first] && t[first + n..] == s[first + n..]
  {
  }

  /** `std::iter_swap`, the step the shuffle is made of. */
  method SwapAt<T>(a: array<T>, i: nat, j: nat)
    requires i < a.Length && j < a.Length
    modifies a
    ensures a[..] == Swap(old(a[..]), i, j)
  {
    a[i], a[j] := a[j], a[i];
  }

  /** `std::shuffle(first, last, g)`: permutes `a[first..last]` and nothing else. */
  method Shuffle<T>(a: array<T>, first: nat, last: nat, draws: seq<nat>)
    requires first <= last <= a.Length
    modifies a
    ensures a[..] == ShuffledRange(old(a[..]), first, last, draws)
  {
    ghost var whole := a[..];
    if first == last {
      assert whole == whole[..first] + whole[first..last] + whole[last..];
    } else {
      FisherYates(a, first, last - first, draws);
      ShuffleStepsInRange(whole, first, last - first, draws, last - first - 1);
      assert a[..] == a[..first] + a[first..last] + a[last..];
    }
  }

  /** The swap loop of the shuffle over the `n >= 1` positions from `first`. */
  method FisherYates<T>(a: array<T>, first: nat, n: nat, draws: seq<nat>)
    requires 1 <= n && first + n <= a.Length
    modifies a
    ensures a[..] == ShuffleSteps(old(a[..]), first, n, draws, n - 1)
  {
    ghost var whole := a[..];
    var i := n - 1;
    while i > 0
      invariant 0 <= i < n
      invariant ShuffleSteps(a[..], first, n, draws, i) == ShuffleSteps(whole, first, n, draws, n - 1)
    {
      var j := Pick(draws, n - 1 - i, i);
      SwapAt(a, first + i, first + j);
      i := i - 1;
    }
  }

  // ----------------------------------------------------------- binary merge

  /**
   * `binary_merge` on an already shuffled range `[f, l)`: the element at `f`
   * becomes `op(op(init, s[f]), s[l - 1])`; the range then ends at `l - 1`.
   */
  function BinaryMerged<T>(s: seq<T>, f: nat, l: nat, init: T, op: (T, T) -> T): (r: seq<T>)
    requires f + 1 < l <= |s|
    ensures |r| == |s|
  {
    s[f := op(op(init, s[f]), s[l - 1])]
  }

  method BinaryMerge<T>(a: array<T>, first: nat, last: nat, init: T, op: (T, T) -> T, draws: seq<nat>)
    returns (newLast: nat)
    requires first <= last <= a.Length && last - first > 1
    modifies a
    ensures newLast == last - 1
    ensures a[..] == BinaryMerged(ShuffledRange(old(a[..]), first, last, draws), first, last, init, op)
  {
    Shuffle(a, first, last, draws);
    a[first] := op(init, a[first]);
    newLast := last - 1;
    a[first] := op(a[first], a[newLast]);
  }

  function Plus(x: int, y: int): int { x + y }

  /** `binary_merge(first, last, g)`: init `T()`, which is 0, and `std::plus`. */
  method BinaryMergeSum(a: array<int>, first: nat, last: nat, draws: seq<nat>) returns (newLast: nat)
    requires first <= last <= a.Length && last - first > 1
    modifies a
    ensures newLast == last - 1
    ensures Sum(a[first..newLast]) == Sum(old(a[first..last]))
    ensures a[..first] == old(a[..first]) && a[last..] == old(a[last..])
  {
    ghost var s0 := a[..];
    newLast := BinaryMerge(a, first, last, 0, Plus, draws);
    ghost var s := ShuffledRange(s0, first, last, draws);
    assert s[first..last] == Shuffled(s0[first..last], draws);
    ShuffledIsPermutation(s0[first..last], draws);
    BinaryMergedKeepsSum(s, first, last);
    SumOfPermutation(s[first..last], s0[first..last]);
  }

  /** With 0 and `+`, the merged range carries the same total as the range it came from. */
  lemma BinaryMergedKeepsSum(s: seq<int>, f: nat, l: nat)
    requires f + 1 < l <= |s|
    ensures Sum(BinaryMerged(s, f, l, 0, Plus)[f..l - 1]) == Sum(s[f..l])
  {
    var r := BinaryMerged(s, f, l, 0, Plus);
    assert s[f..l] == [s[f]] + s[f + 1..l - 1] + [s[l - 1]];
    assert r[f..l - 1] == [s[f] + s[l - 1]] + s[f + 1..l - 1];
    SumConcat([s[f]] + s[f + 1..l - 1], [s[l - 1]]);
    SumConcat([s[f]], s[f + 1..l - 1]);
    SumConcat([s[f] + s[l - 1]], s[f + 1..l - 1]);
  }

  // ------------------------------------------------ simultaneous multiple merge

  /** `op` folded over `acc` and `s[hi - 1]`, `s[hi - 2]`, ..., `s[hi - c]`, in that order. */
  function FoldDown<T>(acc: T, op: (T, T) -> T, s: seq<T>, hi: nat, c: nat): T
    requires c <= hi <= |s|
  {
    if c == 0 then acc else op(FoldDown(acc, op, s, hi, c - 1), s[hi - c])
  }

  /**
   * One parent of `w` children: the child at `f` absorbs the `w - 1`
   * elements just below `l`, which leave the range.
   */
  function MergeOne<T>(s: seq<T>, f: nat, l: nat, init: T, op: (T, T) -> T, w: nat): (r: seq<T>)
    requires 1 <= w && f + w <= l <= |s|
    ensures |r| == |s|
  {
    s[f := FoldDown(op(init, s[f]), op, s, l, w - 1)]
  }

  /** `x * c`, written as a repeated sum so that the loops' arithmetic stays linear. */
  function Repeated(x: nat, c: nat): nat
  {
    if c == 0 then 0 else x + Repeated(x, c - 1)
  }

  lemma {:induction false} RepeatedIsProduct(x: nat, c: nat)
    ensures Repeated(x, c) == x * c
  {
    if c > 0 {
      RepeatedIsProduct(x, c - 1);
    }
  }

  /** Each of the `c` groups of `j` keeps one parent and gives away `j - 1` children. */
  lemma {:induction false} RepeatedSplit(j: nat, c: nat)
    requires j >= 1
    ensures Repeated(j, c) == c + Repeated(j - 1, c)
  {
    if c > 0 {
      RepeatedSplit(j, c - 1);
    }
  }

  /** One step of `MergeRepeat`: the first parent, then the `c - 1` others. */
  lemma MergeRepeatStep<T>(s: seq<T>, f: nat, l: nat, init: T, op: (T, T) -> T, j: nat, c: nat)
    requires 1 <= j && 1 <= c && f + Repeated(j, c) <= l <= |s|
    ensures f + j <= l && f + 1 + Repeated(j, c - 1) <= l - (j - 1)
    ensures MergeRepeat(s, f, l, init, op, j, c)
         == MergeRepeat(MergeOne(s, f, l, init, op, j), f + 1, l - (j - 1), init, op, j, c - 1)
  {
  }

  /** `c` parents of `j` children each, stored at `f`, `f + 1`, ..., `f + c - 1`. */
  function MergeRepeat<T>(s: seq<T>, f: nat, l: nat, init: T, op: (T, T) -> T, j: nat, c: nat): (r: seq<T>)
    requires 1 <= j && f + Repeated(j, c) <= l <= |s|
    ensures |r| == |s|
    decreases c
  {
    if c == 0 then s
    else
      MergeRepeat(MergeOne(s, f, l, init, op, j), f + 1, l - (j - 1), init, op, j, c - 1)
  }

  /** Sum over `j' >= j` of `j' * M_j'`: the children the spectrum's parents take. */
  function Consumed(sp: seq<nat>, j: nat): nat
    decreases |sp| - j
  {
    if j >= |sp| then 0 else Repeated(j, sp[j]) + Consumed(sp, j + 1)
  }

  /** Sum over `j' >= j` of `(j' - 1) * M_j'`: the elements the spectrum's parents remove. */
  function MergedAway(sp: seq<nat>, j: nat): nat
    requires j >= 1
    decreases |sp| - j
  {
    if j >= |sp| then 0 else Repeated(j - 1, sp[j]) + MergedAway(sp, j + 1)
  }

  /** The parents of the spectrum from index `j` on, for `j = 2, 3, ...`, in the order the loops take them. */
  function MergeSpectrum<T>(s: seq<T>, f: nat, l: nat, init: T, op: (T, T) -> T, sp: seq<nat>, j: nat): (r: seq<T>)
    requires 1 <= j && f + Consumed(sp, j) <= l <= |s|
    ensures |r| == |s|
    decreases |sp| - j
  {
    if j >= |sp| then s
    else
      RepeatedSplit(j, sp[j]);
      MergeSpectrum(MergeRepeat(s, f, l, init, op, j, sp[j]), f + sp[j], l - Repeated(j - 1, sp[j]), init, op, sp, j + 1)
  }

  /** One step of `MergeSpectrum`: the parents of `j` children first, then those of more. */
  lemma MergeSpectrumStep<T>(s: seq<T>, f: nat, l: nat, init: T, op: (T, T) -> T, sp: seq<nat>, j: nat)
    requires 1 <= j < |sp| && f + Consumed(sp, j) <= l <= |s|
    ensures f + Repeated(j, sp[j]) <= l && f + sp[j] + Consumed(sp, j + 1) <= l - Repeated(j - 1, sp[j])
    ensures MergeSpectrum(s, f, l, init, op, sp, j)
         == MergeSpectrum(MergeRepeat(s, f, l, init, op, j, sp[j]), f + sp[j], l - Repeated(j - 1, sp[j]), init, op, sp, j + 1)
  {
    RepeatedSplit(j, sp[j]);
  }

  /** The survivors after merging a shuffled range under spectrum `sp`. */
  method SimultaneousMultipleMerge<T>(a: array<T>, first: nat, last: nat, init: T, sp: seq<nat>,
                                      op: (T, T) -> T, draws: seq<nat>)
    returns (newLast: nat)
    requires first <= last <= a.Length && last - first > 1
    requires |sp| >= 2
    requires first + Consumed(sp, 2) <= last
    modifies a
    ensures newLast == last - MergedAway(sp, 2)
    ensures a[..] == MergeSpectrum(ShuffledRange(old(a[..]), first, last, draws), first, last, init, op, sp, 2)
  {
    Shuffle(a, first, last, draws);
    newLast := MergeAllParents(a, first, last, init, op, sp);
  }

  /** The loop of `simultaneous_multiple_merge` over the spectrum, from `M_2` on. */
  method MergeAllParents<T>(a: array<T>, first: nat, last: nat, init: T, op: (T, T) -> T, sp: seq<nat>)
    returns (newLast: nat)
    requires first + Consumed(sp, 2) <= last <= a.Length
    modifies a
    ensures newLast == last - MergedAway(sp, 2)
    ensures a[..] == MergeSpectrum(old(a[..]), first, last, init, op, sp, 2)
  {
    ghost var target := MergeSpectrum(a[..], first, last, init, op, sp, 2);
    var f: nat := first;
    newLast := last;
    var j: nat := 2;
    while j < |sp|
      invariant 2 <= j <= |sp| || (|sp| < 2 && j == 2)
      invariant f + Consumed(sp, j) <= newLast <= a.Length
      invariant newLast + MergedAway(sp, 2) == last + MergedAway(sp, j)
      invariant MergeSpectrum(a[..], f, newLast, init, op, sp, j) == target
    {
      RepeatedSplit(j, sp[j]);
      f, newLast := MergeParents(a, f, newLast, init, op, j, sp[j]);
      j := j + 1;
    }
  }

  /** The loop of `simultaneous_multiple_merge` over the `c` parents of `j` children each. */
  method MergeParents<T>(a: array<T>, first: nat, last: nat, init: T, op: (T, T) -> T, j: nat, c: nat)
    returns (newFirst: nat, newLast: nat)
    requires 1 <= j && first + Repeated(j, c) <= last <= a.Length
    modifies a
    ensures newFirst == first + c && newLast == last - Repeated(j - 1, c)
    ensures a[..] == MergeRepeat(old(a[..]), first, last, init, op, j, c)
  {
    ghost var target := MergeRepeat(a[..], first, last, init, op, j, c);
    newFirst, newLast := first, last;
    var left: nat := c;
    RepeatedSplit(j, c);
    while left > 0
      invariant left <= c
      invariant newFirst + left == first + c && newLast + Repeated(j - 1, c) == last + Repeated(j - 1, left)
      invariant newFirst + Repeated(j, left) <= newLast <= a.Length
      invariant MergeRepeat(a[..], newFirst, newLast, init, op, j, left) == target
    {
      newLast := MergeGroup(a, newFirst, newLast, init, op, j);
      newFirst := newFirst + 1;
      left := left - 1;
    }
  }

  /** The inner loops of `simultaneous_multiple_merge` for one parent of `w` children. */
  method MergeGroup<T>(a: array<T>, first: nat, last: nat, init: T, op: (T, T) -> T, w: nat)
    returns (newLast: nat)
    requires 1 <= w && first + w <= last <= a.Length
    modifies a
    ensures newLast == last - (w - 1)
    ensures a[..] == MergeOne(old(a[..]), first, last, init, op, w)
  {
    ghost var s := a[..];
    a[first] := op(init, a[first]);
    newLast := last;
    var k := 1;
    while k < w
      invariant 1 <= k <= w
      invariant newLast == last - (k - 1)
      invariant a[..] == s[first := FoldDown(op(init, s[first]), op, s, last, k - 1)]
    {
      newLast := newLast - 1;
      a[first] := op(a[first], a[newLast]);
      k := k + 1;
    }
  }

  // ------------------------------------------------------- merge properties

  /** `binary_merge` is the multiple merge of a single parent with two children. */
  lemma BinaryMergeIsOneGroup<T>(s: seq<T>, f: nat, l: nat, init: T, op: (T, T) -> T)
    requires f + 1 < l <= |s|
    ensures BinaryMerged(s, f, l, init, op) == MergeOne(s, f, l, init, op, 2)
  {
    assert FoldDown(op(init, s[f]), op, s, l, 1) == op(op(init, s[f]), s[l - 1]);
  }

  /** Only the entries from index 2 on drive the merge: `M_0` and `M_1` are ignored. */
  lemma {:induction false} MergeSpectrumIgnoresLowEntries<T>(s: seq<T>, f: nat, l: nat, init: T, op: (T, T) -> T,
                                                             sp: seq<nat>, sp': seq<nat>, j: nat)
    requires 2 <= j && |sp| == |sp'| && forall i :: 2 <= i < |sp| ==> sp[i] == sp'[i]
    requires f + Consumed(sp, j) <= l <= |s|
    ensures Consumed(sp', j) == Consumed(sp, j) && MergedAway(sp', j) == MergedAway(sp, j)
    ensures MergeSpectrum(s, f, l, init, op, sp', j) == MergeSpectrum(s, f, l, init, op, sp, j)
    decreases |sp| - j
  {
    if j < |sp| {
      RepeatedSplit(j, sp[j]);
      MergeSpectrumIgnoresLowEntries(MergeRepeat(s, f, l, init, op, j, sp[j]), f + sp[j], l - Repeated(j - 1, sp[j]),
                                     init, op, sp, sp', j + 1);
    }
  }

  /** The merge only writes inside `[f, l)`. */
  lemma {:induction false} MergeSpectrumFrame<T>(s: seq<T>, f: nat, l: nat, init: T, op: (T, T) -> T, sp: seq<nat>, j: nat)
    requires 1 <= j && f + Consumed(sp, j) <= l <= |s|
    ensures var r := MergeSpectrum(s, f, l, init, op, sp, j);
            r[..f] == s[..f] && r[l..] == s[l..]
    decreases |sp| - j
  {
    if j < |sp| {
      RepeatedSplit(j, sp[j]);
      var t := MergeRepeat(s, f, l, init, op, j, sp[j]);
      MergeRepeatFrame(s, f, l, init, op, j, sp[j]);
      MergeSpectrumFrame(t, f + sp[j], l - Repeated(j - 1, sp[j]), init, op, sp, j + 1);
      var r := MergeSpectrum(t, f + sp[j], l - Repeated(j - 1, sp[j]), init, op, sp, j + 1);
      assert r[..f] == r[..f + sp[j]][..f];
      assert r[l..] == r[l - Repeated(j - 1, sp[j])..][Repeated(j - 1, sp[j])..];
      assert t[l..] == t[l - Repeated(j - 1, sp[j])..][Repeated(j - 1, sp[j])..];
    }
  }

  lemma {:induction false} MergeRepeatFrame<T>(s: seq<T>, f: nat, l: nat, init: T, op: (T, T) -> T, j: nat, c: nat)
    requires 1 <= j && f + Repeated(j, c) <= l <= |s|
    ensures var r := MergeRepeat(s, f, l, init, op, j, c);
            r[..f] == s[..f] && r[l..] == s[l..]
    decreases c
  {
    if c > 0 {
      var t := MergeOne(s, f, l, init, op, j);
      MergeRepeatFrame(t, f + 1, l - (j - 1), init, op, j, c - 1);
      var r := MergeRepeat(t, f + 1, l - (j - 1), init, op, j, c - 1);
      assert r[..f] == r[..f + 1][..f];
      assert r[l..] == r[l - (j - 1)..][j - 1..];
      assert t[l..] == t[l - (j - 1)..][j - 1..];
    }
  }

  /** With `+`, a parent's value is its first child plus the children taken from the end. */
  lemma {:induction false} FoldDownSum(acc: int, s: seq<int>, hi: nat, c: nat)
    requires c <= hi <= |s|
    ensures FoldDown(acc, Plus, s, hi, c) == acc + Sum(s[hi - c..hi])
  {
    if c == 0 {
      assert s[hi..hi] == [];
    } else {
      FoldDownSum(acc, s, hi, c - 1);
      assert s[hi - c..hi] == [s[hi - c]] + s[hi - (c - 1)..hi];
    }
  }

  /** With 0 and `+`, one parent carries the total of the children it absorbed. */
  lemma MergeOneKeepsSum(s: seq<int>, f0: nat, f: nat, l: nat, w: nat)
    requires f0 <= f && 1 <= w && f + w <= l <= |s|
    ensures Sum(MergeOne(s, f, l, 0, Plus, w)[f0..l - (w - 1)]) == Sum(s[f0..l])
  {
    var l' := l - (w - 1);
    FoldDownSum(s[f], s, l, w - 1);
    var r := MergeOne(s, f, l, 0, Plus, w);
    assert r[f0..f] == s[f0..f] && r[f + 1..l'] == s[f + 1..l'];
    SumSplit(r, f0, f, l');
    SumHead(r, f, l');
    SumSplit(s, f0, f, l);
    SumSplit(s, f, l', l);
    SumHead(s, f, l');
  }

  lemma {:induction false} MergeRepeatKeepsSum(s: seq<int>, f0: nat, f: nat, l: nat, j: nat, c: nat, r: seq<int>, hi: nat)
    requires f0 <= f && 1 <= j && f + Repeated(j, c) <= l <= |s|
    requires r == MergeRepeat(s, f, l, 0, Plus, j, c) && hi + Repeated(j - 1, c) == l
    ensures f0 <= hi <= |r| && Sum(r[f0..hi]) == Sum(s[f0..l])
    decreases c
  {
    RepeatedSplit(j, c);
    if c > 0 {
      RepeatedSplit(j, c - 1);
      var t := MergeOne(s, f, l, 0, Plus, j);
      var l' := l - (j - 1);
      MergeOneKeepsSum(s, f0, f, l, j);
      MergeRepeatStep(s, f, l, 0, Plus, j, c);
      MergeRepeatKeepsSum(t, f0, f + 1, l', j, c - 1, r, hi);
    }
  }

  /** With 0 and `+`, the survivors of the multiple merge carry the total of the range they came from. */
  lemma {:induction false} MergeSpectrumKeepsSum(s: seq<int>, f0: nat, f: nat, l: nat, sp: seq<nat>, j: nat, r: seq<int>, hi: nat)
    requires f0 <= f && 1 <= j && f + Consumed(sp, j) <= l <= |s|
    requires r == MergeSpectrum(s, f, l, 0, Plus, sp, j) && hi + MergedAway(sp, j) == l
    ensures f0 <= hi <= |r| && Sum(r[f0..hi]) == Sum(s[f0..l])
    decreases |sp| - j
  {
    MergedAwayBelowConsumed(sp, j);
    if j < |sp| {
      RepeatedSplit(j, sp[j]);
      var t := MergeRepeat(s, f, l, 0, Plus, j, sp[j]);
      var l' := l - Repeated(j - 1, sp[j]);
      MergeRepeatKeepsSum(s, f0, f, l, j, sp[j], t, l');
      MergeSpectrumStep(s, f, l, 0, Plus, sp, j);
      MergeSpectrumKeepsSum(t, f0, f + sp[j], l', sp, j + 1, r, hi);
    }
  }

  lemma {:induction false} MergedAwayBelowConsumed(sp: seq<nat>, j: nat)
    requires 1 <= j
    ensures MergedAway(sp, j) <= Consumed(sp, j)
    decreases |sp| - j
  {
    if j < |sp| {
      RepeatedSplit(j, sp[j]);
      MergedAwayBelowConsumed(sp, j + 1);
    }
  }

  /** `simultaneous_multiple_merge(first, last, sp, g)`: init `T()`, which is 0, and `std::plus`. */
  method SimultaneousMultipleMergeSum(a: array<int>, first: nat, last: nat, sp: seq<nat>, draws: seq<nat>)
    returns (newLast: nat)
    requires first <= last <= a.Length && last - first > 1
    requires |sp| >= 2
    requires first + Consumed(sp, 2) <= last
    modifies a
    ensures newLast == last - MergedAway(sp, 2) && first <= newLast
    ensures Sum(a[first..newLast]) == Sum(old(a[first..last]))
    ensures a[..first] == old(a[..first]) && a[last..] == old(a[last..])
  {
    ghost var s0 := a[..];
    newLast := SimultaneousMultipleMerge(a, first, last, 0, sp, Plus, draws);
    ghost var s := ShuffledRange(s0, first, last, draws);
    assert s[first..last] == Shuffled(s0[first..last], draws);
    assert s[..first] == s0[..first] && s[last..] == s0[last..];
    ShuffledIsPermutation(s0[first..last], draws);
    SumOfPermutation(s[first..last], s0[first..last]);
    MergeSpectrumKeepsSum(s, first, first, last, sp, 2, a[..], newLast);
    assert a[first..newLast] == MergeSpectrum(s, first, last, 0, Plus, sp, 2)[first..last - MergedAway(sp, 2)];
    MergeSpectrumFrame(s, first, last, 0, Plus, sp, 2);
  }
}
