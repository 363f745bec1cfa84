// The recursive enumeration of the occupancy spectra of n balls in m urns, in
// the order in which it hands them to its callback.  `jmax` bounds the
// occupancy of the fullest urn still to be placed; entries above `jmax` are
// already decided and entries at or below it are still zero.

module SpectrumGenerator {
  import opened Common
  import opened Occupancy

  /** `i <= n / j` leaves room for `i` urns of `j` balls among `n` balls. */
  lemma MulBound(n: nat, j: nat, i: nat)
    requires 0 < j && i <= n / j
    ensures i * j <= n && n / j <= n
  {
    var q := n / j;
    assert q * j + n % j == n;
    MulMonotone(i, q, j);
    MulMonotone(1, j, q);
    assert q * 1 == q && q * j == j * q;
  }

  lemma {:induction false} MulMonotone(a: nat, b: nat, c: nat)
    requires a <= b
    ensures a * c <= b * c
    decreases b - a
  {
    if a < b {
      MulMonotone(a, b - 1, c);
      assert (b - 1) * c + c == b * c;
    }
  }

  /**
   * The spectra `f(n, m, jmax, v)` emits, in order, where `n` balls and `m`
   * urns are still to be placed on top of the partial spectrum `v`.
   */
  function Emitted(n: nat, m: nat, jmax: nat, v: seq<int>): seq<seq<int>>
    requires jmax < |v|
    decreases m, jmax, n + 1
  {
    if m == 0 && n == 0 then [v]
    else if m != 0 && n == 0 then [v[0 := m]]
    else
      (if m != 0 && jmax > 0 then (MulBound(n, jmax, n / jmax); Vertical(n, m, jmax, v, n / jmax)) else [])
      + (if jmax == 0 then [] else Emitted(n, m, jmax - 1, v[jmax := 0]))
  }

  /** The "vertical descent": `i, i - 1, ..., 1` urns holding exactly `jmax` balls each. */
  function Vertical(n: nat, m: nat, jmax: nat, v: seq<int>, i: nat): seq<seq<int>>
    requires 0 < jmax < |v| && i <= n / jmax && n / jmax <= n
    decreases m, jmax, i
  {
    if i == 0 then []
    else
      MulBound(n, jmax, i);
      (if m >= i then
        var left := n - i * jmax;
        Emitted(left, m - i, if left < jmax then left else jmax - 1, v[jmax := i])
      else [])
      + Vertical(n, m, jmax, v, i - 1)
  }

  /** `Generator::generate(n, m, callback)`: the recursion started on `n + 1` zeros. */
  function Generated(n: nat, m: nat): seq<seq<int>>
  {
    Emitted(n, m, n, Zeros(n + 1))
  }

  /** The partial spectrum `f` is called with: decided above `jmax`, zero at and below it. */
  predicate Partial(v: seq<int>, jmax: nat)
  {
    jmax < |v| && NonNegative(v) && forall r :: 0 <= r <= jmax ==> v[r] == 0
  }

  // ------------------------------------------------------------ properties

  /** Every spectrum of `ws` is the partial `v` completed with `n` more balls in `m` more urns. */
  ghost predicate Completes(ws: seq<seq<int>>, v: seq<int>, n: nat, m: nat)
  {
    forall w :: w in ws ==> |w| == |v| && NonNegative(w) && Balls(w) == Balls(v) + n && Urns(w) == Urns(v) + m
  }

  lemma CompletesNone(v: seq<int>, n: nat, m: nat)
    ensures Completes([], v, n, m)
  {
  }

  lemma CompletesConcat(a: seq<seq<int>>, b: seq<seq<int>>, v: seq<int>, n: nat, m: nat)
    requires Completes(a, v, n, m) && Completes(b, v, n, m)
    ensures Completes(a + b, v, n, m)
  {
    forall w | w in a + b
      ensures |w| == |v| && NonNegative(w) && Balls(w) == Balls(v) + n && Urns(w) == Urns(v) + m
    {
      assert w in a || w in b;
    }
  }

  /** Completing `u`, itself `v` with some balls and urns added, completes `v`. */
  lemma CompletesRebase(ws: seq<seq<int>>, u: seq<int>, v: seq<int>, a: nat, b: nat, n: nat, m: nat)
    requires Completes(ws, u, a, b)
    requires |u| == |v| && Balls(u) + a == Balls(v) + n && Urns(u) + b == Urns(v) + m
    ensures Completes(ws, v, n, m)
  {
  }

  /** Every emitted spectrum is the partial one completed: same length, `n` more balls, `m` more urns. */
  lemma {:induction false} EmittedConserves(n: nat, m: nat, jmax: nat, v: seq<int>)
    requires Partial(v, jmax)
    ensures Completes(Emitted(n, m, jmax, v), v, n, m)
    decreases m, jmax, n + 1
  {
    if m == 0 && n == 0 {
      assert Emitted(n, m, jmax, v) == [v];
    } else if m != 0 && n == 0 {
      NoBallsLeft(m, jmax, v);
      SetZeroFrom(v, 0, m, 0);
    } else {
      var vertical: seq<seq<int>> := [];
      if m != 0 && jmax > 0 {
        vertical := Vertical(n, m, jmax, v, n / jmax);
        VerticalConserves(n, m, jmax, v, n / jmax);
      } else {
        CompletesNone(v, n, m);
      }
      var rest: seq<seq<int>> := [];
      if jmax > 0 {
        rest := Emitted(n, m, jmax - 1, v[jmax := 0]);
        EmittedRestConserves(n, m, jmax, v);
      } else {
        CompletesNone(v, n, m);
      }
      CompletesConcat(vertical, rest, v, n, m);
      EmittedUnfold(n, m, jmax, v);
    }
  }

  /** The spectra emitted once no more urn holds `jmax` balls complete the partial one. */
  lemma EmittedRestConserves(n: nat, m: nat, jmax: nat, v: seq<int>)
    requires Partial(v, jmax) && 0 < jmax
    ensures Completes(Emitted(n, m, jmax - 1, v[jmax := 0]), v, n, m)
    decreases m, jmax, 0
  {
    assert v[jmax := 0] == v;
    EmittedConserves(n, m, jmax - 1, v);
  }

  lemma {:induction false} VerticalConserves(n: nat, m: nat, jmax: nat, v: seq<int>, i: nat)
    requires Partial(v, jmax) && 0 < jmax && i <= n / jmax && n / jmax <= n
    ensures Completes(Vertical(n, m, jmax, v, i), v, n, m)
    decreases m, jmax, i
  {
    if i > 0 {
      VerticalUnfold(n, m, jmax, v, i);
      var left := n - i * jmax;
      var head := if m >= i then Emitted(left, m - i, if left < jmax then left else jmax - 1, v[jmax := i]) else [];
      if m >= i {
        VerticalHeadConserves(n, m, jmax, v, i);
      }
      VerticalConserves(n, m, jmax, v, i - 1);
      CompletesConcat(head, Vertical(n, m, jmax, v, i - 1), v, n, m);
    }
  }

  lemma EmittedUnfold(n: nat, m: nat, jmax: nat, v: seq<int>)
    requires jmax < |v| && n > 0
    ensures jmax > 0 ==> n / jmax <= n
    ensures Emitted(n, m, jmax, v)
            == (if m != 0 && jmax > 0 then Vertical(n, m, jmax, v, n / jmax) else [])
               + (if jmax == 0 then [] else Emitted(n, m, jmax - 1, v[jmax := 0]))
  {
    if jmax > 0 {
      MulBound(n, jmax, n / jmax);
    }
  }

  lemma VerticalUnfold(n: nat, m: nat, jmax: nat, v: seq<int>, i: nat)
    requires 0 < jmax < |v| && 0 < i <= n / jmax && n / jmax <= n
    ensures i * jmax <= n
    ensures var left := n - i * jmax;
            Vertical(n, m, jmax, v, i)
            == (if m >= i then Emitted(left, m - i, if left < jmax then left else jmax - 1, v[jmax := i]) else [])
               + Vertical(n, m, jmax, v, i - 1)
  {
    MulBound(n, jmax, i);
  }

  /** The spectra with `i` urns of `jmax` balls complete the partial one. */
  lemma VerticalHeadConserves(n: nat, m: nat, jmax: nat, v: seq<int>, i: nat)
    requires Partial(v, jmax) && 0 < jmax && 0 < i <= m && i * jmax <= n
    ensures var left := n - i * jmax;
            Completes(Emitted(left, m - i, if left < jmax then left else jmax - 1, v[jmax := i]), v, n, m)
    decreases m, jmax, 0
  {
    var left := n - i * jmax;
    var u := v[jmax := i];
    SetZeroFrom(v, jmax, i, 0);
    assert jmax * i == i * jmax;
    EmittedConserves(left, m - i, if left < jmax then left else jmax - 1, u);
    CompletesRebase(Emitted(left, m - i, if left < jmax then left else jmax - 1, u), u, v, left, m - i, n, m);
  }

  /** Every spectrum handed to the callback has length `n + 1`, `n` balls and `m` urns. */
  lemma GeneratedAreSpectra(n: nat, m: nat)
    ensures forall w :: w in Generated(n, m) ==> |w| == n + 1 && IsSpectrum(w, n, m)
  {
    var z := Zeros(n + 1);
    ZeroesFrom(z, 0);
    EmittedConserves(n, m, n, z);
  }

  /** With no ball left and some urns, the one spectrum emitted puts all those urns at `M_0`. */
  lemma NoBallsLeft(m: nat, jmax: nat, v: seq<int>)
    requires m > 0 && jmax < |v|
    ensures Emitted(0, m, jmax, v) == [v[0 := m]]
  {
  }

  /** A branch whose `jmax` is 0 while balls remain emits nothing. */
  lemma {:induction false} StuckBranchEmitsNothing(n: nat, m: nat, v: seq<int>)
    requires n > 0 && 0 < |v|
    ensures Emitted(n, m, 0, v) == []
  {
  }

  /** Two balls in two urns: one urn with both, or one ball in each. */
  lemma TwoBallsTwoUrns()
    ensures Generated(2, 2) == [[1, 0, 1], [0, 2, 0]]
  {
    var z := Zeros(3);
    assert z == [0, 0, 0] && z[2 := 0] == z && z[1 := 0] == z;
    assert Vertical(2, 2, 2, z, 1) == [[1, 0, 1]] by {
      assert z[2 := 1] == [0, 0, 1] && z[2 := 1][0 := 1] == [1, 0, 1];
      assert Emitted(0, 1, 0, z[2 := 1]) == [[1, 0, 1]];
      assert Vertical(2, 2, 2, z, 0) == [];
    }
    assert Emitted(2, 2, 1, z) == [[0, 2, 0]] by {
      assert z[1 := 2] == [0, 2, 0];
      assert Emitted(0, 0, 0, z[1 := 2]) == [[0, 2, 0]];
      assert Emitted(1, 1, 0, z[1 := 1]) == [];
      assert Vertical(2, 2, 1, z, 2) == [[0, 2, 0]];
      assert Emitted(2, 2, 0, z) == [];
    }
  }

  // ------------------------------------------------------------ the enumeration

  /** The callback's view of the stream: every spectrum it has received, in order. */
  class SpectrumSink {
    var received: seq<seq<int>>

    constructor ()
      ensures received == []
    {
      received := [];
    }

    method Accept(v: seq<int>)
      modifies this
      ensures received == old(received) + [v]
    {
      received := received + [v];
    }
  }

  /** `Generator::generate(n, m, callback)`. */
  method Generate(n: nat, m: nat, sink: SpectrumSink)
    modifies sink
    ensures sink.received == old(sink.received) + Generated(n, m)
  {
    var v := Zeros(n + 1);
    F(n, m, n, v, sink);
  }

  /** The recursive `f(n, m, j_max, v, callback)`. */
  method F(n: nat, m: nat, jmax: nat, v: seq<int>, sink: SpectrumSink)
    requires jmax < |v|
    modifies sink
    ensures sink.received == old(sink.received) + Emitted(n, m, jmax, v)
    decreases m, jmax, 1
  {
    if m == 0 && n == 0 {
      sink.Accept(v);
      return;
    }
    ghost var vertical: seq<seq<int>> := [];
    if m != 0 {
      if n == 0 {
        var copy := v[0 := m];
        sink.Accept(copy);
        return;
      } else if jmax > 0 {
        VerticalDescent(n, m, jmax, v, sink);
        vertical := Vertical(n, m, jmax, v, n / jmax);
      }
    }
    assert sink.received == old(sink.received) + vertical;
    if jmax == 0 && n > 0 {
      return;
    }
    var copy := v[jmax := 0];
    F(n, m, jmax - 1, copy, sink);
    EmittedUnfold(n, m, jmax, v);
    SeqAssoc(old(sink.received), vertical, Emitted(n, m, jmax - 1, copy));
  }

  /** The loop of `f` over `i = n / j_max, ..., 1`, each placing `i` urns of `j_max` balls. */
  method VerticalDescent(n: nat, m: nat, jmax: nat, v: seq<int>, sink: SpectrumSink)
    requires 0 < jmax < |v|
    modifies sink
    ensures n / jmax <= n
    ensures sink.received == old(sink.received) + Vertical(n, m, jmax, v, n / jmax)
    decreases m, jmax, 0
  {
    var top := n / jmax;
    MulBound(n, jmax, top);
    var i: nat := top;
    while i >= 1
      invariant i <= top
      invariant sink.received + Vertical(n, m, jmax, v, i)
                == old(sink.received) + Vertical(n, m, jmax, v, top)
      decreases i
    {
      VerticalUnfold(n, m, jmax, v, i);
      var copy := v[jmax := i];
      var left := n - i * jmax;
      var next := if left < jmax then left else jmax - 1;
      ghost var before := sink.received;
      ghost var head: seq<seq<int>> := [];
      if m >= i {
        F(left, m - i, next, copy, sink);
        head := Emitted(left, m - i, next, copy);
      }
      assert sink.received == before + head;
      SeqAssoc(before, head, Vertical(n, m, jmax, v, i - 1));
      i := i - 1;
    }
  }
}
