// The distribution of occupancy spectra: the enumeration's output, filtered by
// a predicate on each spectrum's probability and edited by a handler, stored
// as a support with one weight per spectrum.  The probability itself (von
// Mises' formula, evaluated in multiprecision floating point) is a parameter.

module SpectrumDistribution {
  import opened Occupancy
  import opened SpectrumGenerator

  /** `return_always_true`: the filter that keeps every spectrum. */
  function ReturnAlwaysTrue(p: real): (keep: bool)
    ensures keep
  {
    true
  }

  /** `identity::handle`: the editor that returns the spectrum it is given. */
  function Identity(mj: seq<int>): (r: seq<int>)
    ensures r == mj
  {
    mj
  }

  /** What `truncate_tail::handle` returns: trailing zeros dropped, the first entry always kept. */
  function Truncated(mj: seq<int>): (r: seq<int>)
    requires |mj| > 0
    ensures 0 < |r| <= |mj|
    decreases |mj|
  {
    if |mj| == 1 || mj[|mj| - 1] != 0 then mj else Truncated(mj[..|mj| - 1])
  }

  /** `truncate_tail::handle`: walks back from the last entry over the zeros, then erases them. */
  method TruncateTail(mj: seq<int>) returns (r: seq<int>)
    requires |mj| > 0
    ensures r == Truncated(mj)
  {
    var first := |mj| - 1;
    assert mj[..first + 1] == mj;
    while first != 0 && mj[first] == 0
      invariant 0 <= first < |mj|
      invariant Truncated(mj) == Truncated(mj[..first + 1])
    {
      assert mj[..first + 1][..first] == mj[..first];
      first := first - 1;
    }
    r := mj[..first + 1];
  }

  /** The result is a non-empty prefix, the cut entries are all zero, and it ends on a non-zero entry unless it is the first. */
  lemma {:induction false} TruncatedShape(mj: seq<int>)
    requires |mj| > 0
    ensures var r := Truncated(mj);
            0 < |r| <= |mj| && r == mj[..|r|] &&
            (forall i :: |r| <= i < |mj| ==> mj[i] == 0) &&
            (|r| == 1 || r[|r| - 1] != 0)
    decreases |mj|
  {
    if !(|mj| == 1 || mj[|mj| - 1] != 0) {
      var p := mj[..|mj| - 1];
      TruncatedShape(p);
      var r := Truncated(p);
      assert mj[..|r|] == p[..|r|];
    }
  }

  /** Truncating twice is truncating once. */
  lemma TruncatedIdempotent(mj: seq<int>)
    requires |mj| > 0
    ensures Truncated(Truncated(mj)) == Truncated(mj)
  {
    TruncatedShape(mj);
  }

  /** Dropping trailing zeros keeps both conservation laws of a spectrum. */
  lemma TruncatedKeepsSpectrum(mj: seq<int>, k: int, n: int)
    requires |mj| > 0 && IsSpectrum(mj, k, n)
    ensures IsSpectrum(Truncated(mj), k, n)
  {
    TruncatedShape(mj);
    var r := Truncated(mj);
    ZeroTailFrom(mj, |r|, 0);
  }

  /** The spectrum handler chosen for the distribution. */
  datatype Editor = IdentityEditor | TruncateTailEditor

  function Handle(e: Editor, mj: seq<int>): seq<int>
    requires |mj| > 0
  {
    match e
    case IdentityEditor => Identity(mj)
    case TruncateTailEditor => Truncated(mj)
  }

  predicate AllNonEmpty(ws: seq<seq<int>>)
  {
    forall i :: 0 <= i < |ws| ==> |ws[i]| > 0
  }

  /** The support the callback builds from the stream `ws` of spectra, in order. */
  function KeptSupport(ws: seq<seq<int>>, keep: real -> bool, e: Editor, p: seq<int> -> real): seq<seq<int>>
    requires AllNonEmpty(ws)
  {
    if ws == [] then []
    else (if keep(p(ws[0])) then [Handle(e, ws[0])] else []) + KeptSupport(ws[1..], keep, e, p)
  }

  /** The weights the callback stores for the same stream. */
  function KeptWeights(ws: seq<seq<int>>, keep: real -> bool, p: seq<int> -> real): seq<real>
  {
    if ws == [] then []
    else (if keep(p(ws[0])) then [p(ws[0])] else []) + KeptWeights(ws[1..], keep, p)
  }

  /** Support and weights stay in step, one weight per kept spectrum. */
  lemma {:induction false} KeptSameLength(ws: seq<seq<int>>, keep: real -> bool, e: Editor, p: seq<int> -> real)
    requires AllNonEmpty(ws)
    ensures |KeptSupport(ws, keep, e, p)| == |KeptWeights(ws, keep, p)|
  {
    if ws != [] {
      KeptSameLength(ws[1..], keep, e, p);
    }
  }

  /** Each kept spectrum is an emitted one passed through the editor; with the identity editor it is the emitted one. */
  lemma {:induction false} KeptAreHandled(ws: seq<seq<int>>, keep: real -> bool, e: Editor, p: seq<int> -> real)
    requires AllNonEmpty(ws)
    ensures forall s :: s in KeptSupport(ws, keep, e, p) ==>
              exists w :: w in ws && |w| > 0 && s == Handle(e, w)
  {
    if ws != [] {
      KeptAreHandled(ws[1..], keep, e, p);
      assert forall w :: w in ws[1..] ==> w in ws;
    }
  }

  /** Filtering with `return_always_true` keeps the whole stream. */
  lemma {:induction false} AlwaysTrueKeepsAll(ws: seq<seq<int>>, p: seq<int> -> real)
    requires AllNonEmpty(ws)
    ensures KeptSupport(ws, ReturnAlwaysTrue, IdentityEditor, p) == ws
  {
    if ws != [] {
      AlwaysTrueKeepsAll(ws[1..], p);
      assert ws == [ws[0]] + ws[1..];
    }
  }

  lemma GeneratedNonEmpty(k: nat, n: nat)
    ensures AllNonEmpty(Generated(k, n))
  {
    GeneratedAreSpectra(k, n);
    var ws := Generated(k, n);
    assert forall i :: 0 <= i < |ws| ==> ws[i] in ws;
  }

  /** Every spectrum of the support of `k` balls in `n` urns satisfies the spectrum invariants. */
  lemma SupportAreSpectra(k: nat, n: nat, keep: real -> bool, e: Editor, p: seq<int> -> real)
    ensures AllNonEmpty(Generated(k, n))
    ensures forall s :: s in KeptSupport(Generated(k, n), keep, e, p) ==> IsSpectrum(s, k, n)
  {
    GeneratedNonEmpty(k, n);
    GeneratedAreSpectra(k, n);
    var ws := Generated(k, n);
    KeptAreHandled(ws, keep, e, p);
    forall s | s in KeptSupport(ws, keep, e, p)
      ensures IsSpectrum(s, k, n)
    {
      var w :| w in ws && |w| > 0 && s == Handle(e, w);
      if e == TruncateTailEditor {
        TruncatedKeepsSpectrum(w, k, n);
      }
    }
  }

  /** `OccupancySpectrumDistribution`: the spectra of `k` balls in `n` urns that pass the filter, with their weights. */
  class OccupancySpectrumDistribution {
    const k: nat
    const n: nat
    const keep: real -> bool
    const editor: Editor
    const probability: seq<int> -> real
    var support: seq<seq<int>>
    var weights: seq<real>

    /** The support is the filtered, edited enumeration of `k` balls in `n` urns, one weight per spectrum. */
    ghost predicate Valid()
      reads this
    {
      AllNonEmpty(Generated(k, n)) &&
      support == KeptSupport(Generated(k, n), keep, editor, probability) &&
      weights == KeptWeights(Generated(k, n), keep, probability) &&
      |support| == |weights|
    }

    /** Builds the support by running the enumeration through the callback. */
    constructor (k: nat, n: nat, keep: real -> bool, editor: Editor, probability: seq<int> -> real)
      ensures this.k == k && this.n == n && this.keep == keep && this.editor == editor
      ensures this.probability == probability
      ensures AllNonEmpty(Generated(k, n))
      ensures support == KeptSupport(Generated(k, n), keep, editor, probability)
      ensures weights == KeptWeights(Generated(k, n), keep, probability)
      ensures |support| == |weights|
      ensures Valid()
    {
      this.k := k;
      this.n := n;
      this.keep := keep;
      this.editor := editor;
      this.probability := probability;
      support := [];
      weights := [];
      new;
      var sink := new SpectrumSink();
      Generate(k, n, sink);
      GeneratedNonEmpty(k, n);
      var ws := sink.received;
      assert ws == Generated(k, n);
      Receive(ws);
      assert [] + KeptSupport(ws, keep, editor, probability) == KeptSupport(ws, keep, editor, probability);
      assert [] + KeptWeights(ws, keep, probability) == KeptWeights(ws, keep, probability);
      KeptSameLength(Generated(k, n), keep, editor, probability);
    }

    /** Hands each spectrum of the stream to the callback, in order. */
    method Receive(ws: seq<seq<int>>)
      requires AllNonEmpty(ws)
      modifies this
      ensures support == old(support) + KeptSupport(ws, keep, editor, probability)
      ensures weights == old(weights) + KeptWeights(ws, keep, probability)
    {
      var i := 0;
      while i < |ws|
        invariant 0 <= i <= |ws|
        invariant support + KeptSupport(ws[i..], keep, editor, probability) == old(support) + KeptSupport(ws, keep, editor, probability)
        invariant weights + KeptWeights(ws[i..], keep, probability) == old(weights) + KeptWeights(ws, keep, probability)
      {
        assert ws[i..][1..] == ws[i + 1..];
        Callback(ws[i]);
        i := i + 1;
      }
    }

    /** The callback made by `make_callback`: keep the spectrum and its weight when the filter accepts it. */
    method Callback(mj: seq<int>)
      requires |mj| > 0
      modifies this
      ensures keep(probability(mj)) ==> support == old(support) + [Handle(editor, mj)] && weights == old(weights) + [probability(mj)]
      ensures !keep(probability(mj)) ==> support == old(support) && weights == old(weights)
    {
      var p := probability(mj);
      if keep(p) {
        var handled := mj;
        if editor == TruncateTailEditor {
          handled := TruncateTail(mj);
        }
        support := support + [handled];
        weights := weights + [p];
      }
    }

    /** `operator()(g)`: the spectrum at the index the discrete distribution draws. */
    method Sample(choice: nat) returns (mj: seq<int>)
      requires choice < |support|
      ensures mj == support[choice]
    {
      mj := support[choice];
    }
  }
}
