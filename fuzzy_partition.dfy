// A fuzzy partition: a clusters × elements matrix of membership
// coefficients, built from a map from each element to its vector of
// coefficients (one per cluster), whose clusters can be merged by a
// restricted growth string.  Coefficients are taken as reals.

module FuzzyPartitions {

  /** A map from element identifiers to coefficient vectors, listed in increasing key order as a `std::map` iterates. */
  type Entries = seq<(int, seq<real>)>

  ghost predicate KeysIncreasing(entries: Entries)
  {
    forall j, k :: 0 <= j < k < |entries| ==> entries[j].0 < entries[k].0
  }

  /** The map's keys. */
  function Keys(entries: Entries): (r: set<int>)
    ensures forall x :: x in r <==> exists j :: 0 <= j < |entries| && entries[j].0 == x
  {
    if |entries| == 0 then {} else Keys(entries[..|entries| - 1]) + {entries[|entries| - 1].0}
  }

  /** The cluster indices 0, …, n - 1. */
  function Range(n: nat): (r: set<nat>)
    ensures forall i: nat :: i in r <==> i < n
  {
    if n == 0 then {} else Range(n - 1) + {n - 1}
  }

  lemma {:induction false} RangeSize(n: nat)
    ensures |Range(n)| == n
  {
    if n > 0 {
      RangeSize(n - 1);
      CardAddFresh(Range(n - 1), n - 1);
    }
  }

  lemma CardAddFresh(s: set<nat>, x: nat)
    requires x !in s
    ensures |s + {x}| == |s| + 1
  {
  }

  lemma {:induction false} KeysSize(entries: Entries)
    requires KeysIncreasing(entries)
    ensures |Keys(entries)| == |entries|
  {
    if |entries| > 0 {
      var init := entries[..|entries| - 1];
      assert KeysIncreasing(init) by {
        forall j, k | 0 <= j < k < |init| ensures init[j].0 < init[k].0 {
          assert init[j] == entries[j] && init[k] == entries[k];
        }
      }
      KeysSize(init);
      assert entries[|entries| - 1].0 !in Keys(init);
    }
  }

  /** Every coefficient vector has `len` entries. */
  ghost predicate SameLength(entries: Entries, len: nat)
  {
    forall j :: 0 <= j < |entries| ==> |entries[j].1| == len
  }

  /** The clusters × elements matrix whose entry (i, j) is the j-th element's i-th coefficient. */
  function CoefficientRows(entries: Entries, len: nat): (r: seq<seq<real>>)
    requires SameLength(entries, len)
    ensures |r| == len && forall i :: 0 <= i < len ==> |r[i]| == |entries|
  {
    seq(len, i requires 0 <= i < len => seq(|entries|, j requires 0 <= j < |entries| => entries[j].1[i]))
  }

  ghost predicate Rectangular(rows: seq<seq<real>>, cols: nat)
  {
    forall i :: 0 <= i < |rows| ==> |rows[i]| == cols
  }

  /** Column `j` of a matrix: one element's coefficients over all clusters. */
  function Column(rows: seq<seq<real>>, j: nat): (r: seq<real>)
    requires forall i :: 0 <= i < |rows| ==> j < |rows[i]|
    ensures |r| == |rows| && forall i :: 0 <= i < |rows| ==> r[i] == rows[i][j]
  {
    seq(|rows|, i requires 0 <= i < |rows| => rows[i][j])
  }

  /** Each element's column is its coefficient vector. */
  lemma ColumnIsCoefficients(entries: Entries, len: nat, j: nat)
    requires SameLength(entries, len) && j < |entries|
    ensures Column(CoefficientRows(entries, len), j) == entries[j].1
  {
  }

  function Total(xs: seq<real>): real
  {
    if |xs| == 0 then 0.0 else Total(xs[..|xs| - 1]) + xs[|xs| - 1]
  }

  /** The sum of the entries of `xs` whose cluster `rgs` sends to block `b`. */
  function BlockTotal(xs: seq<real>, rgs: seq<nat>, b: nat): real
    requires |xs| == |rgs|
  {
    if |xs| == 0 then 0.0
    else BlockTotal(xs[..|xs| - 1], rgs[..|rgs| - 1], b) + (if rgs[|rgs| - 1] == b then xs[|xs| - 1] else 0.0)
  }

  /** The matrix after merging: row `b` is the sum of the rows `i` with `rgs[i] == b`. */
  function Merged(rows: seq<seq<real>>, cols: nat, rgs: seq<nat>, nBlocks: nat): (r: seq<seq<real>>)
    requires Rectangular(rows, cols) && |rgs| == |rows|
    ensures |r| == nBlocks && Rectangular(r, cols)
  {
    seq(nBlocks, b requires 0 <= b < nBlocks =>
      seq(cols, j requires 0 <= j < cols => BlockTotal(Column(rows, j), rgs, b)))
  }

  lemma BlockTotalStep(xs: seq<real>, rgs: seq<nat>, i: nat, b: nat)
    requires |xs| == |rgs| && i < |xs|
    ensures BlockTotal(xs[..i + 1], rgs[..i + 1], b) ==
      BlockTotal(xs[..i], rgs[..i], b) + (if rgs[i] == b then xs[i] else 0.0)
  {
    assert xs[..i + 1][..i] == xs[..i];
    assert rgs[..i + 1][..i] == rgs[..i];
  }

  /** The totals of `k` blocks, one per block. */
  function BlockTotals(xs: seq<real>, rgs: seq<nat>, k: nat): (r: seq<real>)
    requires |xs| == |rgs|
    ensures |r| == k && forall b :: 0 <= b < k ==> r[b] == BlockTotal(xs, rgs, b)
  {
    seq(k, b requires 0 <= b < k => BlockTotal(xs, rgs, b))
  }

  lemma {:induction false} TotalOfSum(u: seq<real>, v: seq<real>, w: seq<real>)
    requires |u| == |v| == |w| && forall b :: 0 <= b < |w| ==> w[b] == u[b] + v[b]
    ensures Total(w) == Total(u) + Total(v)
  {
    if |w| > 0 {
      TotalOfSum(u[..|u| - 1], v[..|v| - 1], w[..|w| - 1]);
    }
  }

  /** A sequence holding `x` at `r` and 0 elsewhere totals `x`. */
  lemma {:induction false} TotalOfIndicator(v: seq<real>, r: nat, x: real)
    requires r < |v| && v[r] == x && forall b :: 0 <= b < |v| && b != r ==> v[b] == 0.0
    ensures Total(v) == x
  {
    if |v| - 1 == r {
      ZeroTotal(v[..r]);
    } else {
      TotalOfIndicator(v[..|v| - 1], r, x);
    }
  }

  lemma {:induction false} ZeroTotal(v: seq<real>)
    requires forall b :: 0 <= b < |v| ==> v[b] == 0.0
    ensures Total(v) == 0.0
  {
    if |v| > 0 {
      ZeroTotal(v[..|v| - 1]);
    }
  }

  /** Merging by a string whose entries are all below `k` keeps an element's total membership. */
  lemma {:induction false} BlockTotalsPreserveTotal(xs: seq<real>, rgs: seq<nat>, k: nat)
    requires |xs| == |rgs| && forall i :: 0 <= i < |rgs| ==> rgs[i] < k
    ensures Total(BlockTotals(xs, rgs, k)) == Total(xs)
  {
    if |xs| > 0 {
      var n := |xs| - 1;
      var xs', rgs' := xs[..n], rgs[..n];
      BlockTotalsPreserveTotal(xs', rgs', k);
      assert forall b :: 0 <= b < k ==> BlockTotal(xs, rgs, b) == BlockTotal(xs', rgs', b) + (if rgs[n] == b then xs[n] else 0.0);
      var ind := seq(k, b requires 0 <= b < k => if rgs[n] == b then xs[n] else 0.0);
      TotalOfIndicator(ind, rgs[n], xs[n]);
      TotalOfSum(BlockTotals(xs', rgs', k), ind, BlockTotals(xs, rgs, k));
      assert Total(xs) == Total(xs') + xs[n];
    } else {
      ZeroTotal(BlockTotals(xs, rgs, k));
    }
  }

  /** Merging clusters preserves every element's column total. */
  lemma MergedColumnTotals(rows: seq<seq<real>>, cols: nat, rgs: seq<nat>, nBlocks: nat, j: nat)
    requires Rectangular(rows, cols) && |rgs| == |rows| && j < cols
    requires forall i :: 0 <= i < |rgs| ==> rgs[i] < nBlocks
    ensures Total(Column(Merged(rows, cols, rgs, nBlocks), j)) == Total(Column(rows, j))
  {
    assert Column(Merged(rows, cols, rgs, nBlocks), j) == BlockTotals(Column(rows, j), rgs, nBlocks);
    BlockTotalsPreserveTotal(Column(rows, j), rgs, nBlocks);
  }

  /** The coefficients of the merging test. */
  function ExampleEntries(): Entries
  {
    [(0, [0.0, 0.1, 0.9, 0.0]), (1, [0.4, 0.1, 0.2, 0.3]), (2, [0.0, 0.3, 0.6, 0.1])]
  }

  /** Merging clusters 0 and 1 of the test's partition by 0, 0, 1, 2 gives the test's expected matrix. */
  lemma MergingExample()
    ensures Merged(CoefficientRows(ExampleEntries(), 4), 3, [0, 0, 1, 2], 3) ==
      CoefficientRows([(0, [0.1, 0.9, 0.0]), (1, [0.5, 0.2, 0.3]), (2, [0.3, 0.6, 0.1])], 3)
  {
    var rows := CoefficientRows(ExampleEntries(), 4);
    var rgs: seq<nat> := [0, 0, 1, 2];
    forall j | 0 <= j < 3
      ensures BlockTotal(Column(rows, j), rgs, 0) == rows[0][j] + rows[1][j]
      ensures BlockTotal(Column(rows, j), rgs, 1) == rows[2][j]
      ensures BlockTotal(Column(rows, j), rgs, 2) == rows[3][j]
    {
      var c := Column(rows, j);
      assert c[..0] == [] && rgs[..0] == [] && c[..4] == c && rgs[..4] == rgs;
      forall b | 0 <= b < 3 ensures BlockTotal(c, rgs, b) == (if b == 0 then c[0] + c[1] else c[b + 1]) {
        BlockTotalStep(c, rgs, 0, b);
        BlockTotalStep(c, rgs, 1, b);
        BlockTotalStep(c, rgs, 2, b);
        BlockTotalStep(c, rgs, 3, b);
      }
    }
    var merged := Merged(rows, 3, rgs, 3);
    var expected := CoefficientRows([(0, [0.1, 0.9, 0.0]), (1, [0.5, 0.2, 0.3]), (2, [0.3, 0.6, 0.1])], 3);
    forall b | 0 <= b < 3 ensures merged[b] == expected[b] {
      forall j | 0 <= j < 3 ensures merged[b][j] == expected[b][j] { }
    }
  }

  /** The entries of an `array2` as rows. */
  function RowsOf(m: array2<real>): (r: seq<seq<real>>)
    reads m
    ensures |r| == m.Length0 && Rectangular(r, m.Length1)
    ensures forall i, j :: 0 <= i < m.Length0 && 0 <= j < m.Length1 ==> r[i][j] == m[i, j]
  {
    seq(m.Length0, i requires 0 <= i < m.Length0 reads m =>
      seq(m.Length1, j requires 0 <= j < m.Length1 reads m => m[i, j]))
  }

  /** `operator==` on two matrices: equal shapes and equal entries, scanned row by row until a difference. */
  method MatrixEqual(m: array2<real>, n: array2<real>) returns (r: bool)
    ensures r <==> m.Length0 == n.Length0 && m.Length1 == n.Length1 && RowsOf(m) == RowsOf(n)
  {
    r := m.Length0 == n.Length0 && m.Length1 == n.Length1;
    if r {
      var i := 0;
      while r && i < m.Length0
        invariant 0 <= i <= m.Length0
        invariant r ==> forall p, q :: 0 <= p < i && 0 <= q < m.Length1 ==> m[p, q] == n[p, q]
        invariant !r ==> exists p, q :: 0 <= p < m.Length0 && 0 <= q < m.Length1 && m[p, q] != n[p, q]
      {
        var j := 0;
        while r && j < m.Length1
          invariant 0 <= j <= m.Length1
          invariant r ==> (forall p, q :: 0 <= p < i && 0 <= q < m.Length1 ==> m[p, q] == n[p, q]) &&
                          (forall q :: 0 <= q < j ==> m[i, q] == n[i, q])
          invariant !r ==> exists p, q :: 0 <= p < m.Length0 && 0 <= q < m.Length1 && m[p, q] != n[p, q]
        {
          r := r && m[i, j] == n[i, j];
          j := j + 1;
        }
        if r {
          i := i + 1;
        }
      }
      if r {
        assert RowsOf(m) == RowsOf(n) by {
          forall p | 0 <= p < m.Length0 ensures RowsOf(m)[p] == RowsOf(n)[p] { }
        }
      } else {
        assert !(RowsOf(m) == RowsOf(n)) by {
          var p, q :| 0 <= p < m.Length0 && 0 <= q < m.Length1 && m[p, q] != n[p, q];
          assert RowsOf(m)[p][q] != RowsOf(n)[p][q];
        }
      }
    }
  }

  /** The constructor's inner loop: column `j` of `m` receives `col`. */
  method FillColumn(m: array2<real>, j: nat, col: seq<real>)
    requires j < m.Length1 && |col| == m.Length0
    modifies m
    ensures forall p, q :: 0 <= p < m.Length0 && 0 <= q < m.Length1 ==>
      m[p, q] == if q == j then col[p] else old(m[p, q])
  {
    var i := 0;
    while i < m.Length0
      invariant 0 <= i <= m.Length0
      invariant forall p, q :: 0 <= p < m.Length0 && 0 <= q < m.Length1 ==>
        m[p, q] == if q == j && p < i then col[p] else old(m[p, q])
    {
      m[i, j] := col[i];
      i := i + 1;
    }
  }

  /** The inner loop of `merge_clusters`: row `i` of `src` is added into row `r` of `m`. */
  method AddRow(m: array2<real>, src: array2<real>, i: nat, r: nat)
    requires m != src && i < src.Length0 && r < m.Length0 && m.Length1 == src.Length1
    modifies m
    ensures forall b, q :: 0 <= b < m.Length0 && 0 <= q < m.Length1 ==>
      m[b, q] == old(m[b, q]) + (if b == r then src[i, q] else 0.0)
  {
    var j := 0;
    while j < m.Length1
      invariant 0 <= j <= m.Length1
      invariant forall b, q :: 0 <= b < m.Length0 && 0 <= q < m.Length1 ==>
        m[b, q] == old(m[b, q]) + (if b == r && q < j then src[i, q] else 0.0)
    {
      m[r, j] := m[r, j] + src[i, j];
      j := j + 1;
    }
  }

  /** `FuzzyPartition`: the elements, the cluster indices and the membership matrix. */
  class FuzzyPartition {
    var elements: set<int>
    var clusters: set<nat>
    var coefficients: array2<real>

    /** One column per element, one row per cluster. */
    ghost predicate Valid()
      reads this
    {
      coefficients.Length1 == |elements| && clusters == Range(coefficients.Length0)
    }

    /** The matrix as rows. */
    function Rows(): seq<seq<real>>
      reads this, coefficients
    {
      RowsOf(coefficients)
    }

    /**
     * The constructor: the elements are the map's keys, the clusters the
     * indices of the first vector, and entry (i, j) the j-th element's i-th
     * coefficient; every vector must be as long as the first.
     */
    constructor (entries: Entries)
      requires |entries| > 0 && KeysIncreasing(entries)
      requires SameLength(entries, |entries[0].1|)
      ensures Valid()
      ensures elements == Keys(entries) && clusters == Range(|entries[0].1|)
      ensures Rows() == CoefficientRows(entries, |entries[0].1|)
    {
      var nRows := |entries[0].1|;
      var m := new real[nRows, |entries|]((i, j) => 0.0);
      var j := 0;
      while j < |entries|
        invariant 0 <= j <= |entries|
        invariant forall p, q :: 0 <= p < nRows && 0 <= q < j ==> m[p, q] == entries[q].1[p]
      {
        FillColumn(m, j, entries[j].1);
        j := j + 1;
      }
      KeysSize(entries);
      elements := Keys(entries);
      clusters := Range(nRows);
      coefficients := m;
      assert RowsOf(m) == CoefficientRows(entries, nRows) by {
        forall p | 0 <= p < nRows ensures RowsOf(m)[p] == CoefficientRows(entries, nRows)[p] { }
      }
    }

    /** `nElements()`: the number of columns. */
    function NElements(): (r: nat)
      requires Valid()
      reads this
      ensures r == coefficients.Length1
    {
      |elements|
    }

    /** `nClusters()`: the number of rows. */
    function NClusters(): (r: nat)
      requires Valid()
      reads this
      ensures r == coefficients.Length0
    {
      RangeSize(coefficients.Length0);
      |clusters|
    }

    /**
     * `merge_clusters(rgs)`: the string needs one entry per cluster; the new
     * matrix has one row per block, row `b` summing the old rows `i` with
     * `rgs[i] == b`, and the clusters become 0, …, nBlocks - 1.
     */
    method MergeClusters(rgs: seq<nat>, nBlocks: nat)
      requires Valid() && |rgs| == NClusters()
      requires forall i :: 0 <= i < |rgs| ==> rgs[i] < nBlocks
      modifies this
      ensures Valid() && elements == old(elements) && clusters == Range(nBlocks)
      ensures Rows() == Merged(old(Rows()), |elements|, rgs, nBlocks)
    {
      ghost var rows := Rows();
      var nCols := coefficients.Length1;
      var m := new real[nBlocks, nCols]((b, j) => 0.0);
      var i := 0;
      while i < coefficients.Length0
        modifies m
        invariant 0 <= i <= coefficients.Length0 && rows == RowsOf(coefficients)
        invariant forall b, q :: 0 <= b < nBlocks && 0 <= q < nCols ==>
          m[b, q] == BlockTotal(Column(rows, q)[..i], rgs[..i], b)
      {
        AddRow(m, coefficients, i, rgs[i]);
        forall b, q | 0 <= b < nBlocks && 0 <= q < nCols
          ensures m[b, q] == BlockTotal(Column(rows, q)[..i + 1], rgs[..i + 1], b)
        {
          BlockTotalStep(Column(rows, q), rgs, i, b);
        }
        i := i + 1;
      }
      coefficients := m;
      clusters := Range(nBlocks);
      assert RowsOf(m) == Merged(rows, nCols, rgs, nBlocks) by {
        forall b | 0 <= b < nBlocks ensures RowsOf(m)[b] == Merged(rows, nCols, rgs, nBlocks)[b] {
          forall q | 0 <= q < nCols ensures RowsOf(m)[b][q] == Merged(rows, nCols, rgs, nBlocks)[b][q] {
            assert Column(rows, q)[..|rgs|] == Column(rows, q) && rgs[..|rgs|] == rgs;
          }
        }
      }
    }

    /** `operator==`: equal elements, equal matrices and equal clusters. */
    method Equals(other: FuzzyPartition) returns (r: bool)
      ensures r <==> (elements == other.elements && clusters == other.clusters &&
                      coefficients.Length0 == other.coefficients.Length0 &&
                      coefficients.Length1 == other.coefficients.Length1 && Rows() == other.Rows())
    {
      var same := MatrixEqual(coefficients, other.coefficients);
      r := elements == other.elements && same && clusters == other.clusters;
    }
  }
}
