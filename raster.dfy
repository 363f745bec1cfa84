// The integer grid logic of `raster`: cells of a `width` x `height` grid are
// numbered row by row by a location descriptor, and bands by time.  The GDAL
// dataset behind the grid is not modelled; only its dimensions are.

module Raster {
  import opened Common

  datatype ColRow = ColRow(col: int, row: int)
  datatype RowCol = RowCol(row: int, col: int)

  /** The dimensions of the dataset and the time of each band. */
  datatype Grid = Grid(width: int, height: int, times: seq<int>)

  /** `to_colrow(x)`: column `x % width`, row `x / width`; the row must lie in the grid. */
  function ToColRow(g: Grid, x: int): (c: ColRow)
    requires g.width > 0 && CDiv(x, g.width) < g.height
    ensures c.row * g.width + c.col == x
  {
    ColRow(CRem(x, g.width), CDiv(x, g.width))
  }

  /** `to_rowcol(x)`: the same cell, fields swapped. */
  function ToRowCol(g: Grid, x: int): (r: RowCol)
    requires g.width > 0 && CDiv(x, g.width) < g.height
    ensures r.row == ToColRow(g, x).row && r.col == ToColRow(g, x).col
  {
    var c := ToColRow(g, x);
    RowCol(c.row, c.col)
  }

  /** A descriptor of one of the `width * height` cells gives a column and a row inside the grid. */
  lemma ToColRowInGrid(g: Grid, x: int)
    requires g.width > 0 && 0 <= x < g.width * g.height
    ensures CDiv(x, g.width) < g.height
    ensures 0 <= ToColRow(g, x).col < g.width && 0 <= ToColRow(g, x).row < g.height
  {
    var q := x / g.width;
    if q >= g.height {
      MulLeft(g.height, q, g.width);
    }
  }

  lemma MulLeft(a: int, b: int, w: int)
    requires 0 <= a <= b && w > 0
    ensures a * w <= b * w
  {
  }

  predicate InGrid(g: Grid, c: ColRow)
  {
    0 <= c.col < g.width && 0 <= c.row < g.height
  }

  /** `to_descriptor(colrow)` as written: the bounds check, then `col * width + col`. */
  function ToDescriptorAsWritten(g: Grid, c: ColRow): (r: Result<int>)
    ensures r.Success? <==> InGrid(g, c)
    ensures r.Failure? ==> r.error == OutOfRange
  {
    if c.col >= g.width || c.col < 0 || c.row < 0 || c.row >= g.height then Failure(OutOfRange)
    else Success(c.col * g.width + c.col)
  }

  /** In a 2 x 2 grid, cell 2 is column 0 of row 1, but the descriptor written for it is 0. */
  lemma ToDescriptorAsWrittenIsNotInverse()
    ensures ToColRow(Grid(2, 2, []), 2) == ColRow(0, 1)
    ensures ToDescriptorAsWritten(Grid(2, 2, []), ColRow(0, 1)) == Success(0)
  {
  }

  /** `to_descriptor(colrow)` as documented: the inverse of `to_colrow`. */
  function ToDescriptor(g: Grid, c: ColRow): (r: Result<int>)
    ensures r.Success? <==> InGrid(g, c)
    ensures r.Failure? ==> r.error == OutOfRange
  {
    if c.col >= g.width || c.col < 0 || c.row < 0 || c.row >= g.height then Failure(OutOfRange)
    else Success(c.row * g.width + c.col)
  }

  /** Descriptor to column and row and back, and back again: the two conversions are inverse on the grid. */
  lemma DescriptorRoundTrip(g: Grid, x: int)
    requires g.width > 0 && 0 <= x < g.width * g.height
    ensures CDiv(x, g.width) < g.height && ToDescriptor(g, ToColRow(g, x)) == Success(x)
  {
    ToColRowInGrid(g, x);
  }

  lemma ColRowRoundTrip(g: Grid, c: ColRow)
    requires g.width > 0 && InGrid(g, c)
    ensures var x := c.row * g.width + c.col;
            ToDescriptor(g, c) == Success(x) && 0 <= x < g.width * g.height &&
            CDiv(x, g.width) < g.height && ToColRow(g, x) == c
  {
    var x := c.row * g.width + c.col;
    MulLeft(c.row, g.height - 1, g.width);
    assert (g.height - 1) * g.width + g.width == g.width * g.height;
    DivOfRowMajor(c.row, c.col, g.width);
  }

  lemma DivOfRowMajor(row: nat, col: nat, w: int)
    requires w > 0 && col < w
    ensures (row * w + col) / w == row && (row * w + col) % w == col
  {
    var x := row * w + col;
    var q, r := x / w, x % w;
    assert q * w + r == x;
    assert (q - row) * w == col - r;
    if q > row {
      MulLeft(1, q - row, w);
    } else if q < row {
      MulLeft(1, row - q, w);
    }
  }

  /** `locations()` as written: the half-open range `[0, width * height - 1)`. */
  function LocationsAsWritten(g: Grid): seq<int>
  {
    Range(0, g.width * g.height - 1)
  }

  /** The last cell of a grid is a cell, yet is missing from the locations written. */
  lemma LocationsAsWrittenMissLastCell(g: Grid)
    requires g.width > 0 && g.height > 0
    ensures var last := g.width * g.height - 1;
            0 <= last && CDiv(last, g.width) < g.height && InGrid(g, ToColRow(g, last)) &&
            last !in LocationsAsWritten(g)
  {
    RangeMembers(0, g.width * g.height - 1, g.width * g.height - 1);
    MulLeft(1, g.height, g.width);
    ToColRowInGrid(g, g.width * g.height - 1);
  }

  /** `locations()` as documented: one descriptor per cell. */
  function Locations(g: Grid): seq<int>
  {
    Range(0, g.width * g.height)
  }

  /** A descriptor is a location iff its column and row lie in the grid. */
  lemma LocationsAreCells(g: Grid, x: int)
    requires g.width > 0 && g.height >= 0
    ensures x in Locations(g) <==> 0 <= x && CDiv(x, g.width) < g.height && InGrid(g, ToColRow(g, x))
  {
    RangeMembers(0, g.width * g.height, x);
    if x in Locations(g) {
      ToColRowInGrid(g, x);
    } else if 0 <= x && CDiv(x, g.width) < g.height {
      var c := ToColRow(g, x);
      if InGrid(g, c) {
        ColRowRoundTrip(g, c);
      }
    }
  }

  /** `is_in_temporal_extent(t)`: between the first and the last band's times, inclusive. */
  predicate IsInTemporalExtent(g: Grid, t: int)
    requires |g.times| > 0
  {
    t >= g.times[0] && t <= g.times[|g.times| - 1]
  }

  /** With the times in increasing order, the time of every band is in the temporal extent. */
  lemma BandTimesInExtent(g: Grid, i: nat)
    requires i < |g.times| && forall a, b :: 0 <= a < b < |g.times| ==> g.times[a] < g.times[b]
    ensures IsInTemporalExtent(g, g.times[i])
  {
    if 0 < i {
      assert g.times[0] < g.times[i];
    }
    if i < |g.times| - 1 {
      assert g.times[i] < g.times[|g.times| - 1];
    }
  }

  /** `times()` as written: the band descriptors `0 .. depth - 1`, the last one excluded. */
  function TimesAsWritten(depth: int): seq<int>
  {
    Range(0, depth - 1)
  }

  /** The last band of a non-empty dataset is missing from the times written. */
  lemma TimesAsWrittenMissLastBand(depth: int)
    requires depth > 0
    ensures depth - 1 !in TimesAsWritten(depth)
    ensures |TimesAsWritten(depth)| == depth - 1
  {
    RangeMembers(0, depth - 1, depth - 1);
  }

  /** `times()` as documented: one descriptor per band. */
  function Times(depth: int): seq<int>
  {
    Range(0, depth)
  }

  /** A descriptor is a time iff it is the index of a band. */
  lemma TimesAreBands(depth: int, t: int)
    ensures t in Times(depth) <==> 0 <= t < depth
  {
    RangeMembers(0, depth, t);
  }

  /** `check_times_equals_depth()`: `runtime_error` unless there is one time per band. */
  function CheckTimesEqualsDepth(g: Grid, depth: nat): (r: Outcome)
    ensures r.Pass? <==> |g.times| == depth
    ensures r.Fail? ==> r.error == RuntimeError
  {
    if |g.times| != depth then Fail(RuntimeError) else Pass
  }
}
