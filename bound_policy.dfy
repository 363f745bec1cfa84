// The spatial graph built over a raster grid, and the three policies that
// decide what happens at the grid's border: `mirror` (nothing), `sink` (a
// one-way edge to an extra vertex) and `torus` (an edge to the opposed border).
// Vertex `s` of the grid is the cell of row `s / width`, column `s % width`.

module BoundPolicy {
  import Raster

  /** An edge as stored: ordered when directed (`anisotropy`), unordered otherwise (`isotropy`). */
  function EdgeKey(directed: bool, u: nat, v: nat): (nat, nat)
  {
    if directed || u <= v then (u, v) else (v, u)
  }

  /** In an undirected graph `(u, v)` and `(v, u)` are the same edge. */
  lemma UndirectedKeySymmetric(u: nat, v: nat)
    ensures EdgeKey(false, u, v) == EdgeKey(false, v, u)
    ensures EdgeKey(false, u, v) == (u, v) || EdgeKey(false, u, v) == (v, u)
  {
  }

  function Max(a: nat, b: nat): nat { if a < b then b else a }

  /**
   * The graph behind `graph<..., isotropy | anisotropy>`: vertices `0 .. numVertices - 1`
   * and a set of edges (vertex storage `vecS`, edge storage `setS`, so an edge added
   * twice is stored once, and an edge to a vertex beyond the last grows the vertex set).
   */
  class Graph {
    const directed: bool
    var numVertices: nat
    var edges: set<(nat, nat)>

    /** `graph(n)`: `n` vertices and no edge. */
    constructor (n: nat, directed: bool)
      ensures this.directed == directed && numVertices == n && edges == {}
    {
      this.directed := directed;
      numVertices := n;
      edges := {};
    }

    /** `add_vertex()`: the new vertex is the next descriptor. */
    method AddVertex() returns (v: nat)
      modifies this
      ensures v == old(numVertices) && numVertices == old(numVertices) + 1
      ensures edges == old(edges)
    {
      v := numVertices;
      numVertices := numVertices + 1;
    }

    /** `add_edge(u, v, p)`: inserts the edge unless present. */
    method AddEdge(u: nat, v: nat)
      modifies this
      ensures edges == old(edges) + {EdgeKey(directed, u, v)}
      ensures numVertices == Max(old(numVertices), Max(u + 1, v + 1))
    {
      edges := edges + {EdgeKey(directed, u, v)};
      numVertices := Max(numVertices, Max(u + 1, v + 1));
    }
  }

  // ------------------------------------------------------------ cells

  /** The row of vertex `s`: `s / width`, counted by whole rows so that no division is needed. */
  function Row(s: nat, w: nat): nat
    requires w > 0
  {
    if s < w then 0 else 1 + Row(s - w, w)
  }

  /** The column of vertex `s`: `s % width`. */
  function Col(s: nat, w: nat): nat
    requires w > 0
  {
    if s < w then s else Col(s - w, w)
  }

  function Cell(row: nat, col: nat, w: nat): nat { row * w + col }

  lemma {:induction false} RowColBasis(s: nat, w: nat)
    requires w > 0
    ensures Col(s, w) < w && s == Row(s, w) * w + Col(s, w)
    decreases s
  {
    if s >= w {
      RowColBasis(s - w, w);
      assert (1 + Row(s - w, w)) * w == w + Row(s - w, w) * w;
    }
  }

  lemma {:induction false} RowColOfCell(row: nat, col: nat, w: nat)
    requires col < w
    ensures Row(row * w + col, w) == row && Col(row * w + col, w) == col
    decreases row
  {
    if row > 0 {
      assert row * w + col - w == (row - 1) * w + col;
      RowColOfCell(row - 1, col, w);
    }
  }

  /** `Row` and `Col` are the quotient and remainder of C++ division by the width. */
  lemma RowColAreDivMod(s: nat, w: nat)
    requires w > 0
    ensures Row(s, w) == s / w && Col(s, w) == s % w
  {
    RowColBasis(s, w);
    Raster.DivOfRowMajor(Row(s, w), Col(s, w), w);
  }

  /** A vertex is the cell of its row and column; it is in the grid iff its row is. */
  lemma CellOfVertex(s: nat, w: nat, h: nat)
    requires w > 0
    ensures Col(s, w) < w && s == Cell(Row(s, w), Col(s, w), w)
    ensures s < w * h <==> Row(s, w) < h
  {
    RowColBasis(s, w);
    var r := Row(s, w);
    if r >= h {
      Raster.MulLeft(h, r, w);
      assert h * w == w * h;
    } else {
      Raster.MulLeft(r + 1, h, w);
      assert (r + 1) * w == r * w + w;
      assert h * w == w * h;
    }
  }

  /** The row and column of the cell `(row, col)`. */
  lemma VertexOfCell(row: nat, col: nat, w: nat)
    requires col < w
    ensures Row(Cell(row, col, w), w) == row && Col(Cell(row, col, w), w) == col
  {
    RowColOfCell(row, col, w);
  }

  /** Vertex `s` lies in the top row iff `s < width`, and in the bottom row iff `s >= (height - 1) * width`. */
  lemma RowTests(s: nat, w: nat, h: nat)
    requires w > 0 && h > 0 && s < w * h
    ensures s < w <==> Row(s, w) == 0
    ensures s >= (h - 1) * w <==> Row(s, w) == h - 1
    ensures (s + 1) % w == 0 <==> Col(s, w) == w - 1
  {
    CellOfVertex(s, w, h);
    var r, c := Row(s, w), Col(s, w);
    if r > 0 {
      Raster.MulLeft(1, r, w);
    }
    if r < h - 1 {
      Raster.MulLeft(r + 1, h - 1, w);
      assert (r + 1) * w == r * w + w;
    } else {
      assert s == (h - 1) * w + c;
    }
    NextColumn(s, w);
  }

  /** The next vertex starts a row iff `s` ends one. */
  lemma NextColumn(s: nat, w: nat)
    requires w > 0
    ensures (s + 1) % w == 0 <==> Col(s, w) == w - 1
  {
    RowColBasis(s, w);
    RowColAreDivMod(s + 1, w);
    var r, c := Row(s, w), Col(s, w);
    if c == w - 1 {
      assert s + 1 == (r + 1) * w + 0;
      RowColOfCell(r + 1, 0, w);
    } else {
      RowColOfCell(r, c + 1, w);
    }
  }

  // ------------------------------------------------------------ policies

  /** `mirror`: the border is reflective, so nothing is added. */
  method Mirror(s: nat, g: Graph)
    ensures unchanged(g)
  {
  }

  /** `sink`: vertex `width * height` is added if missing, then the one-way edge from `s` to it. */
  method Sink(s: nat, g: Graph, w: nat, h: nat)
    modifies g
    ensures g.edges == old(g.edges) + {EdgeKey(g.directed, s, w * h)}
    ensures g.numVertices == Max(old(g.numVertices), Max(s + 1, w * h + 1))
  {
    var sink := w * h;
    if g.numVertices == sink {
      sink := g.AddVertex();
    }
    g.AddEdge(s, sink);
  }

  /**
   * The vertex `torus` links `s` to: the same column on the opposed row for the
   * top and bottom rows, the same row on the opposed column for the left and
   * right columns, and, for a cell off the border, vertex 0 (the index's initial value).
   */
  function TorusPartner(s: nat, w: nat, h: nat): nat
    requires w > 0 && h > 0
  {
    var row, col := Row(s, w), Col(s, w);
    if row == 0 then Cell(h - 1, col, w)
    else if row >= h - 1 then Cell(0, col, w)
    else if col == 0 then Cell(row, w - 1, w)
    else if col == w - 1 then Cell(row, 0, w)
    else 0
  }

  /** The four border tests of `torus`, in order, and the index each one computes. */
  lemma TorusTests(s: nat, w: nat, h: nat)
    requires w > 0 && h > 0 && s < w * h
    ensures s < w ==> TorusPartner(s, w, h) == s + w * (h - 1)
    ensures !(s < w) && s >= (h - 1) * w ==> TorusPartner(s, w, h) == s - (h - 1) * w
    ensures !(s < w) && !(s >= (h - 1) * w) && s % w == 0 ==> TorusPartner(s, w, h) == s + w - 1
    ensures !(s < w) && !(s >= (h - 1) * w) && s % w != 0 && (s + 1) % w == 0 ==> TorusPartner(s, w, h) == s - w + 1
    ensures !(s < w) && !(s >= (h - 1) * w) && s % w != 0 && (s + 1) % w != 0 ==> TorusPartner(s, w, h) == 0
  {
    RowTests(s, w, h);
    CellOfVertex(s, w, h);
    RowColAreDivMod(s, w);
    var row, col := Row(s, w), Col(s, w);
    if s < w {
      assert (h - 1) * w == w * (h - 1);
    } else if s >= (h - 1) * w {
      assert s == (h - 1) * w + col;
    }
  }

  /** `torus`: the partner index chosen by the four border tests, then one edge from `s` to it. */
  method Torus(s: nat, g: Graph, w: nat, h: nat)
    requires w > 0 && h > 0 && s < w * h
    modifies g
    ensures g.edges == old(g.edges) + {EdgeKey(g.directed, s, TorusPartner(s, w, h))}
    ensures g.numVertices == Max(old(g.numVertices), Max(s + 1, TorusPartner(s, w, h) + 1))
  {
    TorusTests(s, w, h);
    var symmetricIndex: int := 0;
    if s < w {
      symmetricIndex := s + w * (h - 1);
    } else if s >= (h - 1) * w {
      symmetricIndex := s - (h - 1) * w;
    } else if s % w == 0 {
      symmetricIndex := s + w - 1;
    } else if (s + 1) % w == 0 {
      symmetricIndex := s - w + 1;
    }
    assert symmetricIndex == TorusPartner(s, w, h);
    g.AddEdge(s, symmetricIndex);
  }

  /** The torus partner of a grid cell is a grid cell. */
  lemma TorusPartnerInGrid(s: nat, w: nat, h: nat)
    requires w > 0 && h > 0 && s < w * h
    ensures TorusPartner(s, w, h) < w * h
  {
    CellOfVertex(s, w, h);
    var row, col := Row(s, w), Col(s, w);
    CellOfVertex(Cell(h - 1, col, w), w, h);
    VertexOfCell(h - 1, col, w);
    CellOfVertex(Cell(0, col, w), w, h);
    VertexOfCell(0, col, w);
    CellOfVertex(Cell(row, w - 1, w), w, h);
    VertexOfCell(row, w - 1, w);
    CellOfVertex(Cell(row, 0, w), w, h);
    VertexOfCell(row, 0, w);
  }

  predicate OnBorder(s: nat, w: nat, h: nat)
    requires w > 0
  {
    Row(s, w) == 0 || Row(s, w) == h - 1 || Col(s, w) == 0 || Col(s, w) == w - 1
  }

  /** On a grid of at least 2 x 2 cells, the torus pairs border cells: the partner's partner is the cell itself. */
  lemma TorusInvolution(s: nat, w: nat, h: nat)
    requires w >= 2 && h >= 2 && s < w * h && OnBorder(s, w, h)
    ensures TorusPartner(TorusPartner(s, w, h), w, h) == s
  {
    CellOfVertex(s, w, h);
    var row, col := Row(s, w), Col(s, w);
    if row == 0 {
      VertexOfCell(h - 1, col, w);
      assert s == Cell(0, col, w);
    } else if row >= h - 1 {
      VertexOfCell(0, col, w);
    } else if col == 0 {
      VertexOfCell(row, w - 1, w);
    } else {
      VertexOfCell(row, 0, w);
    }
  }

  /** A cell off the border is linked to vertex 0. */
  lemma TorusInteriorLinksToZero(s: nat, w: nat, h: nat)
    requires w > 0 && h > 0 && s < w * h && !OnBorder(s, w, h)
    ensures TorusPartner(s, w, h) == 0 && s != 0
  {
    CellOfVertex(s, w, h);
  }
}
