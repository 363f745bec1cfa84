// How the vertices of a grid graph are wired: `connect_fully` links every pair
// of vertices, `connect_4_neighbors` and `connect_8_neighbors` classify each
// cell into one of nine border cases and link it to the neighbours that case
// has, after handing a border cell to the bound policy (an interior cell's
// helper is called without the policy).

module Vicinity {
  import opened BoundPolicy

  /** The bound policy the wiring hands each cell to. */
  datatype Policy = MirrorPolicy | SinkPolicy | TorusPolicy

  /** `bound_policy(s, graph, grid)`. */
  method ApplyPolicy(p: Policy, s: nat, g: Graph, w: nat, h: nat)
    requires p == TorusPolicy ==> w > 0 && h > 0 && s < w * h
    modifies g
    ensures p == MirrorPolicy ==> g.edges == old(g.edges) && g.numVertices == old(g.numVertices)
    ensures p == SinkPolicy ==> g.edges == old(g.edges) + {EdgeKey(g.directed, s, w * h)} &&
                                g.numVertices == Max(old(g.numVertices), Max(s + 1, w * h + 1))
    ensures p == TorusPolicy ==> g.edges == old(g.edges) + {EdgeKey(g.directed, s, TorusPartner(s, w, h))} &&
                                 g.numVertices == Max(old(g.numVertices), Max(s + 1, TorusPartner(s, w, h) + 1))
  {
    match p
    case MirrorPolicy => Mirror(s, g);
    case SinkPolicy => Sink(s, g, w, h);
    case TorusPolicy => Torus(s, g, w, h);
  }

  /** The edges `connect(s, t)` adds: `s -> t`, and `t -> s` as well under anisotropy. */
  function LinkEdges(directed: bool, s: nat, t: nat): set<(nat, nat)>
  {
    {EdgeKey(directed, s, t)} + (if directed then {EdgeKey(directed, t, s)} else {})
  }

  /** `connect(s, t, graph, grid)`. */
  method Link(g: Graph, s: nat, t: nat)
    modifies g
    ensures g.edges == old(g.edges) + LinkEdges(g.directed, s, t)
    ensures g.numVertices == Max(old(g.numVertices), Max(s + 1, t + 1))
  {
    g.AddEdge(s, t);
    if g.directed {
      g.AddEdge(t, s);
    }
  }

  // ------------------------------------------------------------ connect_fully

  /** The edges of row `s` of `connect_fully` once its inner loop has reached `t`. */
  function FullRow(directed: bool, s: nat, t: nat): set<(nat, nat)>
  {
    if t <= s + 1 then {} else FullRow(directed, s, t - 1) + LinkEdges(directed, s, t - 1)
  }

  /** The edges of the first `m` rows of `connect_fully` over `n` vertices. */
  function FullRows(directed: bool, m: nat, n: nat): set<(nat, nat)>
  {
    if m == 0 then {} else FullRows(directed, m - 1, n) + FullRow(directed, m - 1, n)
  }

  /** `connect_fully::connect`: for every `s < t`, `connect(s, t)`; the bound policy is not used. */
  method ConnectFully(g: Graph)
    modifies g
    ensures g.numVertices == old(g.numVertices)
    ensures g.edges == old(g.edges) + FullRows(g.directed, g.numVertices, g.numVertices)
  {
    var n := g.numVertices;
    var s := 0;
    while s < g.numVertices
      invariant g.numVertices == n && 0 <= s <= n
      invariant g.edges == old(g.edges) + FullRows(g.directed, s, n)
    {
      var t := s + 1;
      while t < g.numVertices
        invariant g.numVertices == n && s + 1 <= t <= n
        invariant g.edges == old(g.edges) + FullRows(g.directed, s, n) + FullRow(g.directed, s, t)
      {
        Link(g, s, t);
        t := t + 1;
      }
      assert t == n;
      s := s + 1;
    }
    assert s == n;
  }

  lemma {:induction false} FullRowMembers(directed: bool, s: nat, t: nat, e: (nat, nat))
    ensures e in FullRow(directed, s, t) <==>
            (e.0 == s && s < e.1 < t) || (directed && e.1 == s && s < e.0 < t)
    decreases t
  {
    if t > s + 1 {
      FullRowMembers(directed, s, t - 1, e);
    }
  }

  /** An edge of `connect_fully` joins two distinct vertices, each below `n`; undirected ones are stored lower end first. */
  lemma {:induction false} FullRowsMembers(directed: bool, m: nat, n: nat, e: (nat, nat))
    ensures e in FullRows(directed, m, n) <==>
            (e.0 < m && e.0 < e.1 < n) || (directed && e.1 < m && e.1 < e.0 < n)
    decreases m
  {
    if m > 0 {
      FullRowsMembers(directed, m - 1, n, e);
      FullRowMembers(directed, m - 1, n, e);
    }
  }

  lemma DisjointUnionSize(a: set<(nat, nat)>, b: set<(nat, nat)>)
    requires forall e :: e in b ==> e !in a
    ensures |a + b| == |a| + |b|
  {
    assert a * b == {};
  }

  function Orientations(directed: bool): nat { if directed then 2 else 1 }

  /** `x` edges per orientation. */
  function PerOrientation(directed: bool, x: int): int { if directed then x + x else x }

  lemma LinkEdgesSize(directed: bool, s: nat, t: nat)
    requires s != t
    ensures |LinkEdges(directed, s, t)| == PerOrientation(directed, 1)
  {
    if directed {
      assert LinkEdges(directed, s, t) == {(s, t), (t, s)};
    } else {
      assert LinkEdges(directed, s, t) == {EdgeKey(directed, s, t)};
    }
  }

  /** The edges `connect(s, t)` adds are not among those row `s` already has below `t`. */
  lemma NewLinkNotInRow(directed: bool, s: nat, t: nat)
    ensures forall e :: e in LinkEdges(directed, s, t) ==> e !in FullRow(directed, s, t)
  {
    forall e | e in LinkEdges(directed, s, t)
      ensures e !in FullRow(directed, s, t)
    {
      FullRowMembers(directed, s, t, e);
    }
  }

  lemma {:induction false} FullRowSize(directed: bool, s: nat, t: nat)
    requires s < t
    ensures |FullRow(directed, s, t)| == PerOrientation(directed, t - s - 1)
    decreases t
  {
    if t > s + 1 {
      var u := t - 1;
      FullRowSize(directed, s, u);
      FullRowStep(directed, s, t, u);
      PerOrientationAdd(directed, u - s - 1, 1);
    } else {
      assert FullRow(directed, s, t) == {};
      assert |FullRow(directed, s, t)| == PerOrientation(directed, t - s - 1);
    }
  }

  lemma PerOrientationAdd(directed: bool, x: int, y: int)
    ensures PerOrientation(directed, x) + PerOrientation(directed, y) == PerOrientation(directed, x + y)
  {
  }

  /** `connect(s, t - 1)` adds one edge per orientation to row `s`. */
  lemma FullRowStep(directed: bool, s: nat, t: nat, u: nat)
    requires s < u && u == t - 1
    ensures |FullRow(directed, s, t)| == |FullRow(directed, s, u)| + PerOrientation(directed, 1)
  {
    var a, b := FullRow(directed, s, u), LinkEdges(directed, s, u);
    assert FullRow(directed, s, t) == a + b;
    LinkEdgesSize(directed, s, u);
    NewLinkNotInRow(directed, s, u);
    DisjointUnionSize(a, b);
  }

  /** The number of pairs `s < t < n` with `s < m`. */
  function PairsBelow(m: nat, n: nat): int
  {
    if m == 0 then 0 else PairsBelow(m - 1, n) + (n - m)
  }

  lemma {:induction false} PairsBelowClosedForm(m: nat, n: nat)
    ensures 2 * PairsBelow(m, n) == m * (2 * n - m - 1)
  {
    if m > 0 {
      PairsBelowClosedForm(m - 1, n);
      assert (m - 1) * (2 * n - (m - 1) - 1) + 2 * (n - m) == m * (2 * n - m - 1);
    }
  }

  /** After `m` rows, one edge per orientation for each pair `s < t < n` with `s < m`. */
  lemma {:induction false} FullRowsSize(directed: bool, m: nat, n: nat)
    requires m <= n
    ensures |FullRows(directed, m, n)| == PerOrientation(directed, PairsBelow(m, n))
    decreases m
  {
    if m > 0 {
      FullRowsSize(directed, m - 1, n);
      FullRowSize(directed, m - 1, n);
      var a, b := FullRows(directed, m - 1, n), FullRow(directed, m - 1, n);
      forall e | e in b
        ensures e !in a
      {
        FullRowMembers(directed, m - 1, n, e);
        FullRowsMembers(directed, m - 1, n, e);
      }
      DisjointUnionSize(a, b);
      assert n - (m - 1) - 1 == n - m;
    }
  }

  lemma PairsOfAll(n: nat)
    ensures 2 * PairsBelow(n, n) == n * (n - 1)
  {
    PairsBelowClosedForm(n, n);
    assert 2 * n - n - 1 == n - 1;
  }

  /** The complete graph on `n` vertices has `n(n - 1)/2` undirected edges, or `n(n - 1)` directed ones. */
  lemma CompleteGraphSize(directed: bool, n: nat)
    ensures 2 * |FullRows(directed, n, n)| == Orientations(directed) * (n * (n - 1))
  {
    FullRowsSize(directed, n, n);
    PairsOfAll(n);
  }

  // ------------------------------------------------------------ neighbours

  /** The nine border cases, in the order the wiring loop tests them. */
  datatype Case =
    | TopLeft | TopRight | Top
    | BottomLeft | BottomRight | Bottom
    | Left | Right | Interior

  /** The classification of cell `s` by its row `s / width` and column `s % width`. */
  function Classify(s: nat, w: nat, h: nat): (r: Case)
    requires w > 0
    ensures (r.TopLeft? || r.TopRight? || r.Top?) <==> Row(s, w) == 0
    ensures (r.BottomLeft? || r.BottomRight? || r.Bottom?) <==> Row(s, w) != 0 && Row(s, w) == h - 1
    ensures (r.TopLeft? || r.BottomLeft? || r.Left?) <==> Col(s, w) == 0
    ensures (r.TopRight? || r.BottomRight? || r.Right?) <==> Col(s, w) != 0 && Col(s, w) == w - 1
    ensures r.Interior? <==> Row(s, w) != 0 && Row(s, w) != h - 1 && Col(s, w) != 0 && Col(s, w) != w - 1
  {
    var row, col := Row(s, w), Col(s, w);
    if row == 0 then
      (if col == 0 then TopLeft else if col == w - 1 then TopRight else Top)
    else if row == h - 1 then
      (if col == 0 then BottomLeft else if col == w - 1 then BottomRight else Bottom)
    else if col == 0 then Left
    else if col == w - 1 then Right
    else Interior
  }

  /**
   * The neighbours each `connect_<case>` helper of `connect_4_neighbors`
   * connects, in order, as (row, column) offsets: `s + 1` is `(0, 1)`, `s - width` is `(-1, 0)`.
   */
  function Offsets4(c: Case): (r: seq<(int, int)>)
    ensures |r| == (if c.Interior? then 4 else if c.TopLeft? || c.TopRight? || c.BottomLeft? || c.BottomRight? then 2 else 3)
    ensures |r| > 0 && r[0].0 == 0 && (r[0].1 == 1 || r[0].1 == -1)
  {
    match c
    case TopLeft => [(0, 1), (1, 0)]
    case TopRight => [(0, -1), (1, 0)]
    case Top => [(0, -1), (0, 1), (1, 0)]
    case BottomLeft => [(0, 1), (-1, 0)]
    case BottomRight => [(0, -1), (-1, 0)]
    case Bottom => [(0, -1), (0, 1), (-1, 0)]
    case Left => [(0, 1), (-1, 0), (1, 0)]
    case Right => [(0, -1), (-1, 0), (1, 0)]
    case Interior => [(0, 1), (0, -1), (1, 0), (-1, 0)]
  }

  /**
   * The neighbours of `connect_8_neighbors`, as written: the bottom border
   * helper reaches for `s + width - 1` and `s + width + 1`, one row below the grid.
   */
  function Offsets8AsWritten(c: Case): seq<(int, int)>
  {
    match c
    case Bottom => [(0, -1), (0, 1), (-1, 0), (1, -1), (1, 1)]
    case _ => Offsets8(c)
  }

  /** The neighbours of `connect_8_neighbors`, the bottom border linked to the row above it. */
  function Offsets8(c: Case): seq<(int, int)>
  {
    match c
    case TopLeft => [(0, 1), (1, 0), (1, 1)]
    case TopRight => [(0, -1), (1, 0), (1, -1)]
    case Top => [(0, -1), (0, 1), (1, 0), (1, -1), (1, 1)]
    case BottomLeft => [(0, 1), (-1, 0), (-1, 1)]
    case BottomRight => [(0, -1), (-1, 0), (-1, -1)]
    case Bottom => [(0, -1), (0, 1), (-1, 0), (-1, -1), (-1, 1)]
    case Left => [(0, 1), (-1, 0), (1, 0), (-1, 1), (1, 1)]
    case Right => [(0, -1), (-1, 0), (1, 0), (-1, -1), (1, -1)]
    case Interior => [(0, 1), (0, -1), (1, 0), (1, 1), (1, -1), (-1, 0), (-1, 1), (-1, -1)]
  }

  function Offsets(eight: bool, c: Case): seq<(int, int)>
  {
    if eight then Offsets8(c) else Offsets4(c)
  }

  /** The vertex an offset names: `s + dr * width + dc`. */
  function Target(s: nat, w: nat, o: (int, int)): int
  {
    s + o.0 * w + o.1
  }

  /** A step to a 4-neighbour (rook move), or to an 8-neighbour (king move). */
  predicate IsStep(eight: bool, o: (int, int))
  {
    -1 <= o.0 <= 1 && -1 <= o.1 <= 1 && o != (0, 0) && (eight || o.0 == 0 || o.1 == 0)
  }

  /** Vertex `b` is one step away from vertex `a` on the grid. */
  predicate Adjacent(eight: bool, a: nat, b: nat, w: nat)
    requires w > 0
  {
    IsStep(eight, (Row(b, w) - Row(a, w), Col(b, w) - Col(a, w)))
  }

  /** Each case has 2 (corners), 3 (borders) or 4 (interior) 4-neighbours. */
  lemma Neighbours4Count(s: nat, w: nat, h: nat)
    requires w > 0
    ensures var c := Classify(s, w, h);
            |Offsets4(c)| == (if c in {TopLeft, TopRight, BottomLeft, BottomRight} then 2
                              else if c == Interior then 4 else 3)
  {
  }

  /** Each case has 3 (corners), 5 (borders) or 8 (interior) 8-neighbours. */
  lemma Neighbours8Count(s: nat, w: nat, h: nat)
    requires w > 0
    ensures var c := Classify(s, w, h);
            |Offsets8(c)| == (if c in {TopLeft, TopRight, BottomLeft, BottomRight} then 3
                              else if c == Interior then 8 else 5)
  {
  }

  /**
   * On a grid of at least 2 x 2 cells, each case's helper lists exactly the
   * steps that stay on the grid: a step is listed iff the cell it leads to exists.
   */
  lemma OffsetsExact(eight: bool, s: nat, w: nat, h: nat, o: (int, int))
    requires w >= 2 && h >= 2 && s < w * h && IsStep(eight, o)
    ensures o in Offsets(eight, Classify(s, w, h)) <==>
            0 <= Row(s, w) + o.0 < h && 0 <= Col(s, w) + o.1 < w
  {
    CellOfVertex(s, w, h);
  }

  /** A step that stays on the grid leads to the cell `s + dr * width + dc`. */
  lemma StepTarget(s: nat, w: nat, h: nat, o: (int, int))
    requires w > 0 && s < w * h && -1 <= o.0 <= 1
    requires 0 <= Row(s, w) + o.0 < h && 0 <= Col(s, w) + o.1 < w
    ensures 0 <= Target(s, w, o) < w * h
    ensures Row(Target(s, w, o), w) == Row(s, w) + o.0 && Col(Target(s, w, o), w) == Col(s, w) + o.1
  {
    CellOfVertex(s, w, h);
    var r, c := Row(s, w) + o.0, Col(s, w) + o.1;
    assert Target(s, w, o) == Cell(r, c, w) by {
      if o.0 == 1 {
        assert (Row(s, w) + 1) * w == Row(s, w) * w + w;
      } else if o.0 == -1 {
        assert (Row(s, w) - 1) * w == Row(s, w) * w - w;
      }
    }
    VertexOfCell(r, c, w);
    CellOfVertex(Cell(r, c, w), w, h);
  }

  /** Every vertex a helper connects is on the grid and one step away. */
  lemma TargetsAreNeighbours(eight: bool, s: nat, w: nat, h: nat, i: nat)
    requires w >= 2 && h >= 2 && s < w * h && i < |Offsets(eight, Classify(s, w, h))|
    ensures var t := Target(s, w, Offsets(eight, Classify(s, w, h))[i]);
            0 <= t < w * h && Adjacent(eight, s, t, w)
  {
    var o := Offsets(eight, Classify(s, w, h))[i];
    assert IsStep(eight, o);
    OffsetsExact(eight, s, w, h, o);
    StepTarget(s, w, h, o);
  }

  /** In a 3 x 2 grid, the written 8-neighbour wiring of bottom cell 4 connects vertex 8, beyond the 6 cells. */
  lemma BottomBorderLeavesGrid()
    ensures Classify(4, 3, 2) == Bottom
    ensures Target(4, 3, Offsets8AsWritten(Bottom)[4]) == 8 >= 3 * 2
  {
  }

  /**
   * On a grid of one row or one column the helpers reach off the grid: the
   * top-left corner of a 2 x 1 grid links `s + width`, vertex 2, and the
   * bottom-left corner of a 1 x 2 grid links `s + 1`, vertex 2 as well.
   */
  lemma ThinGridsLeaveGrid()
    ensures Classify(0, 2, 1) == TopLeft && Target(0, 2, Offsets4(TopLeft)[1]) == 2 == 2 * 1
    ensures Classify(1, 1, 2) == BottomLeft && Target(1, 1, Offsets4(BottomLeft)[0]) == 2 == 1 * 2
  {
    assert Row(1, 1) == 1 && Col(1, 1) == 0;
  }

  // ------------------------------------------------------------ the wiring loops

  /** The edges the bound policy adds for cell `s` (the sink policy is not wired here). */
  function PolicyEdges(p: Policy, directed: bool, s: nat, w: nat, h: nat): set<(nat, nat)>
    requires w > 0 && h > 0
  {
    match p
    case MirrorPolicy => {}
    case SinkPolicy => {EdgeKey(directed, s, w * h)}
    case TorusPolicy => {EdgeKey(directed, s, TorusPartner(s, w, h))}
  }

  predicate TargetsOnGrid(s: nat, w: nat, h: nat, offs: seq<(int, int)>)
  {
    forall i :: 0 <= i < |offs| ==> 0 <= Target(s, w, offs[i]) < w * h
  }

  /** The edges of the first `n` connections of a helper. */
  function CellLinks(directed: bool, s: nat, w: nat, h: nat, offs: seq<(int, int)>, n: nat): set<(nat, nat)>
    requires n <= |offs| && TargetsOnGrid(s, w, h, offs)
  {
    if n == 0 then {} else CellLinks(directed, s, w, h, offs, n - 1) + LinkEdges(directed, s, Target(s, w, offs[n - 1]))
  }

  lemma AllTargetsOnGrid(eight: bool, s: nat, w: nat, h: nat)
    requires w >= 2 && h >= 2 && s < w * h
    ensures TargetsOnGrid(s, w, h, Offsets(eight, Classify(s, w, h)))
  {
    forall i | 0 <= i < |Offsets(eight, Classify(s, w, h))| {
      TargetsAreNeighbours(eight, s, w, h, i);
    }
  }

  /** The policy's edges for cell `s`: none for an interior cell, whose helper is called without the policy. */
  function CellPolicyEdges(p: Policy, directed: bool, s: nat, w: nat, h: nat): set<(nat, nat)>
    requires w > 0 && h > 0
  {
    if Classify(s, w, h) == Interior then {} else PolicyEdges(p, directed, s, w, h)
  }

  /** The edges the helper of cell `s` adds: the policy's on a border cell, then one connection per neighbour. */
  function CellEdges(directed: bool, eight: bool, p: Policy, s: nat, w: nat, h: nat): set<(nat, nat)>
    requires w >= 2 && h >= 2 && s < w * h
  {
    var offs := Offsets(eight, Classify(s, w, h));
    AllTargetsOnGrid(eight, s, w, h);
    CellPolicyEdges(p, directed, s, w, h) + CellLinks(directed, s, w, h, offs, |offs|)
  }

  /** The edges of the wiring loop once it has handled cells `0 .. k - 1`. */
  function GridEdges(directed: bool, eight: bool, p: Policy, w: nat, h: nat, k: nat): set<(nat, nat)>
    requires w >= 2 && h >= 2 && k <= w * h
  {
    if k == 0 then {} else GridEdges(directed, eight, p, w, h, k - 1) + CellEdges(directed, eight, p, k - 1, w, h)
  }

  /**
   * `connect_<case>(s, graph, grid, bound_policy)`: the bound policy, then `connect(s, t)` for each
   * neighbour in order; an interior cell goes to `connect_interior_vertices(s, graph)`, without the policy.
   */
  method ConnectCell(g: Graph, s: nat, w: nat, h: nat, p: Policy, eight: bool)
    requires w >= 2 && h >= 2 && s < w * h && p != SinkPolicy && g.numVertices == w * h
    modifies g
    ensures g.numVertices == w * h
    ensures g.edges == old(g.edges) + CellEdges(g.directed, eight, p, s, w, h)
  {
    TorusPartnerInGrid(s, w, h);
    if Classify(s, w, h) != Interior {
      ApplyPolicy(p, s, g, w, h);
    }
    assert g.edges == old(g.edges) + CellPolicyEdges(p, g.directed, s, w, h);
    var offs := Offsets(eight, Classify(s, w, h));
    AllTargetsOnGrid(eight, s, w, h);
    LinkTargets(g, s, w, h, offs);
  }

  /** The helper loop of a case: one link from `s` to the target of each offset, in order. */
  method LinkTargets(g: Graph, s: nat, w: nat, h: nat, offs: seq<(int, int)>)
    requires s < w * h && g.numVertices == w * h && TargetsOnGrid(s, w, h, offs)
    modifies g
    ensures g.numVertices == w * h
    ensures g.edges == old(g.edges) + CellLinks(g.directed, s, w, h, offs, |offs|)
  {
    var i := 0;
    while i < |offs|
      invariant 0 <= i <= |offs| && g.numVertices == w * h
      invariant g.edges == old(g.edges) + CellLinks(g.directed, s, w, h, offs, i)
    {
      Link(g, s, Target(s, w, offs[i]));
      i := i + 1;
    }
  }

  /**
   * `connect_4_neighbors::connect` (`eight` false) and `connect_8_neighbors::connect`
   * (`eight` true): every vertex, classified by row and column, goes to its case's helper.
   */
  method ConnectNeighbors(g: Graph, w: nat, h: nat, p: Policy, eight: bool)
    requires w >= 2 && h >= 2 && g.numVertices == w * h && p != SinkPolicy
    modifies g
    ensures g.numVertices == w * h
    ensures g.edges == old(g.edges) + GridEdges(g.directed, eight, p, w, h, w * h)
  {
    var s := 0;
    ghost var d := g.directed;
    ghost var e0 := g.edges;
    ghost var n := w * h;
    while s < g.numVertices
      invariant 0 <= s <= n && g.numVertices == n
      invariant g.edges == e0 + GridEdges(d, eight, p, w, h, s)
    {
      ghost var before := g.edges;
      ConnectCell(g, s, w, h, p, eight);
      GridEdgesStep(d, eight, p, w, h, s, e0, before, g.edges);
      s := s + 1;
    }
    assert s == n;
  }

  /** One more cell handled: its edges join those of the cells before it. */
  lemma GridEdgesStep(directed: bool, eight: bool, p: Policy, w: nat, h: nat, s: nat,
                      e0: set<(nat, nat)>, before: set<(nat, nat)>, after: set<(nat, nat)>)
    requires w >= 2 && h >= 2 && s < w * h
    requires before == e0 + GridEdges(directed, eight, p, w, h, s)
    requires after == before + CellEdges(directed, eight, p, s, w, h)
    ensures after == e0 + GridEdges(directed, eight, p, w, h, s + 1)
  {
  }

  // ------------------------------------------------------------ what the wiring builds

  /** An edge between two grid cells one step apart, stored lower end first when undirected. */
  predicate StepEdge(directed: bool, eight: bool, w: nat, h: nat, e: (nat, nat))
    requires w > 0
  {
    e.0 < w * h && e.1 < w * h && Adjacent(eight, e.0, e.1, w) && (directed || e.0 < e.1)
  }

  lemma {:induction false} CellLinksMembers(directed: bool, s: nat, w: nat, h: nat, offs: seq<(int, int)>, n: nat, e: (nat, nat))
    requires n <= |offs| && TargetsOnGrid(s, w, h, offs)
    ensures e in CellLinks(directed, s, w, h, offs, n) <==>
            exists i :: 0 <= i < n && e in LinkEdges(directed, s, Target(s, w, offs[i]))
    decreases n
  {
    if n > 0 {
      CellLinksMembers(directed, s, w, h, offs, n - 1, e);
    }
  }

  /** Two vertices with the same row and column are the same vertex. */
  lemma SameCell(a: nat, b: nat, w: nat)
    requires w > 0 && Row(a, w) == Row(b, w) && Col(a, w) == Col(b, w)
    ensures a == b
  {
    CellOfVertex(a, w, 0);
    CellOfVertex(b, w, 0);
  }

  /** Under the mirror policy, every edge the helper of cell `s` adds is a step edge with `s` as an end. */
  lemma MirrorCellEdgesSound(directed: bool, eight: bool, s: nat, w: nat, h: nat, e: (nat, nat))
    requires w >= 2 && h >= 2 && s < w * h
    requires e in CellEdges(directed, eight, MirrorPolicy, s, w, h)
    ensures StepEdge(directed, eight, w, h, e) && (e.0 == s || e.1 == s)
  {
    var offs := Offsets(eight, Classify(s, w, h));
    AllTargetsOnGrid(eight, s, w, h);
    CellLinksMembers(directed, s, w, h, offs, |offs|, e);
    var i :| 0 <= i < |offs| && e in LinkEdges(directed, s, Target(s, w, offs[i]));
    TargetsAreNeighbours(eight, s, w, h, i);
  }

  /** Under the mirror policy, the helper of cell `s` adds every step edge with `s` as an end. */
  lemma MirrorCellEdgesComplete(directed: bool, eight: bool, s: nat, w: nat, h: nat, e: (nat, nat))
    requires w >= 2 && h >= 2 && s < w * h
    requires StepEdge(directed, eight, w, h, e) && (e.0 == s || e.1 == s)
    ensures e in CellEdges(directed, eight, MirrorPolicy, s, w, h)
  {
    var offs := Offsets(eight, Classify(s, w, h));
    AllTargetsOnGrid(eight, s, w, h);
    var t := if e.0 == s then e.1 else e.0;
    var o := (Row(t, w) - Row(s, w), Col(t, w) - Col(s, w));
    CellOfVertex(s, w, h);
    CellOfVertex(t, w, h);
    OffsetsExact(eight, s, w, h, o);
    var i :| 0 <= i < |offs| && offs[i] == o;
    StepTarget(s, w, h, o);
    SameCell(Target(s, w, o), t, w);
    assert e in LinkEdges(directed, s, Target(s, w, offs[i]));
    CellLinksMembers(directed, s, w, h, offs, |offs|, e);
  }

  /** Under the mirror policy, the helper of cell `s` adds exactly the step edges with `s` as an end. */
  lemma MirrorCellEdges(directed: bool, eight: bool, s: nat, w: nat, h: nat, e: (nat, nat))
    requires w >= 2 && h >= 2 && s < w * h
    ensures e in CellEdges(directed, eight, MirrorPolicy, s, w, h) <==>
            StepEdge(directed, eight, w, h, e) && (e.0 == s || e.1 == s)
  {
    if e in CellEdges(directed, eight, MirrorPolicy, s, w, h) {
      MirrorCellEdgesSound(directed, eight, s, w, h, e);
    }
    if StepEdge(directed, eight, w, h, e) && (e.0 == s || e.1 == s) {
      MirrorCellEdgesComplete(directed, eight, s, w, h, e);
    }
  }

  lemma {:induction false} MirrorGridEdgesUpTo(directed: bool, eight: bool, w: nat, h: nat, k: nat, e: (nat, nat))
    requires w >= 2 && h >= 2 && k <= w * h
    ensures e in GridEdges(directed, eight, MirrorPolicy, w, h, k) <==>
            StepEdge(directed, eight, w, h, e) && (e.0 < k || e.1 < k)
    decreases k
  {
    if k > 0 {
      var j := k - 1;
      MirrorGridEdgesUpTo(directed, eight, w, h, j, e);
      MirrorCellEdges(directed, eight, j, w, h, e);
    }
  }

  /**
   * With the mirror policy, the 4-neighbour (or 8-neighbour) wiring of a grid of at least
   * 2 x 2 cells builds exactly the grid's rook (or king) adjacency: every edge joins two
   * cells one step apart, and every such pair is joined.
   */
  lemma MirrorWiringIsAdjacency(directed: bool, eight: bool, w: nat, h: nat, e: (nat, nat))
    requires w >= 2 && h >= 2
    ensures e in GridEdges(directed, eight, MirrorPolicy, w, h, w * h) <==> StepEdge(directed, eight, w, h, e)
  {
    MirrorGridEdgesUpTo(directed, eight, w, h, w * h, e);
  }

  /** The torus links of the border cells among `0 .. k - 1`. */
  function TorusLinks(directed: bool, w: nat, h: nat, k: nat): set<(nat, nat)>
    requires w > 0 && h > 0
  {
    if k == 0 then {}
    else TorusLinks(directed, w, h, k - 1) +
         (if Classify(k - 1, w, h) == Interior then {} else {EdgeKey(directed, k - 1, TorusPartner(k - 1, w, h))})
  }

  /** With the torus policy, the wiring builds the mirror wiring plus one torus link per border cell. */
  lemma {:induction false} TorusWiring(directed: bool, eight: bool, w: nat, h: nat, k: nat)
    requires w >= 2 && h >= 2 && k <= w * h
    ensures GridEdges(directed, eight, TorusPolicy, w, h, k) ==
            GridEdges(directed, eight, MirrorPolicy, w, h, k) + TorusLinks(directed, w, h, k)
    decreases k
  {
    if k > 0 {
      var j := k - 1;
      TorusWiring(directed, eight, w, h, j);
      TorusWiringStep(directed, eight, w, h, j);
    }
  }

  /** One more cell wired keeps the torus wiring equal to the mirror wiring plus the torus links. */
  lemma TorusWiringStep(directed: bool, eight: bool, w: nat, h: nat, j: nat)
    requires w >= 2 && h >= 2 && j < w * h
    requires GridEdges(directed, eight, TorusPolicy, w, h, j) ==
             GridEdges(directed, eight, MirrorPolicy, w, h, j) + TorusLinks(directed, w, h, j)
    ensures GridEdges(directed, eight, TorusPolicy, w, h, j + 1) ==
            GridEdges(directed, eight, MirrorPolicy, w, h, j + 1) + TorusLinks(directed, w, h, j + 1)
  {
    TorusCellEdges(directed, eight, w, h, j);
    InductiveUnion(GridEdges(directed, eight, TorusPolicy, w, h, j + 1), GridEdges(directed, eight, MirrorPolicy, w, h, j + 1),
                   TorusLinks(directed, w, h, j + 1),
                   GridEdges(directed, eight, TorusPolicy, w, h, j), GridEdges(directed, eight, MirrorPolicy, w, h, j),
                   TorusLinks(directed, w, h, j),
                   CellEdges(directed, eight, TorusPolicy, j, w, h), CellEdges(directed, eight, MirrorPolicy, j, w, h),
                   if Classify(j, w, h) == Interior then {} else {EdgeKey(directed, j, TorusPartner(j, w, h))});
  }

  /** The set algebra of one inductive step: adding `extra` on both sides keeps `torus == mirror + links`. */
  lemma InductiveUnion<T>(torus: set<T>, mirror: set<T>, links: set<T>,
                          torus0: set<T>, mirror0: set<T>, links0: set<T>,
                          cellTorus: set<T>, cellMirror: set<T>, extra: set<T>)
    requires torus0 == mirror0 + links0 && cellTorus == cellMirror + extra
    requires torus == torus0 + cellTorus && mirror == mirror0 + cellMirror && links == links0 + extra
    ensures torus == mirror + links
  {
  }

  /** One cell's torus wiring is its mirror wiring plus, on a border cell, its torus link. */
  lemma TorusCellEdges(directed: bool, eight: bool, w: nat, h: nat, s: nat)
    requires w >= 2 && h >= 2 && s < w * h
    ensures CellEdges(directed, eight, TorusPolicy, s, w, h) ==
            CellEdges(directed, eight, MirrorPolicy, s, w, h) +
            (if Classify(s, w, h) == Interior then {} else {EdgeKey(directed, s, TorusPartner(s, w, h))})
  {
  }

  /** Every torus link joins two grid cells, so the torus wiring adds no vertex. */
  lemma {:induction false} TorusLinksOnGrid(directed: bool, w: nat, h: nat, k: nat, e: (nat, nat))
    requires w > 0 && h > 0 && k <= w * h && e in TorusLinks(directed, w, h, k)
    ensures e.0 < w * h && e.1 < w * h
    decreases k
  {
    if e !in TorusLinks(directed, w, h, k - 1) {
      TorusPartnerInGrid(k - 1, w, h);
    } else {
      TorusLinksOnGrid(directed, w, h, k - 1, e);
    }
  }

  /** The torus links are exactly the links from each border cell below `k` to its partner. */
  lemma {:induction false} TorusLinksFromBorder(directed: bool, w: nat, h: nat, k: nat, e: (nat, nat))
    requires w > 0 && h > 0
    ensures e in TorusLinks(directed, w, h, k) <==>
            exists s: nat :: s < k && Classify(s, w, h) != Interior && e == EdgeKey(directed, s, TorusPartner(s, w, h))
    decreases k
  {
    if k > 0 {
      TorusLinksFromBorder(directed, w, h, k - 1, e);
      if Classify(k - 1, w, h) != Interior && e == EdgeKey(directed, k - 1, TorusPartner(k - 1, w, h)) {
        assert e in TorusLinks(directed, w, h, k);
      }
    }
  }
}
