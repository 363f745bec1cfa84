// The cardinal binary tree graph: every vertex has a left and a right
// successor slot, either of which may be empty, and the bidirectional
// variant also keeps each vertex's predecessor.  A depth-first traversal
// visits each vertex three times: before its left subtree (pre), between
// its subtrees (in) and after them (post).  The bidirectional traversal
// walks the tree with no stack, one step at a time, climbing back through
// the predecessor links.

module CardinalTrees {
  import opened Common

  /** The stage at which a traversal visits a vertex. */
  datatype Visit = Pre | In | Post

  /** A vertex's slots; `None` stands for the null vertex. */
  datatype Node = Node(left: Option<nat>, right: Option<nat>, pred: Option<nat>)

  /** A traversal position, which is also the visitor call made there. */
  datatype State = State(stage: Visit, u: nat)

  /** The successors of `v` are vertices of the graph with a lower rank. */
  ghost predicate RankedAt(g: seq<Node>, rank: seq<nat>, v: nat)
    requires |rank| == |g| && v < |g|
  {
    (g[v].left.Some? ==> g[v].left.value < |g| && rank[g[v].left.value] < rank[v]) &&
    (g[v].right.Some? ==> g[v].right.value < |g| && rank[g[v].right.value] < rank[v])
  }

  /**
   * `rank` witnesses that following successors always ends: what hangs
   * from any vertex is a finite tree.
   */
  ghost predicate Ranked(g: seq<Node>, rank: seq<nat>)
  {
    |rank| == |g| && forall v :: 0 <= v < |g| ==> RankedAt(g, rank, v)
  }

  /**
   * The predecessor slots agree with the successor slots at `v`: its
   * children point back to it, its two children differ, and its own
   * predecessor holds it in one of its slots.
   */
  ghost predicate LinkedAt(g: seq<Node>, v: nat)
    requires v < |g|
  {
    (g[v].left.Some? ==> g[v].left.value < |g| && g[g[v].left.value].pred == Some(v)) &&
    (g[v].right.Some? ==> g[v].right.value < |g| && g[g[v].right.value].pred == Some(v)) &&
    (g[v].left.Some? && g[v].right.Some? ==> g[v].left != g[v].right) &&
    (g[v].pred.Some? ==>
       g[v].pred.value < |g| && (g[g[v].pred.value].left == Some(v) || g[g[v].pred.value].right == Some(v)))
  }

  /** A bidirectional binary tree (or forest) whose links agree. */
  ghost predicate Linked(g: seq<Node>, rank: seq<nat>)
  {
    Ranked(g, rank) && forall v :: 0 <= v < |g| ==> LinkedAt(g, v)
  }

  /**
   * The visitor calls of the recursive depth-first traversal from `u`:
   * pre(u), the left subtree, in(u), the right subtree, post(u).
   */
  ghost function TraverseNonempty(g: seq<Node>, rank: seq<nat>, u: nat): seq<State>
    requires Ranked(g, rank) && u < |g|
    decreases rank[u]
  {
    assert RankedAt(g, rank, u);
    [State(Pre, u)]
    + (if g[u].left.Some? then TraverseNonempty(g, rank, g[u].left.value) else [])
    + [State(In, u)]
    + (if g[u].right.Some? then TraverseNonempty(g, rank, g[u].right.value) else [])
    + [State(Post, u)]
  }

  /** The states under `u` all lie at vertices of lower rank. */
  ghost predicate Below(g: seq<Node>, rank: seq<nat>, u: nat, w: seq<State>)
    requires |rank| == |g| && u < |g|
  {
    forall k :: 0 <= k < |w| ==> w[k].u < |g| && rank[w[k].u] < rank[u]
  }

  /** What the traversal from `u` visits, given what its subtrees visit. */
  ghost predicate Bounded(g: seq<Node>, rank: seq<nat>, u: nat, w: seq<State>)
    requires |rank| == |g| && u < |g|
  {
    |w| >= 3 && w[0] == State(Pre, u) && w[|w| - 1] == State(Post, u) &&
    (forall k :: 0 <= k < |w| ==> w[k].u < |g| && (w[k].u == u || rank[w[k].u] < rank[u])) &&
    (forall k :: 0 <= k < |w| - 1 ==> w[k] != State(Post, u))
  }

  lemma AssembleBounds(g: seq<Node>, rank: seq<nat>, u: nat, L: seq<State>, R: seq<State>, w: seq<State>)
    requires |rank| == |g| && u < |g|
    requires Below(g, rank, u, L) && Below(g, rank, u, R)
    requires w == [State(Pre, u)] + L + [State(In, u)] + R + [State(Post, u)]
    ensures Bounded(g, rank, u, w)
  {
    forall k | 0 <= k < |w|
      ensures w[k].u < |g| && (w[k].u == u || rank[w[k].u] < rank[u])
      ensures k < |w| - 1 ==> w[k] != State(Post, u)
    {
      if 1 <= k <= |L| {
        assert w[k] == L[k - 1];
      } else if |L| + 2 <= k < |L| + 2 + |R| {
        assert w[k] == R[k - |L| - 2];
      }
    }
  }

  /** A subtree's traversal stays below its parent. */
  lemma ChildBelow(g: seq<Node>, rank: seq<nat>, u: nat, c: nat, w: seq<State>)
    requires |rank| == |g| && u < |g| && c < |g| && rank[c] < rank[u]
    requires Bounded(g, rank, c, w)
    ensures Below(g, rank, u, w)
  {
  }

  /** Every state of the traversal from `u` is at `u` or at a vertex of lower rank, and it ends at post(u), seen only there. */
  lemma {:induction false} TraversalBounds(g: seq<Node>, rank: seq<nat>, u: nat, w: seq<State>)
    requires Ranked(g, rank) && u < |g| && w == TraverseNonempty(g, rank, u)
    ensures Bounded(g, rank, u, w)
    decreases rank[u]
  {
    assert RankedAt(g, rank, u);
    var L := if g[u].left.Some? then TraverseNonempty(g, rank, g[u].left.value) else [];
    var R := if g[u].right.Some? then TraverseNonempty(g, rank, g[u].right.value) else [];
    if g[u].left.Some? {
      TraversalBounds(g, rank, g[u].left.value, L);
      ChildBelow(g, rank, u, g[u].left.value, L);
    }
    if g[u].right.Some? {
      TraversalBounds(g, rank, g[u].right.value, R);
      ChildBelow(g, rank, u, g[u].right.value, R);
    }
    AssembleBounds(g, rank, u, L, R, w);
  }

  /** A slot is empty or holds a vertex of the graph. */
  predicate InGraph(g: seq<Node>, o: Option<nat>)
  {
    o.None? || o.value < |g|
  }

  /**
   * `traverse_step` may run at `s`: the vertex and its successors are in
   * the graph and, at post, it has a predecessor to climb to.
   */
  predicate StepDefined(g: seq<Node>, s: State)
  {
    s.u < |g| && InGraph(g, g[s.u].left) && InGraph(g, g[s.u].right) &&
    (s.stage == Post ==> g[s.u].pred.Some? && g[s.u].pred.value < |g|)
  }

  /**
   * One step of the stackless traversal, and the change of depth it
   * reports: from pre it descends left, or else moves on to in; from in it
   * descends right with stage pre, or else moves on to post; from post it
   * climbs to the predecessor, resuming at in when it leaves a left child.
   */
  function TraverseStep(g: seq<Node>, s: State): (r: (State, int))
    requires StepDefined(g, s)
    ensures r.0.u < |g|
    ensures r.1 == 1 ==> r.0.stage == Pre && (g[s.u].left == Some(r.0.u) || g[s.u].right == Some(r.0.u))
    ensures r.1 == 0 ==> r.0.u == s.u && s.stage != Post && r.0.stage == (if s.stage == Pre then In else Post)
    ensures r.1 == -1 ==> s.stage == Post && g[s.u].pred == Some(r.0.u) && r.0.stage != Pre
    ensures r.1 in {-1, 0, 1}
  {
    var u := s.u;
    match s.stage
    case Pre =>
      if g[u].left.Some? then (State(Pre, g[u].left.value), 1) else (State(In, u), 0)
    case In =>
      if g[u].right.Some? then (State(Pre, g[u].right.value), 1) else (State(Post, u), 0)
    case Post =>
      var p := g[u].pred.value;
      (State(if g[p].left == Some(u) then In else Post, p), -1)
  }

  /** `traverse_step` runs at `a` and moves to `b`. */
  predicate Joins(g: seq<Node>, a: State, b: State)
  {
    StepDefined(g, a) && TraverseStep(g, a).0 == b
  }

  /** Each state of `w` steps to the next one. */
  predicate Chain(g: seq<Node>, w: seq<State>)
  {
    forall k :: 0 <= k < |w| - 1 ==> Joins(g, w[k], w[k + 1])
  }

  /** A chain framed by `a` before and `b` after, glued with single steps. */
  lemma Bridge(g: seq<Node>, a: State, L: seq<State>, b: State)
    requires Chain(g, L)
    requires |L| == 0 ==> Joins(g, a, b)
    requires |L| > 0 ==> Joins(g, a, L[0]) && Joins(g, L[|L| - 1], b)
    ensures Chain(g, [a] + L + [b])
  {
    var w := [a] + L + [b];
    forall k | 0 <= k < |w| - 1
      ensures Joins(g, w[k], w[k + 1])
    {
      if 1 <= k < |L| {
        assert w[k] == L[k - 1] && w[k + 1] == L[k];
      }
    }
  }

  /** Two chains sharing an end state form one chain. */
  lemma ChainOverlap(g: seq<Node>, A: seq<State>, B: seq<State>)
    requires Chain(g, A) && Chain(g, B) && |A| > 0 && |B| > 0 && A[|A| - 1] == B[0]
    ensures Chain(g, A + B[1..])
  {
    var w := A + B[1..];
    forall k | 0 <= k < |w| - 1
      ensures Joins(g, w[k], w[k + 1])
    {
      if k >= |A| - 1 {
        assert w[k] == B[k - |A| + 1] && w[k + 1] == B[k - |A| + 2];
      }
    }
  }

  /** The traversal from `u` is a chain once its subtrees' traversals are and the seams are single steps. */
  lemma AssembleChain(g: seq<Node>, u: nat, L: seq<State>, R: seq<State>, w: seq<State>)
    requires Chain(g, L) && Chain(g, R)
    requires |L| == 0 ==> Joins(g, State(Pre, u), State(In, u))
    requires |L| > 0 ==> Joins(g, State(Pre, u), L[0]) && Joins(g, L[|L| - 1], State(In, u))
    requires |R| == 0 ==> Joins(g, State(In, u), State(Post, u))
    requires |R| > 0 ==> Joins(g, State(In, u), R[0]) && Joins(g, R[|R| - 1], State(Post, u))
    requires w == [State(Pre, u)] + L + [State(In, u)] + R + [State(Post, u)]
    ensures Chain(g, w)
  {
    Bridge(g, State(Pre, u), L, State(In, u));
    Bridge(g, State(In, u), R, State(Post, u));
    var P := [State(Pre, u)] + L + [State(In, u)];
    var Q := [State(In, u)] + R + [State(Post, u)];
    ChainOverlap(g, P, Q);
    assert w == P + Q[1..];
  }

  /**
   * In a linked tree, `traverse_step` turns each state of the recursive
   * traversal from `u` into the next one: stepping from pre(u) passes
   * through exactly the recursive traversal's states, in its order.
   */
  lemma {:induction false} TraversalChain(g: seq<Node>, rank: seq<nat>, u: nat, w: seq<State>)
    requires Linked(g, rank) && u < |g| && w == TraverseNonempty(g, rank, u)
    ensures Chain(g, w)
    decreases rank[u], 1
  {
    assert RankedAt(g, rank, u);
    assert LinkedAt(g, u);
    var L := if g[u].left.Some? then TraverseNonempty(g, rank, g[u].left.value) else [];
    var R := if g[u].right.Some? then TraverseNonempty(g, rank, g[u].right.value) else [];
    if g[u].left.Some? {
      SubtreeChain(g, rank, u, g[u].left.value, L, State(Pre, u), State(In, u));
    }
    if g[u].right.Some? {
      SubtreeChain(g, rank, u, g[u].right.value, R, State(In, u), State(Post, u));
    }
    AssembleChain(g, u, L, R, w);
  }

  /**
   * The traversal `L` of the subtree under `v`, a child of `u`, is a chain
   * entered from `a`, the state before it, and left for `b`, the state after.
   */
  lemma {:induction false} SubtreeChain(g: seq<Node>, rank: seq<nat>, u: nat, v: nat, L: seq<State>, a: State, b: State)
    requires Linked(g, rank) && u < |g| && RankedAt(g, rank, u) && v < |g| && rank[v] < rank[u]
    requires g[v].pred == Some(u) && InGraph(g, g[u].left) && InGraph(g, g[u].right)
    requires L == TraverseNonempty(g, rank, v)
    requires StepDefined(g, a) && TraverseStep(g, a).0 == State(Pre, v)
    requires b == State(if g[u].left == Some(v) then In else Post, u)
    ensures Chain(g, L) && Joins(g, a, L[0]) && Joins(g, L[|L| - 1], b)
    decreases rank[u], 0
  {
    assert RankedAt(g, rank, v);
    TraversalBounds(g, rank, v, L);
    TraversalChain(g, rank, v, L);
  }

  /**
   * The stackless traversal from `u`: it visits pre(u), then steps and
   * visits until it is back at `u` with stage post.  From the null vertex
   * it makes no visit.  Its visits are those of the recursive traversal.
   */
  method Traverse(g: seq<Node>, u: Option<nat>, ghost rank: seq<nat>) returns (vis: seq<State>)
    requires Linked(g, rank) && (u.Some? ==> u.value < |g|)
    ensures u.None? ==> vis == []
    ensures u.Some? ==> vis == TraverseNonempty(g, rank, u.value)
  {
    if u.None? {
      return [];
    }
    var root := u.value;
    ghost var w := TraverseNonempty(g, rank, root);
    TraversalBounds(g, rank, root, w);
    TraversalChain(g, rank, root, w);
    var s := State(Pre, root);
    vis := [s];
    ghost var k := 0;
    var done := false;
    while !done
      invariant 0 <= k < |w| && s == w[k] && vis == w[..k + 1]
      invariant done <==> k == |w| - 1
      decreases |w| - k
    {
      assert Joins(g, w[k], w[k + 1]);
      s := TraverseStep(g, s).0;
      k := k + 1;
      vis := vis + [s];
      done := s.u == root && s.stage == Post;
    }
    assert w[..k + 1] == w;
  }

  /** A bound on every rank. */
  ghost function Peak(rank: seq<nat>): (m: nat)
    ensures forall i :: 0 <= i < |rank| ==> rank[i] <= m
  {
    if |rank| == 0 then 0
    else
      var m := Peak(rank[..|rank| - 1]);
      assert forall i :: 0 <= i < |rank| - 1 ==> rank[i] == rank[..|rank| - 1][i];
      if rank[|rank| - 1] > m then rank[|rank| - 1] else m
  }

  /**
   * The vertex reached by following predecessors from `u` until there is
   * none: the root of the tree that holds `u`.
   */
  ghost function Top(g: seq<Node>, rank: seq<nat>, u: nat): (r: nat)
    requires Linked(g, rank) && u < |g|
    ensures r < |g| && g[r].pred.None?
    decreases Peak(rank) - rank[u]
  {
    assert LinkedAt(g, u);
    if g[u].pred.None? then u
    else
      assert RankedAt(g, rank, g[u].pred.value);
      Top(g, rank, g[u].pred.value)
  }

  /** `root(u)`: climb through predecessors while there is one. */
  method Root(g: seq<Node>, u: nat, ghost rank: seq<nat>) returns (r: nat)
    requires Linked(g, rank) && u < |g|
    ensures r < |g| && g[r].pred.None?
    ensures r == Top(g, rank, u)
  {
    r := u;
    while g[r].pred.Some?
      invariant r < |g| && Top(g, rank, r) == Top(g, rank, u)
      decreases Peak(rank) - rank[r]
    {
      assert LinkedAt(g, r);
      assert RankedAt(g, rank, g[r].pred.value);
      r := g[r].pred.value;
    }
  }

  /** A child's traversal is part of its parent's. */
  lemma ChildInside(g: seq<Node>, rank: seq<nat>, p: nat, c: nat)
    requires Ranked(g, rank) && p < |g| && c < |g|
    requires g[p].left == Some(c) || g[p].right == Some(c)
    ensures forall x :: x in TraverseNonempty(g, rank, c) ==> x in TraverseNonempty(g, rank, p)
  {
    assert RankedAt(g, rank, p);
  }

  /** Everything the traversal from `u` visits, the traversal from the root of `u`'s tree visits too. */
  lemma {:induction false} RootCoversVertex(g: seq<Node>, rank: seq<nat>, u: nat)
    requires Linked(g, rank) && u < |g|
    ensures forall x :: x in TraverseNonempty(g, rank, u) ==> x in TraverseNonempty(g, rank, Top(g, rank, u))
    decreases Peak(rank) - rank[u]
  {
    assert LinkedAt(g, u);
    if g[u].pred.Some? {
      var p := g[u].pred.value;
      assert RankedAt(g, rank, p);
      ChildInside(g, rank, p, u);
      RootCoversVertex(g, rank, p);
    }
  }

  /**
   * The graph after the edge `u -> v` is added: `v` takes the first free
   * successor slot of `u` (left, else right) and `u` becomes its predecessor.
   */
  function WithEdge(g: seq<Node>, u: nat, v: nat): seq<Node>
    requires u < |g| && v < |g|
  {
    var n := g[u];
    var h := g[u := if n.left.None? then n.(left := Some(v)) else n.(right := Some(v))];
    h[v := h[v].(pred := Some(u))]
  }

  /** The graph after the edge `u -> v` is removed: the slot of `u` holding `v` and the predecessor of `v` are cleared. */
  function WithoutEdge(g: seq<Node>, u: nat, v: nat): seq<Node>
    requires u < |g| && v < |g|
  {
    var n := g[u];
    var h := g[u := if n.left == Some(v) then n.(left := None) else if n.right == Some(v) then n.(right := None) else n];
    h[v := h[v].(pred := None)]
  }

  /** Removing an edge just added gives back the graph it was added to. */
  lemma RemoveUndoesAdd(g: seq<Node>, u: nat, v: nat)
    requires u < |g| && v < |g| && g[v].pred.None?
    requires g[u].left.None? || g[u].right.None?
    requires g[u].left != Some(v) && g[u].right != Some(v)
    ensures WithoutEdge(WithEdge(g, u, v), u, v) == g
  {
    var h := WithoutEdge(WithEdge(g, u, v), u, v);
    assert forall i :: 0 <= i < |g| ==> h[i] == g[i];
  }

  /**
   * Adding an edge from `u` to a root `v` of lower rank keeps the tree's
   * links in agreement, with the same ranks.
   */
  lemma AddKeepsLinked(g: seq<Node>, rank: seq<nat>, u: nat, v: nat)
    requires Linked(g, rank) && u < |g| && v < |g| && u != v
    requires g[v].pred.None? && rank[v] < rank[u]
    requires g[u].left.None? || g[u].right.None?
    ensures Linked(WithEdge(g, u, v), rank)
  {
    var h := WithEdge(g, u, v);
    assert LinkedAt(g, u) && LinkedAt(g, v);
    forall x | 0 <= x < |h|
      ensures RankedAt(h, rank, x) && LinkedAt(h, x)
    {
      assert RankedAt(g, rank, x) && LinkedAt(g, x);
      if g[x].left.Some? { assert LinkedAt(g, g[x].left.value); }
      if g[x].right.Some? { assert LinkedAt(g, g[x].right.value); }
      if g[x].pred.Some? { assert RankedAt(g, rank, g[x].pred.value); }
    }
  }

  /** Removing the edge into `v` from its predecessor keeps the tree's links in agreement. */
  lemma RemoveKeepsLinked(g: seq<Node>, rank: seq<nat>, u: nat, v: nat)
    requires Linked(g, rank) && u < |g| && v < |g| && g[v].pred == Some(u)
    ensures Linked(WithoutEdge(g, u, v), rank)
  {
    var h := WithoutEdge(g, u, v);
    assert LinkedAt(g, u) && LinkedAt(g, v);
    forall x | 0 <= x < |h|
      ensures RankedAt(h, rank, x) && LinkedAt(h, x)
    {
      assert RankedAt(g, rank, x) && LinkedAt(g, x);
      if g[x].left.Some? { assert LinkedAt(g, g[x].left.value); }
      if g[x].right.Some? { assert LinkedAt(g, g[x].right.value); }
    }
  }

  /** A bidirectional binary tree over vertices `0 .. |nodes| - 1`. */
  class BidirectionalTree {
    var nodes: seq<Node>

    /** `n` vertices and no edges. */
    constructor (n: nat)
      ensures |nodes| == n && forall v :: 0 <= v < n ==> nodes[v] == Node(None, None, None)
    {
      nodes := seq(n, _ => Node(None, None, None));
    }

    /**
     * `add_edge(u, v)`: refused when `v` already has a predecessor or when
     * `u` has no free successor slot; otherwise `v` becomes a successor of
     * `u` and `u` the predecessor of `v`.
     */
    method AddEdge(u: nat, v: nat) returns (added: bool)
      requires u < |nodes| && v < |nodes|
      modifies this
      ensures added <==> old(nodes[v].pred.None? && (nodes[u].left.None? || nodes[u].right.None?))
      ensures added ==> nodes == WithEdge(old(nodes), u, v) && nodes[v].pred == Some(u)
      ensures !added ==> nodes == old(nodes)
    {
      if nodes[v].pred.Some? {
        return false;
      }
      var n := nodes[u];
      if n.left.None? {
        nodes := nodes[u := n.(left := Some(v))];
      } else if n.right.None? {
        nodes := nodes[u := n.(right := Some(v))];
      } else {
        return false;
      }
      nodes := nodes[v := nodes[v].(pred := Some(u))];
      added := true;
    }

    /** `remove_edge(u, v)`, for `u` the predecessor of `v`: the edge goes and `v` has no predecessor any more. */
    method RemoveEdge(u: nat, v: nat)
      requires u < |nodes| && v < |nodes| && nodes[v].pred == Some(u)
      modifies this
      ensures nodes == WithoutEdge(old(nodes), u, v) && nodes[v].pred.None?
    {
      var n := nodes[u];
      if n.left == Some(v) {
        nodes := nodes[u := n.(left := None)];
      } else if n.right == Some(v) {
        nodes := nodes[u := n.(right := None)];
      }
      nodes := nodes[v := nodes[v].(pred := None)];
    }
  }

  /** The shape of a binary tree, without its vertex numbers. */
  datatype Shape = Shape(left: Option<Shape>, right: Option<Shape>)

  /** The shape of the tree hanging from `u`. */
  ghost function ShapeOf(g: seq<Node>, rank: seq<nat>, u: nat): Shape
    requires Ranked(g, rank) && u < |g|
    decreases rank[u]
  {
    assert RankedAt(g, rank, u);
    Shape(if g[u].left.Some? then Some(ShapeOf(g, rank, g[u].left.value)) else None,
          if g[u].right.Some? then Some(ShapeOf(g, rank, g[u].right.value)) else None)
  }

  /**
   * `bifurcate_isomorphic_nonempty` as written: when `u` has no left (or
   * right) successor it tests `u` again where `v` was meant, so a missing
   * subtree on the `g` side is never compared with the `h` side.
   */
  ghost function BifurcateIsomorphicNonemptyAsWritten(g: seq<Node>, rg: seq<nat>, u: nat, h: seq<Node>, rh: seq<nat>, v: nat): bool
    requires Ranked(g, rg) && Ranked(h, rh) && u < |g| && v < |h|
    decreases rg[u]
  {
    assert RankedAt(g, rg, u) && RankedAt(h, rh, v);
    (if g[u].left.Some? then
       h[v].left.Some? && BifurcateIsomorphicNonemptyAsWritten(g, rg, g[u].left.value, h, rh, h[v].left.value)
     else g[u].left.None?) &&
    (if g[u].right.Some? then
       h[v].right.Some? && BifurcateIsomorphicNonemptyAsWritten(g, rg, g[u].right.value, h, rh, h[v].right.value)
     else g[u].right.None?)
  }

  /** `bifurcate_isomorphic_nonempty` with the second test on `v`, as intended. */
  ghost function BifurcateIsomorphicNonempty(g: seq<Node>, rg: seq<nat>, u: nat, h: seq<Node>, rh: seq<nat>, v: nat): bool
    requires Ranked(g, rg) && Ranked(h, rh) && u < |g| && v < |h|
    decreases rg[u]
  {
    assert RankedAt(g, rg, u) && RankedAt(h, rh, v);
    (if g[u].left.Some? then
       h[v].left.Some? && BifurcateIsomorphicNonempty(g, rg, g[u].left.value, h, rh, h[v].left.value)
     else h[v].left.None?) &&
    (if g[u].right.Some? then
       h[v].right.Some? && BifurcateIsomorphicNonempty(g, rg, g[u].right.value, h, rh, h[v].right.value)
     else h[v].right.None?)
  }

  /** The corrected comparison holds exactly when the two trees have the same shape. */
  lemma {:induction false} IsomorphicNonemptyMatchesShape(g: seq<Node>, rg: seq<nat>, u: nat, h: seq<Node>, rh: seq<nat>, v: nat)
    requires Ranked(g, rg) && Ranked(h, rh) && u < |g| && v < |h|
    ensures BifurcateIsomorphicNonempty(g, rg, u, h, rh, v) <==> ShapeOf(g, rg, u) == ShapeOf(h, rh, v)
    decreases rg[u]
  {
    assert RankedAt(g, rg, u) && RankedAt(h, rh, v);
    if g[u].left.Some? && h[v].left.Some? {
      IsomorphicNonemptyMatchesShape(g, rg, g[u].left.value, h, rh, h[v].left.value);
    }
    if g[u].right.Some? && h[v].right.Some? {
      IsomorphicNonemptyMatchesShape(g, rg, g[u].right.value, h, rh, h[v].right.value);
    }
  }

  /** As written, the comparison still accepts every pair of trees of the same shape. */
  lemma {:induction false} AsWrittenAcceptsSameShape(g: seq<Node>, rg: seq<nat>, u: nat, h: seq<Node>, rh: seq<nat>, v: nat)
    requires Ranked(g, rg) && Ranked(h, rh) && u < |g| && v < |h|
    requires ShapeOf(g, rg, u) == ShapeOf(h, rh, v)
    ensures BifurcateIsomorphicNonemptyAsWritten(g, rg, u, h, rh, v)
    decreases rg[u]
  {
    assert RankedAt(g, rg, u) && RankedAt(h, rh, v);
    if g[u].left.Some? {
      AsWrittenAcceptsSameShape(g, rg, g[u].left.value, h, rh, h[v].left.value);
    }
    if g[u].right.Some? {
      AsWrittenAcceptsSameShape(g, rg, g[u].right.value, h, rh, h[v].right.value);
    }
  }

  /** A lone vertex. */
  function Leaf(pred: Option<nat>): Node
  {
    Node(None, None, pred)
  }

  /**
   * As written, a single vertex is matched with a vertex that has two
   * successors: their shapes differ, yet the comparison accepts them.
   */
  lemma LeafMatchesCherryAsWritten()
    ensures var g, h := [Leaf(None)], [Node(Some(1), Some(2), None), Leaf(Some(0)), Leaf(Some(0))];
      Ranked(g, [0]) && Ranked(h, [1, 0, 0]) &&
      BifurcateIsomorphicNonemptyAsWritten(g, [0], 0, h, [1, 0, 0], 0) &&
      ShapeOf(g, [0], 0) != ShapeOf(h, [1, 0, 0], 0) &&
      !BifurcateIsomorphicNonempty(g, [0], 0, h, [1, 0, 0], 0)
  {
    var g, h := [Leaf(None)], [Node(Some(1), Some(2), None), Leaf(Some(0)), Leaf(Some(0))];
    assert RankedAt(g, [0], 0);
    assert RankedAt(h, [1, 0, 0], 0) && RankedAt(h, [1, 0, 0], 1) && RankedAt(h, [1, 0, 0], 2);
    assert ShapeOf(g, [0], 0).left.None?;
    assert ShapeOf(h, [1, 0, 0], 0).left.Some?;
  }

  /**
   * `isomorphism` of forward trees as written: the vertex counts must
   * agree, and then either both graphs are empty or the trees hanging from
   * vertex 0 pass the comparison.
   */
  ghost function IsomorphismAsWritten(g: seq<Node>, rg: seq<nat>, h: seq<Node>, rh: seq<nat>): bool
    requires Ranked(g, rg) && Ranked(h, rh)
  {
    |g| == |h| && (|g| == 0 || BifurcateIsomorphicNonemptyAsWritten(g, rg, 0, h, rh, 0))
  }

  /** `isomorphism` of forward trees, using the corrected comparison. */
  ghost function Isomorphism(g: seq<Node>, rg: seq<nat>, h: seq<Node>, rh: seq<nat>): bool
    requires Ranked(g, rg) && Ranked(h, rh)
  {
    |g| == |h| && (|g| == 0 || BifurcateIsomorphicNonempty(g, rg, 0, h, rh, 0))
  }

  /**
   * Different vertex counts are never isomorphic, two empty graphs always
   * are, and otherwise the trees from vertex 0 must have the same shape.
   */
  lemma IsomorphismMatchesShape(g: seq<Node>, rg: seq<nat>, h: seq<Node>, rh: seq<nat>)
    requires Ranked(g, rg) && Ranked(h, rh)
    ensures |g| != |h| ==> !Isomorphism(g, rg, h, rh) && !IsomorphismAsWritten(g, rg, h, rh)
    ensures |g| == 0 && |h| == 0 ==> Isomorphism(g, rg, h, rh) && IsomorphismAsWritten(g, rg, h, rh)
    ensures Isomorphism(g, rg, h, rh) <==> |g| == |h| && (|g| == 0 || ShapeOf(g, rg, 0) == ShapeOf(h, rh, 0))
  {
    if |g| == |h| && |g| > 0 {
      IsomorphicNonemptyMatchesShape(g, rg, 0, h, rh, 0);
    }
  }

  /**
   * As written, two isolated vertices are reported isomorphic to a
   * vertex with one successor: both graphs have two vertices, and the
   * comparison never looks at the successor that only `h` has.
   */
  lemma IsolatedPairMatchesEdgeAsWritten()
    ensures var g, h := [Leaf(None), Leaf(None)], [Node(Some(1), None, None), Leaf(Some(0))];
      Ranked(g, [0, 0]) && Ranked(h, [1, 0]) &&
      IsomorphismAsWritten(g, [0, 0], h, [1, 0]) && !Isomorphism(g, [0, 0], h, [1, 0])
  {
    var g, h := [Leaf(None), Leaf(None)], [Node(Some(1), None, None), Leaf(Some(0))];
    assert RankedAt(g, [0, 0], 0) && RankedAt(g, [0, 0], 1);
    assert RankedAt(h, [1, 0], 0) && RankedAt(h, [1, 0], 1);
  }

  function Min(a: nat, b: nat): nat
  {
    if a < b then a else b
  }

  /** The stages a traversal of a tree of shape `t` goes through. */
  ghost function Stages(t: Shape): seq<Visit>
    decreases t, 1
  {
    [Pre] + Slot(t.left) + [In] + Slot(t.right) + [Post]
  }

  /** The stages of an optional subtree: none for an empty slot. */
  ghost function Slot(o: Option<Shape>): seq<Visit>
    decreases o, 0
  {
    if o.Some? then Stages(o.value) else []
  }

  /** The first `n` elements of `a` and `b` agree. */
  ghost predicate Agree(a: seq<Visit>, b: seq<Visit>, n: nat)
    requires n <= |a| && n <= |b|
  {
    forall k :: 0 <= k < n ==> a[k] == b[k]
  }

  /** `A` sits in `a` from position `off` on. */
  ghost predicate At(a: seq<Visit>, off: nat, A: seq<Visit>)
  {
    off + |A| <= |a| && forall i :: 0 <= i < |A| ==> a[off + i] == A[i]
  }

  lemma FiveParts(x: Visit, L: seq<Visit>, y: Visit, R: seq<Visit>, z: Visit, w: seq<Visit>)
    requires w == [x] + L + [y] + R + [z]
    ensures |w| == |L| + |R| + 3 && w[0] == x && At(w, 1, L) && w[|L| + 1] == y && At(w, |L| + 2, R) && w[|w| - 1] == z
  {
    assert forall i :: 0 <= i < |L| ==> w[1 + i] == L[i];
    assert forall i :: 0 <= i < |R| ==> w[|L| + 2 + i] == R[i];
  }

  /** A stage sequence starts with pre and holds at least pre, in and post. */
  lemma StagesStart(t: Shape)
    ensures |Stages(t)| >= 3 && Stages(t)[0] == Pre
  {
  }

  /**
   * Stage sequences are prefix-free: two shapes whose stage sequences agree
   * as far as the shorter one goes are the same shape.
   */
  lemma StagesDetermineShape(t1: Shape, t2: Shape)
    requires Agree(Stages(t1), Stages(t2), Min(|Stages(t1)|, |Stages(t2)|))
    ensures t1 == t2
  {
    PrefixFree(t1, t2, Stages(t1), Stages(t2));
  }

  lemma {:induction false} PrefixFree(t1: Shape, t2: Shape, s1: seq<Visit>, s2: seq<Visit>)
    requires s1 == Stages(t1) && s2 == Stages(t2) && Agree(s1, s2, Min(|s1|, |s2|))
    ensures t1 == t2
    decreases t1, 1
  {
    var L1, R1, L2, R2 := Slot(t1.left), Slot(t1.right), Slot(t2.left), Slot(t2.right);
    FiveParts(Pre, L1, In, R1, Post, s1);
    FiveParts(Pre, L2, In, R2, Post, s2);
    SlotsAgree(t1.left, t2.left, s1, s2, 1);
    assert |L1| == |L2|;
    SlotsAgree(t1.right, t2.right, s1, s2, |L1| + 2);
  }

  /**
   * Two slots placed at the same offset of two agreeing stage sequences, each
   * followed by a stage other than pre, hold the same subtree.
   */
  lemma {:induction false} SlotsAgree(o1: Option<Shape>, o2: Option<Shape>, s1: seq<Visit>, s2: seq<Visit>, off: nat)
    requires Agree(s1, s2, Min(|s1|, |s2|))
    requires At(s1, off, Slot(o1)) && off + |Slot(o1)| < |s1| && s1[off + |Slot(o1)|] != Pre
    requires At(s2, off, Slot(o2)) && off + |Slot(o2)| < |s2| && s2[off + |Slot(o2)|] != Pre
    ensures o1 == o2
    decreases o1, 0
  {
    if o1.Some? { StagesStart(o1.value); }
    if o2.Some? { StagesStart(o2.value); }
    assert s1[off] == s2[off];
    if o1.Some? && o2.Some? {
      var A, B := Slot(o1), Slot(o2);
      assert Agree(A, B, Min(|A|, |B|)) by {
        forall i | 0 <= i < Min(|A|, |B|)
          ensures A[i] == B[i]
        {
          assert s1[off + i] == s2[off + i];
        }
      }
      PrefixFree(o1.value, o2.value, A, B);
    }
  }

  /** The traversal from `u` goes through the stages of its shape, in order. */
  lemma {:induction false} TraversalStages(g: seq<Node>, rank: seq<nat>, u: nat, w: seq<State>)
    requires Ranked(g, rank) && u < |g| && w == TraverseNonempty(g, rank, u)
    ensures |w| == |Stages(ShapeOf(g, rank, u))|
    ensures forall k :: 0 <= k < |w| ==> w[k].stage == Stages(ShapeOf(g, rank, u))[k]
    decreases rank[u]
  {
    assert RankedAt(g, rank, u);
    var t := ShapeOf(g, rank, u);
    var L := if g[u].left.Some? then TraverseNonempty(g, rank, g[u].left.value) else [];
    var R := if g[u].right.Some? then TraverseNonempty(g, rank, g[u].right.value) else [];
    var SL := Slot(t.left);
    var SR := Slot(t.right);
    if g[u].left.Some? { TraversalStages(g, rank, g[u].left.value, L); }
    if g[u].right.Some? { TraversalStages(g, rank, g[u].right.value, R); }
    FrameStages(u, L, R, w, SL, SR, Stages(t));
  }

  lemma FrameStages(u: nat, L: seq<State>, R: seq<State>, w: seq<State>, SL: seq<Visit>, SR: seq<Visit>, S: seq<Visit>)
    requires |L| == |SL| && (forall k :: 0 <= k < |L| ==> L[k].stage == SL[k])
    requires |R| == |SR| && (forall k :: 0 <= k < |R| ==> R[k].stage == SR[k])
    requires w == [State(Pre, u)] + L + [State(In, u)] + R + [State(Post, u)]
    requires S == [Pre] + SL + [In] + SR + [Post]
    ensures |w| == |S| && forall k :: 0 <= k < |w| ==> w[k].stage == S[k]
  {
    forall k | 0 <= k < |w|
      ensures w[k].stage == S[k]
    {
      if 1 <= k <= |L| {
        assert w[k] == L[k - 1] && S[k] == SL[k - 1];
      } else if |L| + 2 <= k < |L| + 2 + |R| {
        assert w[k] == R[k - |L| - 2] && S[k] == SR[k - |L| - 2];
      }
    }
  }

  /**
   * A stage sequence that agrees with a second one along the second's whole
   * length is no longer than it: the two shapes are then the same.
   */
  lemma PrefixLength(t1: Shape, t2: Shape, n: nat)
    requires n <= |Stages(t1)| && n <= |Stages(t2)| && Agree(Stages(t1), Stages(t2), n)
    ensures n == |Stages(t2)| ==> t1 == t2
  {
    if n == |Stages(t2)| {
      StagesDetermineShape(t1, t2);
    }
  }

  /**
   * The lockstep comparison of two bidirectional trees: both traversals step
   * together from pre at their roots; a differing stage answers false, and
   * reaching post at the first root answers true.  The answer is whether the
   * two subtrees have the same shape.
   */
  method BifurcateIsomorphic(g: seq<Node>, u: Option<nat>, h: seq<Node>, v: Option<nat>, ghost rg: seq<nat>, ghost rh: seq<nat>)
    returns (b: bool)
    requires Linked(g, rg) && (u.Some? ==> u.value < |g|)
    requires Linked(h, rh) && (v.Some? ==> v.value < |h|)
    ensures u.None? ==> (b <==> v.None?)
    ensures u.Some? && v.None? ==> !b
    ensures u.Some? && v.Some? ==> (b <==> ShapeOf(g, rg, u.value) == ShapeOf(h, rh, v.value))
  {
    if u.None? {
      return v.None?;
    }
    if v.None? {
      return false;
    }
    ghost var wg := TraverseNonempty(g, rg, u.value);
    ghost var wh := TraverseNonempty(h, rh, v.value);
    TraversalTraced(g, rg, u.value, wg);
    TraversalTraced(h, rh, v.value, wh);
    b := Lockstep(g, u.value, h, v.value, wg, wh, ShapeOf(g, rg, u.value), ShapeOf(h, rh, v.value));
  }

  /**
   * `w` is a run of the stepping function from pre(u) to post(u), seen only
   * at the end, whose stages are those of shape `t`.
   */
  ghost predicate Traced(g: seq<Node>, u: nat, w: seq<State>, t: Shape)
  {
    Chain(g, w) && |w| == |Stages(t)| && |w| >= 3 &&
    w[0] == State(Pre, u) && w[|w| - 1] == State(Post, u) &&
    (forall k :: 0 <= k < |w| ==> w[k].stage == Stages(t)[k]) &&
    (forall k :: 0 <= k < |w| - 1 ==> w[k] != State(Post, u))
  }

  /** The traversal from `u` is a run of the stepping function through the stages of its shape. */
  lemma TraversalTraced(g: seq<Node>, rank: seq<nat>, u: nat, w: seq<State>)
    requires Linked(g, rank) && u < |g| && w == TraverseNonempty(g, rank, u)
    ensures Traced(g, u, w, ShapeOf(g, rank, u))
  {
    TraversalBounds(g, rank, u, w);
    TraversalChain(g, rank, u, w);
    TraversalStages(g, rank, u, w);
  }

  /**
   * The loop of `bifurcate_isomorphic`: step both trees together from pre at
   * `u` and `v`; a differing stage answers false, post at `u` answers true.
   */
  method Lockstep(g: seq<Node>, u: nat, h: seq<Node>, v: nat, ghost wg: seq<State>, ghost wh: seq<State>, ghost sg: Shape, ghost sh: Shape)
    returns (b: bool)
    requires Traced(g, u, wg, sg) && Traced(h, v, wh, sh)
    ensures b <==> sg == sh
  {
    ghost var SG := Stages(sg);
    ghost var SH := Stages(sh);
    StagesStart(sg);
    StagesStart(sh);
    var s := State(Pre, u);
    var t := State(Pre, v);
    ghost var k := 0;
    while true
      invariant k + 1 < |wg| && k + 1 < |wh| && s == wg[k] && t == wh[k]
      invariant Agree(SG, SH, k + 1)
      decreases |wg| - k
    {
      assert Joins(g, wg[k], wg[k + 1]);
      assert Joins(h, wh[k], wh[k + 1]);
      s := TraverseStep(g, s).0;
      t := TraverseStep(h, t).0;
      k := k + 1;
      if s.stage != t.stage {
        return false;
      }
      AgreeExtend(SG, SH, k);
      if s.u == u && s.stage == Post {
        StagesDetermineShape(sg, sh);
        return true;
      }
      PrefixLength(sg, sh, k + 1);
    }
  }

  /** Agreement up to `k` and at `k` is agreement up to `k + 1`. */
  lemma AgreeExtend(a: seq<Visit>, b: seq<Visit>, k: nat)
    requires k < |a| && k < |b| && Agree(a, b, k) && a[k] == b[k]
    ensures Agree(a, b, k + 1)
  {
  }

  /**
   * Isomorphism of two bidirectional trees: equal vertex counts, and either
   * both are empty or the lockstep comparison from vertex 0 succeeds.
   */
  method BidirectionalIsomorphism(g: seq<Node>, h: seq<Node>, ghost rg: seq<nat>, ghost rh: seq<nat>) returns (b: bool)
    requires Linked(g, rg) && Linked(h, rh)
    ensures b <==> |g| == |h| && (|g| == 0 || ShapeOf(g, rg, 0) == ShapeOf(h, rh, 0))
  {
    if |g| != |h| {
      return false;
    }
    if |g| == 0 {
      return true;
    }
    b := BifurcateIsomorphic(g, Some(0), h, Some(0), rg, rh);
  }
}
