// The k-ary tree graph: vertices are numbered in order of creation and the
// tree keeps its edges, parent to child, in the order they were added.  A
// parent gets all its children at once (at least two, none of them itself);
// `update_tree` builds a random binary tree over given leaves by splitting
// them at a drawn point and joining the two subtrees under a fresh parent.

module KAryTrees {
  import Common
  import Forests

  /** An edge from a parent to a child. */
  type Edge = (nat, nat)

  /** The number of edges leaving `u`. */
  function OutDegree(es: seq<Edge>, u: nat): nat
  {
    if |es| == 0 then 0 else OutDegree(es[..|es| - 1], u) + (if es[|es| - 1].0 == u then 1 else 0)
  }

  /** The number of edges entering `v`. */
  function InDegree(es: seq<Edge>, v: nat): nat
  {
    if |es| == 0 then 0 else InDegree(es[..|es| - 1], v) + (if es[|es| - 1].1 == v then 1 else 0)
  }

  /** Degrees add up over a concatenation. */
  lemma {:induction false} DegreesAppend(a: seq<Edge>, b: seq<Edge>, u: nat)
    ensures OutDegree(a + b, u) == OutDegree(a, u) + OutDegree(b, u)
    ensures InDegree(a + b, u) == InDegree(a, u) + InDegree(b, u)
  {
    if |b| > 0 {
      DegreesAppend(a, b[..|b| - 1], u);
      assert (a + b)[..|a + b| - 1] == a + b[..|b| - 1];
    } else {
      assert a + b == a;
    }
  }

  /** The number of occurrences of `x` in `s`. */
  function Occurrences(s: seq<nat>, x: nat): nat
  {
    if |s| == 0 then 0 else Occurrences(s[..|s| - 1], x) + (if s[|s| - 1] == x then 1 else 0)
  }

  /** The edges from `parent` to each child, in order. */
  function Fan(parent: nat, children: seq<nat>): (r: seq<Edge>)
    ensures |r| == |children| && forall i :: 0 <= i < |children| ==> r[i] == (parent, children[i])
  {
    Forests.Pairs(parent, children)
  }

  /** A fan adds one out-edge to its parent per child and one in-edge to each child per occurrence. */
  lemma {:induction false} FanDegrees(parent: nat, children: seq<nat>, u: nat)
    ensures OutDegree(Fan(parent, children), u) == if u == parent then |children| else 0
    ensures InDegree(Fan(parent, children), u) == Occurrences(children, u)
  {
    if |children| > 0 {
      var init := children[..|children| - 1];
      FanDegrees(parent, init, u);
      assert Fan(parent, children)[..|children| - 1] == Fan(parent, init);
    }
  }

  /**
   * The split point `uniform_int_distribution(1, size - 1)` draws at the call
   * over `leaves`: `rng(leaves)` when it lies in [1, size - 1], as every draw
   * of that distribution does; any other value stands for 1, which keeps the
   * build total over every `rng`.
   */
  function SplitPoint(rng: seq<nat> -> nat, leaves: seq<nat>): (s: nat)
    requires |leaves| >= 2
    ensures 1 <= s < |leaves| && (1 <= rng(leaves) < |leaves| ==> s == rng(leaves))
  {
    var d := rng(leaves);
    if 1 <= d < |leaves| then d else 1
  }

  /** What `update_tree` adds: the root it returns, the edges in order and the number of new vertices. */
  datatype Built = Built(root: nat, edges: seq<Edge>, added: nat)

  /**
   * The tree `update_tree` builds over `leaves` when the next fresh vertex is
   * `next`: a single leaf is its own root; otherwise the parent is `next`,
   * the left part is built first, then the right part, then the parent's two
   * edges are added.
   */
  function BuildTree(leaves: seq<nat>, next: nat, rng: seq<nat> -> nat): (b: Built)
    requires |leaves| >= 1
    ensures b.added == |leaves| - 1 && |b.edges| == 2 * b.added
    ensures b.root == (if |leaves| == 1 then leaves[0] else next)
    decreases |leaves|
  {
    if |leaves| == 1 then Built(leaves[0], [], 0)
    else
      var s := SplitPoint(rng, leaves);
      var l := BuildTree(leaves[..s], next + 1, rng);
      Join(next, l, BuildTree(leaves[s..], next + 1 + l.added, rng))
  }

  /** A fresh parent over two builds: their edges, then the parent's two edges. */
  function Join(parent: nat, l: Built, r: Built): Built
  {
    Built(parent, l.edges + r.edges + [(parent, l.root), (parent, r.root)], 1 + l.added + r.added)
  }

  /**
   * The degrees of `v` in a build: two children for an added vertex and none
   * otherwise; one parent for an added vertex and one per occurrence for a
   * leaf, less one for the root.
   */
  ghost predicate DegreesAt(leaves: seq<nat>, next: nat, b: Built, v: nat)
  {
    OutDegree(b.edges, v) == (if next <= v < next + b.added then 2 else 0) &&
    InDegree(b.edges, v) + (if v == b.root then 1 else 0) ==
      (if next <= v < next + b.added then 1 else Occurrences(leaves, v))
  }

  /** Every leaf precedes `next`. */
  ghost predicate Precede(leaves: seq<nat>, next: nat)
  {
    forall i :: 0 <= i < |leaves| ==> leaves[i] < next
  }

  /** Occurrences add up over a concatenation. */
  lemma {:induction false} OccurrencesAppend(a: seq<nat>, b: seq<nat>, v: nat)
    ensures Occurrences(a + b, v) == Occurrences(a, v) + Occurrences(b, v)
  {
    if |b| > 0 {
      OccurrencesAppend(a, b[..|b| - 1], v);
      assert (a + b)[..|a + b| - 1] == a + b[..|b| - 1];
    } else {
      assert a + b == a;
    }
  }

  /** An identifier at or above `next` does not occur among leaves that precede `next`. */
  lemma {:induction false} OccurrencesAbsent(s: seq<nat>, next: nat, v: nat)
    requires Precede(s, next) && next <= v
    ensures Occurrences(s, v) == 0
  {
    if |s| > 0 {
      OccurrencesAbsent(s[..|s| - 1], next, v);
    }
  }

  /** The occurrences of `v` in a pair. */
  lemma OccurrencesPair(a: nat, b: nat, v: nat)
    ensures Occurrences([a, b], v) == (if v == a then 1 else 0) + (if v == b then 1 else 0)
  {
    assert [a][..0] == [];
    assert Occurrences([a], v) == (if v == a then 1 else 0);
    assert [a, b][..1] == [a];
  }

  /** The inductive step of `BuildDegrees`: the degrees of `v` after joining the builds of two halves under a fresh parent. */
  lemma JoinDegrees(leaves: seq<nat>, s: nat, next: nat, l: Built, r: Built, b: Built, v: nat)
    requires 1 <= s < |leaves| && Precede(leaves, next)
    requires l.added == s - 1 && r.added == |leaves| - s - 1
    requires l.root == (if s == 1 then leaves[0] else next + 1)
    requires r.root == (if s == |leaves| - 1 then leaves[s] else next + 1 + l.added)
    requires DegreesAt(leaves[..s], next + 1, l, v) && DegreesAt(leaves[s..], next + 1 + l.added, r, v)
    requires b == Join(next, l, r)
    ensures DegreesAt(leaves, next, b, v)
  {
    var left, right := leaves[..s], leaves[s..];
    var join: seq<Edge> := [(next, l.root), (next, r.root)];
    DegreesAppend(l.edges + r.edges, join, v);
    DegreesAppend(l.edges, r.edges, v);
    FanDegrees(next, [l.root, r.root], v);
    assert Fan(next, [l.root, r.root]) == join;
    OccurrencesPair(l.root, r.root, v);
    assert leaves == left + right;
    OccurrencesAppend(left, right, v);
    if next <= v {
      Halves(leaves, s, next);
      OccurrencesAbsent(left, next, v);
      OccurrencesAbsent(right, next, v);
    }
  }

  /** The edges after building both halves and adding the parent's two edges are those of the joined build. */
  lemma JoinEdges(before: seq<Edge>, parent: nat, l: Built, r: Built, es: seq<Edge>)
    requires es == [(parent, l.root), (parent, r.root)]
    ensures before + l.edges + r.edges + es == before + Join(parent, l, r).edges
  {
  }

  /** One step of `BuildTree` over at least two leaves: the split point and the builds of both halves. */
  lemma BuildUnfold(leaves: seq<nat>, next: nat, rng: seq<nat> -> nat, s: nat, b: Built) returns (l: Built, r: Built)
    requires |leaves| >= 2 && s == SplitPoint(rng, leaves) && b == BuildTree(leaves, next, rng)
    ensures 1 <= s < |leaves|
    ensures l == BuildTree(leaves[..s], next + 1, rng)
    ensures r == BuildTree(leaves[s..], next + 1 + l.added, rng)
    ensures b == Join(next, l, r)
  {
    l := BuildTree(leaves[..s], next + 1, rng);
    r := BuildTree(leaves[s..], next + 1 + l.added, rng);
  }

  /** Both halves of leaves preceding `next` precede `next`. */
  lemma Halves(leaves: seq<nat>, s: nat, next: nat)
    requires s <= |leaves| && Precede(leaves, next)
    ensures Precede(leaves[..s], next) && Precede(leaves[s..], next)
  {
    var right := leaves[s..];
    forall i | 0 <= i < |right| ensures right[i] < next {
      assert right[i] == leaves[s + i];
    }
  }

  /**
   * Built over leaves that precede `next`, the tree is binary: each of the
   * `n - 1` added vertices has two children and one parent, except the root,
   * which has none; a leaf has no children and a parent per occurrence.
   */
  lemma {:induction false} BuildDegrees(leaves: seq<nat>, next: nat, rng: seq<nat> -> nat, b: Built, v: nat)
    requires |leaves| >= 1 && Precede(leaves, next)
    requires b == BuildTree(leaves, next, rng)
    ensures DegreesAt(leaves, next, b, v)
    decreases |leaves|
  {
    if |leaves| == 1 {
      LeafDegrees(leaves, next, rng, b, v);
    } else {
      var s := SplitPoint(rng, leaves);
      var l, r := BuildUnfold(leaves, next, rng, s, b);
      Halves(leaves, s, next);
      var left, right := leaves[..s], leaves[s..];
      var nl, nr := next + 1, next + 1 + l.added;
      assert Precede(left, nl) && Precede(right, nr);
      BuildDegrees(left, nl, rng, l, v);
      BuildDegrees(right, nr, rng, r, v);
      BuildDegreesStep(leaves, next, rng, s, l, r, b, v);
    }
  }

  /** The base case of `BuildDegrees`: a single leaf is the root of a build without edges. */
  lemma LeafDegrees(leaves: seq<nat>, next: nat, rng: seq<nat> -> nat, b: Built, v: nat)
    requires |leaves| == 1 && b == BuildTree(leaves, next, rng)
    ensures DegreesAt(leaves, next, b, v)
  {
    assert leaves == [leaves[0]];
    assert Occurrences(leaves, v) == (if v == leaves[0] then 1 else 0) by {
      assert leaves[..0] == [];
    }
  }

  /** The inductive step of `BuildDegrees`, from the degrees of `v` in the builds of both halves. */
  lemma BuildDegreesStep(leaves: seq<nat>, next: nat, rng: seq<nat> -> nat, s: nat, l: Built, r: Built, b: Built, v: nat)
    requires 1 <= s < |leaves| && Precede(leaves, next)
    requires l == BuildTree(leaves[..s], next + 1, rng) && r == BuildTree(leaves[s..], next + 1 + l.added, rng)
    requires b == Join(next, l, r)
    requires DegreesAt(leaves[..s], next + 1, l, v) && DegreesAt(leaves[s..], next + 1 + l.added, r, v)
    ensures DegreesAt(leaves, next, b, v)
  {
    var left, right := leaves[..s], leaves[s..];
    var nl, nr := next + 1, next + 1 + l.added;
    JoinDegrees(leaves, s, next, l, r, b, v);
  }

  /** Each identifier below `n` occurs once in 0, …, n - 1. */
  lemma {:induction false} OccurrencesIota(n: nat, v: nat)
    requires v < n
    ensures Occurrences(Common.Iota(n), v) == 1
  {
    assert Common.Iota(n)[..n - 1] == Common.Iota(n - 1);
    if v < n - 1 {
      OccurrencesIota(n - 1, v);
    } else {
      OccurrencesAbsent(Common.Iota(n - 1), n - 1, v);
    }
  }

  /** `k_ary_tree`: the number of vertices created and the edges added, in order. */
  class KAryTree {
    var nVertices: nat
    var edges: seq<Edge>

    /** The default constructor: no vertices. */
    constructor ()
      ensures nVertices == 0 && edges == []
    {
      nVertices := 0;
      edges := [];
    }

    /** `add_vertex()`: the next identifier. */
    method AddVertex() returns (v: nat)
      modifies this
      ensures v == old(nVertices) && nVertices == old(nVertices) + 1 && edges == old(edges)
    {
      v := nVertices;
      nVertices := nVertices + 1;
    }

    /**
     * `add_edges(parent, children)`: at least two children, none equal to the
     * parent; one edge per child, in order, returned and added to the graph.
     */
    method AddEdges(parent: nat, children: seq<nat>) returns (es: seq<Edge>)
      requires |children| > 1 && forall i :: 0 <= i < |children| ==> children[i] != parent
      requires parent < nVertices && forall i :: 0 <= i < |children| ==> children[i] < nVertices
      modifies this
      ensures |es| == |children| && forall i :: 0 <= i < |children| ==> es[i] == (parent, children[i])
      ensures edges == old(edges) + es && nVertices == old(nVertices)
      ensures forall u: nat :: OutDegree(edges, u) == OutDegree(old(edges), u) + (if u == parent then |children| else 0)
      ensures forall u: nat :: InDegree(edges, u) == InDegree(old(edges), u) + Occurrences(children, u)
    {
      es := [];
      var i := 0;
      while i < |children|
        invariant 0 <= i <= |children| && es == Fan(parent, children[..i])
        invariant edges == old(edges) + es && nVertices == old(nVertices)
      {
        assert Fan(parent, children[..i + 1]) == Fan(parent, children[..i]) + [(parent, children[i])];
        es := es + [(parent, children[i])];
        edges := edges + [(parent, children[i])];
        i := i + 1;
      }
      assert children[..i] == children;
      forall u: nat ensures OutDegree(edges, u) == OutDegree(old(edges), u) + (if u == parent then |children| else 0)
        && InDegree(edges, u) == InDegree(old(edges), u) + Occurrences(children, u)
      {
        DegreesAppend(old(edges), es, u);
        FanDegrees(parent, children, u);
      }
    }

    /** `has_successors(u)`: never called on a vertex with one child; true exactly when `u` has children. */
    function HasSuccessors(u: nat): (b: bool)
      reads this
      requires OutDegree(edges, u) != 1
      ensures b <==> OutDegree(edges, u) > 0
    {
      OutDegree(edges, u) >= 2
    }

    /**
     * `update_tree(tree, leaves, rng)`: one leaf is returned as it is;
     * otherwise the leaves are split at the drawn point, the halves are
     * built under a fresh parent and the parent's two edges are added. The
     * ghost `b` names the build `BuildTree` describes.
     */
    method UpdateTree(leaves: seq<nat>, rng: seq<nat> -> nat, ghost next: nat, ghost b: Built) returns (root: nat)
      requires |leaves| >= 1 && next == nVertices && b == BuildTree(leaves, next, rng)
      requires Precede(leaves, nVertices)
      modifies this
      ensures root == b.root && nVertices == old(nVertices) + b.added && edges == old(edges) + b.edges
      decreases |leaves|, 1
    {
      if |leaves| == 1 {
        root := leaves[0];
      } else {
        var s := SplitPoint(rng, leaves);
        ghost var lb, rb := BuildUnfold(leaves, next, rng, s, b);
        Halves(leaves, s, next);
        var left, right := leaves[..s], leaves[s..];
        ghost var before := edges;
        var parent, l, r := BuildHalves(left, right, rng, next, lb, rb);
        var es := AddEdges(parent, [l, r]);
        JoinEdges(before, parent, lb, rb, es);
        root := parent;
      }
    }

    /**
     * The middle of `update_tree`: a fresh parent, then the builds of the
     * left and the right part, in that order, each returning its root.
     */
    method BuildHalves(left: seq<nat>, right: seq<nat>, rng: seq<nat> -> nat, ghost next: nat, ghost lb: Built, ghost rb: Built)
      returns (parent: nat, l: nat, r: nat)
      requires |left| >= 1 && |right| >= 1 && next == nVertices && Precede(left, next) && Precede(right, next)
      requires lb == BuildTree(left, next + 1, rng) && rb == BuildTree(right, next + 1 + lb.added, rng)
      modifies this
      ensures parent == old(nVertices) && l == lb.root && r == rb.root
      ensures nVertices == old(nVertices) + 1 + lb.added + rb.added && edges == old(edges) + lb.edges + rb.edges
      ensures l != parent && r != parent && l < nVertices && r < nVertices
      decreases |left| + |right|, 0
    {
      parent := AddVertex();
      var nl, nr := next + 1, next + 1 + lb.added;
      l := UpdateTree(left, rng, nl, lb);
      r := UpdateTree(right, rng, nr, rb);
    }
  }

  /**
   * `make_random_tree(n_leaves, k_max, rng)`: `n` fresh leaves 0, …, n - 1,
   * then the tree `update_tree` builds over them; the result has `2n - 1`
   * vertices and `2(n - 1)` edges, and its root is the only leaf when
   * `n == 1` and otherwise the first parent, vertex `n`.
   */
  method MakeRandomTree(nLeaves: nat, rng: seq<nat> -> nat) returns (tree: KAryTree, root: nat)
    requires nLeaves >= 1
    ensures fresh(tree) && tree.nVertices == 2 * nLeaves - 1 && |tree.edges| == 2 * (nLeaves - 1)
    ensures root == (if nLeaves == 1 then 0 else nLeaves)
    ensures tree.edges == BuildTree(Common.Iota(nLeaves), nLeaves, rng).edges
  {
    tree := new KAryTree();
    var leaves: seq<nat> := [];
    var i := 0;
    while i < nLeaves
      invariant 0 <= i <= nLeaves && leaves == Common.Iota(i)
      invariant tree.nVertices == i && tree.edges == []
    {
      var v := tree.AddVertex();
      leaves := leaves + [v];
      i := i + 1;
    }
    root := tree.UpdateTree(leaves, rng, nLeaves, BuildTree(leaves, nLeaves, rng));
  }

  /** The tree `make_random_tree` builds is binary: leaves have no children, parents two, and every vertex but the root one parent. */
  lemma RandomTreeIsBinary(nLeaves: nat, rng: seq<nat> -> nat, v: nat)
    requires nLeaves >= 1 && v < 2 * nLeaves - 1
    ensures var b := BuildTree(Common.Iota(nLeaves), nLeaves, rng);
      OutDegree(b.edges, v) == (if v < nLeaves then 0 else 2) &&
      InDegree(b.edges, v) == (if v == b.root then 0 else 1)
  {
    BuildDegrees(Common.Iota(nLeaves), nLeaves, rng, BuildTree(Common.Iota(nLeaves), nLeaves, rng), v);
    if v < nLeaves {
      OccurrencesIota(nLeaves, v);
    }
  }
}
