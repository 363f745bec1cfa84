/**
 * The coalescence tree container (include/quetzal/coalescence/containers/Tree.h):
 * a cell with an ordered list of child subtrees and a parent link, and its
 * depth-first visitors. The tree is modelled as a value; the parent pointer is
 * modelled by the `hasParent` flag that `has_parent` reads.
 */
module Trees {

  datatype Tree<C> = Tree(hasParent: bool, cell: C, children: seq<Tree<C>>)

  /** One call of a visitor hook during the generic depth-first search. */
  datatype Visit<C> = Pre(node: Tree<C>) | In(node: Tree<C>) | Post(node: Tree<C>)

  predicate HasChildren<C>(t: Tree<C>)
  {
    t.children != []
  }

  /** Every child records a parent, as the constructors and the assignments arrange. */
  predicate WellParented<C>(t: Tree<C>)
  {
    forall i :: 0 <= i < |t.children| ==> t.children[i].hasParent && WellParented(t.children[i])
  }

  /** Number of nodes. */
  function Size<C>(t: Tree<C>): nat
  {
    1 + ChildrenSize(t, 0)
  }

  function ChildrenSize<C>(t: Tree<C>, i: nat): nat
    requires i <= |t.children|
    decreases t, |t.children| - i
  {
    if i == |t.children| then 0 else Size(t.children[i]) + ChildrenSize(t, i + 1)
  }

  /** `Tree(cell)`: a root without children. */
  function MakeTree<C>(cell: C): (t: Tree<C>)
    ensures !t.hasParent && !HasChildren(t) && t.cell == cell
    ensures WellParented(t) && Size(t) == 1
  {
    Tree(false, cell, [])
  }

  /** `Tree(cell, children)`: a root whose children are re-parented to it. */
  function MakeTreeWith<C>(cell: C, children: seq<Tree<C>>): (t: Tree<C>)
    requires forall i :: 0 <= i < |children| ==> WellParented(children[i])
    ensures !t.hasParent && t.cell == cell && |t.children| == |children|
    ensures forall i :: 0 <= i < |children| ==>
              t.children[i].hasParent && t.children[i].cell == children[i].cell
              && t.children[i].children == children[i].children
    ensures WellParented(t)
  {
    ReparentedStayWellParented(children);
    Tree(false, cell, seq(|children|, i requires 0 <= i < |children| => children[i].(hasParent := true)))
  }

  lemma ReparentedStayWellParented<C>(children: seq<Tree<C>>)
    requires forall i :: 0 <= i < |children| ==> WellParented(children[i])
    ensures forall i :: 0 <= i < |children| ==> WellParented(children[i].(hasParent := true))
  {
    forall i | 0 <= i < |children|
      ensures WellParented(children[i].(hasParent := true))
    {
      assert children[i].(hasParent := true).children == children[i].children;
    }
  }

  /** The copy constructor: a parentless root with the same cell and children. */
  function CopyOf<C>(other: Tree<C>): (t: Tree<C>)
    requires WellParented(other)
    ensures !t.hasParent && WellParented(t)
    ensures t.cell == other.cell && t.children == other.children
    ensures Size(t) == Size(other)
  {
    ChildrenSizeSame(other, other.(hasParent := false), 0);
    other.(hasParent := false)
  }

  lemma {:induction false} ChildrenSizeSame<C>(a: Tree<C>, b: Tree<C>, i: nat)
    requires a.children == b.children && i <= |a.children|
    ensures ChildrenSize(a, i) == ChildrenSize(b, i)
    decreases |a.children| - i
  {
    if i < |a.children| {
      ChildrenSizeSame(a, b, i + 1);
    }
  }

  /**
   * `add_child`, as written: the child is given its parent on a local, but
   * `push_back(std::move(...))` stores it through the move constructor, which
   * resets `m_parent`. When the vector reallocates, the same constructor moves
   * every earlier child and resets its flag too.
   */
  function AddChildAsWritten<C>(t: Tree<C>, subtree: Tree<C>, reallocates: bool): (r: Tree<C>)
    ensures r.hasParent == t.hasParent && r.cell == t.cell && |r.children| == |t.children| + 1
    ensures forall i :: 0 <= i < |t.children| ==>
              r.children[i].cell == t.children[i].cell && r.children[i].children == t.children[i].children
              && r.children[i].hasParent == (t.children[i].hasParent && !reallocates)
    ensures r.children[|t.children|] == subtree.(hasParent := false)
    ensures !WellParented(r)
  {
    var kept := if reallocates then seq(|t.children|, i requires 0 <= i < |t.children| => t.children[i].(hasParent := false))
                else t.children;
    var r := t.(children := kept + [subtree.(hasParent := false)]);
    assert !r.children[|t.children|].hasParent;
    r
  }

  /** `add_child(cell)`, as written: the child it returns is the moved one, without a parent. */
  function AddChildCellAsWritten<C>(t: Tree<C>, cell: C, reallocates: bool): (r: (Tree<C>, Tree<C>))
    ensures !r.1.hasParent && r.1.cell == cell && !HasChildren(r.1)
    ensures r.0 == AddChildAsWritten(t, MakeTree(cell), reallocates) && r.0.children[|t.children|] == r.1
  {
    var parent := AddChildAsWritten(t, MakeTree(cell), reallocates);
    (parent, parent.children[|t.children|])
  }

  /**
   * As written, `Tree<int> t(1); t.add_child(2).has_parent()` is false, and no
   * tree grown by `add_child` records its children's parent, where the
   * corrected update does.
   */
  lemma AddChildLosesParent<C>(t: Tree<C>, subtree: Tree<C>, reallocates: bool)
    requires WellParented(t) && WellParented(subtree)
    ensures !AddChildCellAsWritten(MakeTree(1), 2, reallocates).1.hasParent
    ensures AddChildCellAsWritten(MakeTree(1), 2, reallocates).1 != AddChildCell(MakeTree(1), 2).1
    ensures AddChildAsWritten(t, subtree, reallocates) != AddChild(t, subtree)
  {
    assert AddChild(t, subtree).children[|t.children|].hasParent;
    assert !AddChildAsWritten(t, subtree, reallocates).children[|t.children|].hasParent;
  }

  /** `add_child(subtree)`, corrected: appends the subtree with its parent recorded and returns the parent itself. */
  function AddChild<C>(t: Tree<C>, subtree: Tree<C>): (r: Tree<C>)
    requires WellParented(t) && WellParented(subtree)
    ensures r.hasParent == t.hasParent && r.cell == t.cell
    ensures |r.children| == |t.children| + 1 && r.children[..|t.children|] == t.children
    ensures r.children[|t.children|] == subtree.(hasParent := true)
    ensures HasChildren(r) && WellParented(r)
  {
    var r := t.(children := t.children + [subtree.(hasParent := true)]);
    assert r.children[..|t.children|] == t.children;
    r
  }

  /** `add_child(cell)`, corrected: appends a new leaf child and returns it, its parent recorded. */
  function AddChildCell<C>(t: Tree<C>, cell: C): (r: (Tree<C>, Tree<C>))
    requires WellParented(t)
    ensures r.1.hasParent && r.1.cell == cell && !HasChildren(r.1)
    ensures r.0.hasParent == t.hasParent && r.0.cell == t.cell
    ensures r.0.children == t.children + [r.1]
    ensures WellParented(r.0)
  {
    var child := Tree(true, cell, []);
    (t.(children := t.children + [child]), child)
  }

  /** Move assignment: takes the other's cell and children, keeps its own parent link. */
  function MoveAssign<C>(self: Tree<C>, other: Tree<C>): (r: Tree<C>)
    requires WellParented(other)
    ensures r.hasParent == self.hasParent && r.cell == other.cell && r.children == other.children
    ensures WellParented(r)
  {
    self.(cell := other.cell, children := other.children)
  }

  /** Copy assignment: a copy of the other is moved into `*this`. */
  function CopyAssign<C>(self: Tree<C>, other: Tree<C>): (r: Tree<C>)
    requires WellParented(other)
    ensures r.hasParent == self.hasParent && r.cell == other.cell && r.children == other.children
    ensures WellParented(r)
  {
    var otherCopy := CopyOf(other);
    self.(cell := otherCopy.cell, children := otherCopy.children)
  }

  lemma CopyAssignAgreesWithMove<C>(self: Tree<C>, other: Tree<C>)
    requires WellParented(other)
    ensures CopyAssign(self, other) == MoveAssign(self, other)
  {
  }

  // ---------------------------------------------------------------- visitors

  /** The cells in the order `visit_cells_by_pre_order_DFS` hands them out. */
  function PreOrderCells<C>(t: Tree<C>): seq<C>
  {
    [t.cell] + ChildrenPreOrderCells(t, 0)
  }

  function ChildrenPreOrderCells<C>(t: Tree<C>, i: nat): seq<C>
    requires i <= |t.children|
    decreases t, |t.children| - i
  {
    if i == |t.children| then [] else PreOrderCells(t.children[i]) + ChildrenPreOrderCells(t, i + 1)
  }

  /** The subtrees in the order `visit_subtrees_by_pre_order_DFS` hands them out. */
  function PreOrderSubtrees<C>(t: Tree<C>): seq<Tree<C>>
  {
    [t] + ChildrenPreOrderSubtrees(t, 0)
  }

  function ChildrenPreOrderSubtrees<C>(t: Tree<C>, i: nat): seq<Tree<C>>
    requires i <= |t.children|
    decreases t, |t.children| - i
  {
    if i == |t.children| then [] else PreOrderSubtrees(t.children[i]) + ChildrenPreOrderSubtrees(t, i + 1)
  }

  /** The cells in the order `visit_leaves_cells_by_DFS` hands them out. */
  function LeafCells<C>(t: Tree<C>): seq<C>
  {
    if !HasChildren(t) then [t.cell] else ChildrenLeafCells(t, 0)
  }

  function ChildrenLeafCells<C>(t: Tree<C>, i: nat): seq<C>
    requires i <= |t.children|
    decreases t, |t.children| - i
  {
    if i == |t.children| then [] else LeafCells(t.children[i]) + ChildrenLeafCells(t, i + 1)
  }

  /** The hook calls of `visit_subtrees_by_generic_DFS`: pre, then for each child its
      own visit followed by in-order on the parent, then post. */
  function GenericDfs<C>(t: Tree<C>): seq<Visit<C>>
  {
    [Pre(t)] + ChildrenGenericDfs(t, 0) + [Post(t)]
  }

  function ChildrenGenericDfs<C>(t: Tree<C>, i: nat): seq<Visit<C>>
    requires i <= |t.children|
    decreases t, |t.children| - i
  {
    if i == |t.children| then [] else GenericDfs(t.children[i]) + [In(t)] + ChildrenGenericDfs(t, i + 1)
  }

  // ------------------------------------------------- reference definitions

  function Cells<C>(ts: seq<Tree<C>>): seq<C>
  {
    if ts == [] then [] else [ts[0].cell] + Cells(ts[1..])
  }

  /** Cells of the childless trees of `ts`, in order. */
  function ChildlessCells<C>(ts: seq<Tree<C>>): seq<C>
  {
    if ts == [] then [] else (if HasChildren(ts[0]) then [] else [ts[0].cell]) + ChildlessCells(ts[1..])
  }

  /** Nodes handed to the pre-order hook, in order. */
  function PreNodes<C>(vs: seq<Visit<C>>): seq<Tree<C>>
  {
    if vs == [] then [] else (if vs[0].Pre? then [vs[0].node] else []) + PreNodes(vs[1..])
  }

  lemma {:induction false} CellsConcat<C>(a: seq<Tree<C>>, b: seq<Tree<C>>)
    ensures Cells(a + b) == Cells(a) + Cells(b)
  {
    if a == [] {
      assert a + b == b;
    } else {
      assert (a + b)[1..] == a[1..] + b;
      CellsConcat(a[1..], b);
    }
  }

  lemma {:induction false} ChildlessCellsConcat<C>(a: seq<Tree<C>>, b: seq<Tree<C>>)
    ensures ChildlessCells(a + b) == ChildlessCells(a) + ChildlessCells(b)
  {
    if a == [] {
      assert a + b == b;
    } else {
      assert (a + b)[1..] == a[1..] + b;
      ChildlessCellsConcat(a[1..], b);
    }
  }

  lemma {:induction false} PreNodesConcat<C>(a: seq<Visit<C>>, b: seq<Visit<C>>)
    ensures PreNodes(a + b) == PreNodes(a) + PreNodes(b)
  {
    if a == [] {
      assert a + b == b;
    } else {
      assert (a + b)[1..] == a[1..] + b;
      PreNodesConcat(a[1..], b);
    }
  }

  /** The cell visitor and the subtree visitor go through the nodes in the same order. */
  lemma {:induction false} PreOrderCellsAreSubtreeCells<C>(t: Tree<C>)
    ensures PreOrderCells(t) == Cells(PreOrderSubtrees(t))
    ensures |PreOrderCells(t)| == Size(t)
    decreases t, 1
  {
    ChildrenPreOrderCellsAreSubtreeCells(t, 0);
    CellsConcat([t], ChildrenPreOrderSubtrees(t, 0));
  }

  lemma {:induction false} ChildrenPreOrderCellsAreSubtreeCells<C>(t: Tree<C>, i: nat)
    requires i <= |t.children|
    ensures ChildrenPreOrderCells(t, i) == Cells(ChildrenPreOrderSubtrees(t, i))
    ensures |ChildrenPreOrderCells(t, i)| == ChildrenSize(t, i)
    decreases t, 0, |t.children| - i
  {
    if i < |t.children| {
      PreOrderCellsAreSubtreeCells(t.children[i]);
      ChildrenPreOrderCellsAreSubtreeCells(t, i + 1);
      CellsConcat(PreOrderSubtrees(t.children[i]), ChildrenPreOrderSubtrees(t, i + 1));
    }
  }

  /** The leaf visitor hands out exactly the childless nodes of the pre-order, left to right. */
  lemma {:induction false} LeavesAreChildlessPreOrder<C>(t: Tree<C>)
    ensures LeafCells(t) == ChildlessCells(PreOrderSubtrees(t))
    decreases t, 1
  {
    ChildlessCellsConcat([t], ChildrenPreOrderSubtrees(t, 0));
    ChildrenLeavesAreChildlessPreOrder(t, 0);
    if !HasChildren(t) {
      assert ChildrenPreOrderSubtrees(t, 0) == [];
    }
  }

  lemma {:induction false} ChildrenLeavesAreChildlessPreOrder<C>(t: Tree<C>, i: nat)
    requires i <= |t.children|
    ensures ChildrenLeafCells(t, i) == ChildlessCells(ChildrenPreOrderSubtrees(t, i))
    decreases t, 0, |t.children| - i
  {
    if i < |t.children| {
      LeavesAreChildlessPreOrder(t.children[i]);
      ChildrenLeavesAreChildlessPreOrder(t, i + 1);
      ChildlessCellsConcat(PreOrderSubtrees(t.children[i]), ChildrenPreOrderSubtrees(t, i + 1));
    }
  }

  /** The pre-order hook of the generic search sees the nodes in pre-order. */
  lemma {:induction false} GenericDfsPreOrder<C>(t: Tree<C>)
    ensures PreNodes(GenericDfs(t)) == PreOrderSubtrees(t)
    decreases t, 1
  {
    ChildrenGenericDfsPreOrder(t, 0);
    PreNodesConcat([Pre(t)] + ChildrenGenericDfs(t, 0), [Post(t)]);
    PreNodesConcat([Pre(t)], ChildrenGenericDfs(t, 0));
  }

  lemma {:induction false} ChildrenGenericDfsPreOrder<C>(t: Tree<C>, i: nat)
    requires i <= |t.children|
    ensures PreNodes(ChildrenGenericDfs(t, i)) == ChildrenPreOrderSubtrees(t, i)
    decreases t, 0, |t.children| - i
  {
    if i < |t.children| {
      GenericDfsPreOrder(t.children[i]);
      ChildrenGenericDfsPreOrder(t, i + 1);
      PreNodesConcat(GenericDfs(t.children[i]) + [In(t)], ChildrenGenericDfs(t, i + 1));
      PreNodesConcat(GenericDfs(t.children[i]), [In(t)]);
    }
  }

  // ------------------------------------------------------- the unit-test tree

  /** a(b(c), d, e(f, g)), built as the unit test builds it with `add_child`. */
  function ExampleTree(): Tree<char>
  {
    var b := AddChildCell(MakeTree('b'), 'c').0;
    var e := AddChildCell(AddChildCell(MakeTree('e'), 'f').0, 'g').0;
    AddChild(AddChild(AddChild(MakeTree('a'), b), MakeTree('d')), e)
  }

  lemma ExampleTreeVisits()
    ensures PreOrderCells(ExampleTree()) == "abcdefg"
    ensures LeafCells(ExampleTree()) == "cdfg"
  {
    var c := Tree(true, 'c', []);
    var d := Tree(true, 'd', []);
    var f := Tree(true, 'f', []);
    var g := Tree(true, 'g', []);
    var b := Tree(true, 'b', [c]);
    var e := Tree(true, 'e', [f, g]);
    var a := Tree(false, 'a', [b, d, e]);
    assert AddChildCell(MakeTree('b'), 'c').0 == b.(hasParent := false);
    assert AddChildCell(MakeTree('e'), 'f').0 == Tree(false, 'e', [f]);
    assert AddChildCell(Tree(false, 'e', [f]), 'g').0 == e.(hasParent := false);
    assert AddChild(MakeTree('a'), b.(hasParent := false)) == Tree(false, 'a', [b]);
    assert AddChild(Tree(false, 'a', [b]), MakeTree('d')) == Tree(false, 'a', [b, d]);
    assert AddChild(Tree(false, 'a', [b, d]), e.(hasParent := false)) == a;
    assert ExampleTree() == a;
    assert PreOrderCells(b) == "bc";
    assert PreOrderCells(e) == "efg";
    assert ChildrenPreOrderCells(a, 2) == "efg";
    assert ChildrenPreOrderCells(a, 1) == "defg";
    assert LeafCells(b) == "c";
    assert LeafCells(e) == "fg";
    assert ChildrenLeafCells(a, 2) == "fg";
    assert ChildrenLeafCells(a, 1) == "dfg";
  }
}
