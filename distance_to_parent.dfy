/**
 * The coalescence policies `distance_to_parent` and `distance_to_parent_leaf_name`
 * (include/quetzal/coalescence/policies/distance_to_parent.h): tree cells that
 * carry a time and the number of generations to the parent node, the forest of
 * sampled gene copies a simulation starts from, and the Newick formula written
 * once the branch lengths are known.  The cell of `distance_to_parent` has no
 * name; it is modelled by the common cell with the empty name.
 */
module DistanceToParent {
  import opened Common
  import opened Trees
  import opened Forests
  import opened NewickGenerator

  /** `cell_type`: a name (empty for inner nodes), the time the node appears, the distance to its parent. */
  datatype Cell = Cell(name: string, time: int, distance: nat)

  // -------------------------------------------------------------- treatment

  /** `treatment` applied to one node whose parent appears at `parentTime`. */
  function Treatment(node: Tree<Cell>, parentTime: int): Tree<Cell>
  {
    node.(cell := node.cell.(distance := if node.hasParent then Abs(node.cell.time - parentTime) else 0))
  }

  /** `treatment` applied to every subtree by the pre-order visit; `parentTime` is
      the time of the parent of `t`, and is not read when `t` is a root. */
  function ComputeDistances(t: Tree<Cell>, parentTime: int): Tree<Cell>
    decreases t
  {
    var n := Treatment(t, parentTime);
    n.(children := seq(|t.children|, i requires 0 <= i < |t.children| => ComputeDistances(t.children[i], t.cell.time)))
  }

  /** Every node below the root stores its time gap to its parent, and the root stores 0. */
  predicate DistancesAgree(t: Tree<Cell>, parentTime: int)
  {
    t.cell.distance == (if t.hasParent then Abs(t.cell.time - parentTime) else 0)
    && forall i :: 0 <= i < |t.children| ==> DistancesAgree(t.children[i], t.cell.time)
  }

  /** Two trees of the same shape, parent links, names and times. */
  predicate SameButDistances(a: Tree<Cell>, b: Tree<Cell>)
  {
    a.hasParent == b.hasParent && a.cell.name == b.cell.name && a.cell.time == b.cell.time
    && |a.children| == |b.children|
    && forall i :: 0 <= i < |a.children| ==> SameButDistances(a.children[i], b.children[i])
  }

  /** The traversal fixes every distance from the times and changes nothing else. */
  lemma {:induction false} ComputeDistancesMeaning(t: Tree<Cell>, parentTime: int)
    ensures DistancesAgree(ComputeDistances(t, parentTime), parentTime)
    ensures SameButDistances(ComputeDistances(t, parentTime), t)
  {
    var r := ComputeDistances(t, parentTime);
    forall i | 0 <= i < |t.children|
      ensures DistancesAgree(r.children[i], r.cell.time) && SameButDistances(r.children[i], t.children[i])
    {
      ComputeDistancesMeaning(t.children[i], t.cell.time);
    }
  }

  /** The distances are determined by the shape and times: two such trees that agree with them are equal. */
  lemma {:induction false} DistancesDetermined(a: Tree<Cell>, b: Tree<Cell>, parentTime: int)
    requires SameButDistances(a, b)
    requires DistancesAgree(a, parentTime) && DistancesAgree(b, parentTime)
    ensures a == b
  {
    forall i | 0 <= i < |a.children|
      ensures a.children[i] == b.children[i]
    {
      DistancesDetermined(a.children[i], b.children[i], a.cell.time);
    }
    assert a.children == b.children;
  }

  /** A tree whose distances already agree with its times is left as it is, so the
      traversal is idempotent. */
  lemma ComputeDistancesIdempotent(t: Tree<Cell>, parentTime: int)
    ensures DistancesAgree(t, parentTime) ==> ComputeDistances(t, parentTime) == t
    ensures ComputeDistances(ComputeDistances(t, parentTime), parentTime) == ComputeDistances(t, parentTime)
  {
    var r := ComputeDistances(t, parentTime);
    ComputeDistancesMeaning(t, parentTime);
    ComputeDistancesMeaning(r, parentTime);
    SameButDistancesTransitive(ComputeDistances(r, parentTime), r, t);
    DistancesDetermined(ComputeDistances(r, parentTime), r, parentTime);
    if DistancesAgree(t, parentTime) {
      DistancesDetermined(r, t, parentTime);
    }
  }

  lemma {:induction false} SameButDistancesTransitive(a: Tree<Cell>, b: Tree<Cell>, c: Tree<Cell>)
    requires SameButDistances(a, b) && SameButDistances(b, c)
    ensures SameButDistances(a, c)
  {
    forall i | 0 <= i < |a.children|
      ensures SameButDistances(a.children[i], c.children[i])
    {
      SameButDistancesTransitive(a.children[i], b.children[i], c.children[i]);
    }
  }

  // ------------------------------------------------------------ make_forest

  /** The sampled gene copy at `x`: a root cell named by `getName`, appearing at `t`. */
  function Tip<P>(getName: (P, int) -> string, x: P, t: int): Tree<Cell>
  {
    MakeTree(Cell(getName(x, t), t, 0))
  }

  /** The positions of the entries, in order. */
  function Positions<P, T>(d: seq<(P, T)>): (r: seq<P>)
    ensures |r| == |d| && forall i :: 0 <= i < |d| ==> r[i] == d[i].0
  {
    seq(|d|, i requires 0 <= i < |d| => d[i].0)
  }

  /** The count of a position in a forest is its number of occurrences among the entries. */
  lemma {:induction false} CountAtIsCount<P, T>(d: seq<(P, T)>, x: P)
    ensures CountAt(d, x) == Count(Positions(d), x)
  {
    if d != [] {
      var f := d[..|d| - 1];
      CountAtIsCount(f, x);
      assert Positions(d) == Positions(f) + [d[|d| - 1].0];
      CountConcat(Positions(f), [d[|d| - 1].0], x);
      assert [d[|d| - 1].0][1..] == [];
    }
  }

  /** The counts whose positions have already been inserted. */
  function Done<P(==)>(counts: map<P, nat>, rest: set<P>): map<P, nat>
  {
    map x | x in counts && x !in rest :: counts[x]
  }

  /** What the forest holds once the positions outside `rest` have been inserted. */
  ghost predicate Inserted<P(!new)>(d: seq<(P, Tree<Cell>)>, counts: map<P, nat>, rest: set<P>, t: int, getName: (P, int) -> string)
  {
    (forall x :: CountAt(d, x) == (if x in counts && x !in rest then counts[x] else 0))
    && (forall i :: 0 <= i < |d| ==> d[i].1 == Tip(getName, d[i].0, t))
    && |d| == MapTotal(Done(counts, rest))
  }

  /** Inserting the `counts[x]` tips of one more position. */
  lemma InsertTips<P(!new)>(d: seq<(P, Tree<Cell>)>, counts: map<P, nat>, rest: set<P>, t: int, getName: (P, int) -> string, x: P)
    requires x in rest && rest <= counts.Keys
    requires Inserted(d, counts, rest, t, getName)
    ensures Inserted(d + Pairs(x, seq(counts[x], _ => Tip(getName, x, t))), counts, rest - {x}, t, getName)
  {
    var trees := seq(counts[x], _ => Tip(getName, x, t));
    var e := d + Pairs(x, trees);
    AppendPairsMeaning(d, x, trees);
    var done := Done(counts, rest);
    assert Done(counts, rest - {x}) == done[x := counts[x]];
    MapTotalUpdate(done, x, counts[x]);
    forall i | 0 <= i < |e|
      ensures e[i].1 == Tip(getName, e[i].0, t)
    {
      if i >= |d| {
        assert e[i] == (x, trees[i - |d|]);
      }
    }
  }

  /** `distance_to_parent_leaf_name::make_forest(sample_counts, sampling_time, get_name)`:
      `counts[x]` named tips at each position `x`, and nothing else. */
  method MakeNamedForest<P(==,!new)>(counts: map<P, nat>, t: int, getName: (P, int) -> string)
    returns (forest: Forest<P, Tree<Cell>>)
    ensures fresh(forest)
    ensures forall x :: CountAt(forest.data, x) == (if x in counts then counts[x] else 0)
    ensures forall i :: 0 <= i < |forest.data| ==> forest.data[i].1 == Tip(getName, forest.data[i].0, t)
    ensures |forest.data| == MapTotal(counts)
  {
    forest := new Forest();
    var rest := counts.Keys;
    assert Done(counts, rest) == map[];
    while rest != {}
      invariant fresh(forest)
      invariant rest <= counts.Keys
      invariant Inserted(forest.data, counts, rest, t, getName)
      modifies forest
      decreases |rest|
    {
      var x :| x in rest;
      InsertTips(forest.data, counts, rest, t, getName, x);
      forest.InsertAll(x, seq(counts[x], _ => Tip(getName, x, t)));
      rest := rest - {x};
    }
    assert Done(counts, rest) == counts;
  }

  /** `distance_to_parent::make_forest(sample_counts, sampling_time)`: `counts[x]`
      unnamed tips at each position `x`. */
  method MakeForest<P(==,!new)>(counts: map<P, nat>, t: int) returns (forest: Forest<P, Tree<Cell>>)
    ensures fresh(forest)
    ensures forall x :: CountAt(forest.data, x) == (if x in counts then counts[x] else 0)
    ensures forall i :: 0 <= i < |forest.data| ==> forest.data[i].1 == MakeTree(Cell("", t, 0))
    ensures |forest.data| == MapTotal(counts)
  {
    forest := MakeNamedForest(counts, t, (_, _) => "");
  }

  /** The entries the individuals overload inserts: each individual's tip at its location. */
  function SampleEntries<I, P>(sample: seq<I>, t: int, getLocation: (I, int) -> P, getName: (I, int) -> string)
    : (r: seq<(P, Tree<Cell>)>)
    ensures |r| == |sample|
    ensures forall i :: 0 <= i < |sample| ==>
              r[i] == (getLocation(sample[i], t), MakeTree(Cell(getName(sample[i], t), t, 0)))
  {
    seq(|sample|, i requires 0 <= i < |sample| =>
      (getLocation(sample[i], t), MakeTree(Cell(getName(sample[i], t), t, 0))))
  }

  /** `make_forest(sample, sampling_time, get_location, get_name)`: one tip per individual, in sample order. */
  method MakeForestOfSample<I, P(==)>(sample: seq<I>, t: int, getLocation: (I, int) -> P, getName: (I, int) -> string)
    returns (forest: Forest<P, Tree<Cell>>)
    ensures fresh(forest)
    ensures forest.data == SampleEntries(sample, t, getLocation, getName)
  {
    forest := new Forest();
    var i := 0;
    while i < |sample|
      invariant 0 <= i <= |sample|
      invariant fresh(forest)
      invariant forest.data == SampleEntries(sample[..i], t, getLocation, getName)
      modifies forest
    {
      var it := sample[i];
      forest.Insert(getLocation(it, t), MakeTree(Cell(getName(it, t), t, 0)));
      assert sample[..i + 1][..i] == sample[..i];
      i := i + 1;
    }
    assert sample[..i] == sample;
  }

  /** The individuals overload has one tree per individual, and at each position as
      many trees as individuals located there. */
  lemma SampleForestCounts<I, P>(sample: seq<I>, t: int, getLocation: (I, int) -> P, getName: (I, int) -> string, x: P)
    ensures var d := SampleEntries(sample, t, getLocation, getName);
            |d| == |sample| &&
            CountAt(d, x) == Count(seq(|sample|, i requires 0 <= i < |sample| => getLocation(sample[i], t)), x)
  {
    var d := SampleEntries(sample, t, getLocation, getName);
    CountAtIsCount(d, x);
    assert Positions(d) == seq(|sample|, i requires 0 <= i < |sample| => getLocation(sample[i], t));
  }

  // ------------------------------------------------------------------ treat

  /** What `treat` writes before `:` at a node below the root: the name in the leaf-name policy, nothing otherwise. */
  function LabelOf(named: bool): Tree<Cell> -> string
  {
    (n: Tree<Cell>) => if named && n.hasParent then n.cell.name else ""
  }

  /** The branch length `treat` writes: the distance in decimal. */
  function BranchLength(n: Tree<Cell>): string
  {
    NatToString(n.cell.distance)
  }

  /** The formula `treat` builds, before its final `;`: the Newick text of the tree
      with these labels and lengths, without a root branch length. */
  function TreatFormula(t: Tree<Cell>, named: bool): string
  {
    Newick(LabelOf(named), BranchLength, PAUP, t)
  }

  /** What the post-order lambda writes at a node below the root. */
  function Suffix(t: Tree<Cell>, named: bool): string
  {
    (if named then t.cell.name else "") + ":" + NatToString(t.cell.distance)
  }

  lemma TreatSuffix(t: Tree<Cell>, named: bool)
    ensures NodeSuffix(LabelOf(named), BranchLength, PAUP, t) == if t.hasParent then Suffix(t, named) else ""
  {
  }

  /** The three visitor lambdas of `treat`, driven by the generic depth-first search. */
  method VisitTreat(t: Tree<Cell>, named: bool, buffer: string) returns (newick: string)
    ensures newick == buffer + TreatFormula(t, named)
    decreases t, 1
  {
    newick := buffer;
    if HasChildren(t) {
      newick := newick + "(";
    }
    ghost var afterPre := newick;
    newick := VisitTreatChildren(t, named, newick);
    ClosingFormula(LabelOf(named), BranchLength, PAUP, t, buffer, afterPre);
    newick := TreatPostOrder(t, named, newick);
  }

  /** The post-order lambda of `treat`: closes the children's list, then writes the name and distance. */
  method TreatPostOrder(t: Tree<Cell>, named: bool, buffer: string) returns (newick: string)
    requires HasChildren(t) ==> buffer != ""
    ensures newick == Closed(buffer, t) + NodeSuffix(LabelOf(named), BranchLength, PAUP, t)
  {
    newick := buffer;
    if HasChildren(t) {
      newick := newick[..|newick| - 1];
      newick := newick + ")";
    }
    ghost var closed := newick;
    TreatSuffix(t, named);
    if t.hasParent {
      ghost var written := if named then t.cell.name else "";
      if named {
        newick := newick + t.cell.name;
      }
      assert newick == closed + written;
      newick := newick + ":";
      SeqAssoc(closed, written, ":");
      newick := newick + NatToString(t.cell.distance);
      SeqAssoc(closed, written + ":", NatToString(t.cell.distance));
    } else {
      assert newick == closed + "";
    }
  }

  /** The children of `t`, each followed by the in-order lambda's comma. */
  method VisitTreatChildren(t: Tree<Cell>, named: bool, buffer: string) returns (newick: string)
    ensures newick == buffer + Trailing(LabelOf(named), BranchLength, PAUP, t, |t.children|)
    decreases t, 0
  {
    newick := buffer;
    var i := 0;
    while i < |t.children|
      invariant 0 <= i <= |t.children|
      invariant newick == buffer + Trailing(LabelOf(named), BranchLength, PAUP, t, i)
    {
      ghost var before := newick;
      newick := VisitTreat(t.children[i], named, newick);
      newick := newick + ",";
      TrailingStep(LabelOf(named), BranchLength, PAUP, t, i, buffer, before, newick);
      i := i + 1;
    }
    assert i == |t.children|;
  }

  /** `treat(tree)`: the formula followed by `;`. */
  method Treat(t: Tree<Cell>, named: bool) returns (newick: string)
    ensures newick == TreatFormula(t, named) + ";"
    ensures |newick| > 0 && newick[|newick| - 1] == ';'
  {
    newick := VisitTreat(t, named, "");
    newick := newick + ";";
  }

  /** No name in the tree holds a parenthesis. */
  predicate NamesAvoidParens(t: Tree<Cell>)
  {
    Avoids(t.cell.name, '(', ')') && forall i :: 0 <= i < |t.children| ==> NamesAvoidParens(t.children[i])
  }

  lemma DigitsAvoidParens(n: nat)
    ensures Avoids(NatToString(n), '(', ')')
  {
  }

  lemma {:induction false} TreatSuffixesAvoidParens(t: Tree<Cell>, named: bool)
    requires named ==> NamesAvoidParens(t)
    ensures SuffixesAvoid(LabelOf(named), BranchLength, PAUP, t, '(', ')')
  {
    var b := BranchLength(t);
    DigitsAvoidParens(t.cell.distance);
    AvoidsConcat(":", b, '(', ')');
    AvoidsConcat(LabelOf(named)(t), ":" + b, '(', ')');
    assert LabelOf(named)(t) + (":" + b) == LabelOf(named)(t) + ":" + b;
    forall i | 0 <= i < |t.children|
      ensures SuffixesAvoid(LabelOf(named), BranchLength, PAUP, t.children[i], '(', ')')
    {
      TreatSuffixesAvoidParens(t.children[i], named);
    }
  }

  /** When no name holds a parenthesis, the parentheses of `treat`'s output are balanced. */
  lemma TreatBalanced(t: Tree<Cell>, named: bool)
    requires named ==> NamesAvoidParens(t)
    ensures Balanced(TreatFormula(t, named) + ";", '(', ')')
  {
    var s := TreatFormula(t, named);
    TreatSuffixesAvoidParens(t, named);
    NewickParensBalanced(LabelOf(named), BranchLength, PAUP, t, 0);
    AvoidsKeepsCounter(";", '(', ')', 0);
    FinalConcat(s, ";", '(', ')', 0);
    BalancedByCounter(s + ";", '(', ')');
  }

  // -------------------------------------------------------------- an example

  /** A root at time 10 with two tips sampled at time 0, distances not yet computed. */
  function Cherry(): Tree<Cell>
  {
    Tree(false, Cell("", 10, 0), [Tree(true, Cell("a", 0, 0), []), Tree(true, Cell("b", 0, 0), [])])
  }

  /** The same tree once both branch lengths are known. */
  function TreatedCherry(): Tree<Cell>
  {
    Tree(false, Cell("", 10, 0), [Tree(true, Cell("a", 0, 10), []), Tree(true, Cell("b", 0, 10), [])])
  }

  /** Both tips are 10 generations from the root, which keeps distance 0. */
  lemma CherryDistances()
    ensures ComputeDistances(Cherry(), 0) == TreatedCherry()
  {
    var r := ComputeDistances(Cherry(), 0);
    assert r.children[0] == TreatedCherry().children[0];
    assert r.children[1] == TreatedCherry().children[1];
    assert r.children == TreatedCherry().children;
  }

  /** A tip below the root is written as its suffix alone. */
  lemma TipFormula(n: Tree<Cell>, named: bool)
    requires n.hasParent && n.children == []
    ensures TreatFormula(n, named) == Suffix(n, named)
  {
    TreatSuffix(n, named);
  }

  /** A root with two tips. */
  lemma CherryShape(r: Tree<Cell>, named: bool)
    requires !r.hasParent && |r.children| == 2
    requires r.children[0].hasParent && r.children[0].children == []
    requires r.children[1].hasParent && r.children[1].children == []
    ensures TreatFormula(r, named) == "(" + (Suffix(r.children[0], named) + "," + Suffix(r.children[1], named)) + ")"
  {
    var s0, s1 := Suffix(r.children[0], named), Suffix(r.children[1], named);
    var body := BranchSet(LabelOf(named), BranchLength, PAUP, r, 2);
    assert TreatFormula(r, named) == "(" + body + ")" by {
      TreatSuffix(r, named);
    }
    assert body == s0 + "," + s1 by {
      TipFormula(r.children[0], named);
      TipFormula(r.children[1], named);
      assert BranchSet(LabelOf(named), BranchLength, PAUP, r, 1) == TreatFormula(r.children[0], named);
      assert body == BranchSet(LabelOf(named), BranchLength, PAUP, r, 1) + "," + TreatFormula(r.children[1], named);
    }
  }

  lemma TenDigits()
    ensures NatToString(10) == "10"
  {
  }

  /** The Newick text of a cherry whose tips are written `x` and `y`. */
  lemma CherryText(r: Tree<Cell>, named: bool, x: string, y: string)
    requires !r.hasParent && |r.children| == 2
    requires r.children[0].hasParent && r.children[0].children == []
    requires r.children[1].hasParent && r.children[1].children == []
    requires Suffix(r.children[0], named) == x && Suffix(r.children[1], named) == y
    ensures TreatFormula(r, named) + ";" == ['('] + x + [','] + y + [')', ';']
  {
    CherryShape(r, named);
  }

  lemma NamedText()
    ensures "(a:10,b:10);" == ['('] + "a:10" + [','] + "b:10" + [')', ';']
  {
  }

  lemma UnnamedText()
    ensures "(:10,:10);" == ['('] + ":10" + [','] + ":10" + [')', ';']
  {
  }

  /** A tip sampled at time 0 under a root at time 10 is written with length 10. */
  lemma TipSuffix(n: Tree<Cell>, named: bool)
    requires n.cell.distance == 10
    ensures Suffix(n, named) == (if named then n.cell.name else "") + ":10"
  {
    TenDigits();
  }

  /** The leaf-name policy writes `(a:10,b:10);`. */
  lemma CherryNamedFormula(r: Tree<Cell>)
    requires r == TreatedCherry()
    ensures TreatFormula(r, true) + ";" == "(a:10,b:10);"
  {
    TipSuffix(r.children[0], true);
    TipSuffix(r.children[1], true);
    CherryText(r, true, "a:10", "b:10");
    NamedText();
  }

  /** The unnamed policy writes `(:10,:10);`. */
  lemma CherryUnnamedFormula(r: Tree<Cell>)
    requires r == TreatedCherry()
    ensures TreatFormula(r, false) + ";" == "(:10,:10);"
  {
    TipSuffix(r.children[0], false);
    TipSuffix(r.children[1], false);
    CherryText(r, false, ":10", ":10");
    UnnamedText();
  }
}
