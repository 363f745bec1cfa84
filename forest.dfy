// The forest of a coalescence simulation: an unordered multimap from
// positions to trees.  It is modelled as the sequence of its (position, tree)
// entries in iteration order; a new entry is placed at the end.

module Forests {
  import opened Common

  /** The number of entries at position `x`: `count(x)`. */
  function CountAt<P(==), T>(d: seq<(P, T)>, x: P): nat
  {
    if d == [] then 0 else CountAt(d[..|d| - 1], x) + (if d[|d| - 1].0 == x then 1 else 0)
  }

  /** The trees at position `x`, in iteration order: `equal_range(x)`. */
  function TreesAt<P(==), T>(d: seq<(P, T)>, x: P): seq<T>
  {
    if d == [] then [] else TreesAt(d[..|d| - 1], x) + (if d[|d| - 1].0 == x then [d[|d| - 1].1] else [])
  }

  /** The entries left by `erase(x)`. */
  function Without<P(==), T>(d: seq<(P, T)>, x: P): seq<(P, T)>
  {
    if d == [] then [] else Without(d[..|d| - 1], x) + (if d[|d| - 1].0 == x then [] else [d[|d| - 1]])
  }

  /** The positions holding at least one tree. */
  function Keys<P, T>(d: seq<(P, T)>): set<P>
  {
    set i | 0 <= i < |d| :: d[i].0
  }

  /** Every tree, in iteration order: `get_all_trees()`. */
  function AllTrees<P, T>(d: seq<(P, T)>): (r: seq<T>)
    ensures |r| == |d| && forall i :: 0 <= i < |d| ==> r[i] == d[i].1
  {
    seq(|d|, i requires 0 <= i < |d| => d[i].1)
  }

  /** The entries `insert(x, trees)` adds, one per tree. */
  function Pairs<P, T>(x: P, trees: seq<T>): (r: seq<(P, T)>)
    ensures |r| == |trees| && forall i :: 0 <= i < |trees| ==> r[i] == (x, trees[i])
  {
    seq(|trees|, i requires 0 <= i < |trees| => (x, trees[i]))
  }

  /** The per-position counts: one entry per position of the forest. */
  function Counts<P(==), T>(d: seq<(P, T)>): map<P, nat>
  {
    map x | x in Keys(d) :: CountAt(d, x)
  }

  lemma FrontKeys<P, T>(d: seq<(P, T)>)
    requires d != []
    ensures Keys(d) == Keys(d[..|d| - 1]) + {d[|d| - 1].0}
  {
    var f := d[..|d| - 1];
    forall y | y in Keys(d) ensures y in Keys(f) + {d[|d| - 1].0} {
      var i :| 0 <= i < |d| && d[i].0 == y;
      if i < |d| - 1 { assert f[i] == d[i]; }
    }
    forall y | y in Keys(f) ensures y in Keys(d) {
      var i :| 0 <= i < |f| && f[i].0 == y;
      assert d[i] == f[i];
    }
  }

  /**
   * The count at a position is the number of trees there; it is positive
   * exactly at the positions of the forest; and `erase(x)` removes those
   * entries alone.
   */
  lemma {:induction false} CountMeaning<P, T>(d: seq<(P, T)>, x: P)
    ensures CountAt(d, x) == |TreesAt(d, x)|
    ensures CountAt(d, x) > 0 <==> x in Keys(d)
    ensures |Without(d, x)| + CountAt(d, x) == |d|
    ensures forall y :: CountAt(Without(d, x), y) == (if y == x then 0 else CountAt(d, y))
    ensures forall y :: TreesAt(Without(d, x), y) == (if y == x then [] else TreesAt(d, y))
    ensures Keys(Without(d, x)) == Keys(d) - {x}
  {
    if d != [] {
      var f := d[..|d| - 1];
      CountMeaning(f, x);
      FrontKeys(d);
      var w := Without(d, x);
      var wf := Without(f, x);
      if d[|d| - 1].0 == x {
        assert w == wf;
      } else {
        assert w[..|w| - 1] == wf && w[|w| - 1] == d[|d| - 1];
        FrontKeys(w);
      }
    }
  }

  /** One more entry adds one to its position's count and a tree at its end. */
  lemma {:induction false} AppendMeaning<P, T>(d: seq<(P, T)>, x: P, t: T)
    ensures forall y :: CountAt(d + [(x, t)], y) == CountAt(d, y) + (if y == x then 1 else 0)
    ensures forall y :: TreesAt(d + [(x, t)], y) == TreesAt(d, y) + (if y == x then [t] else [])
    ensures Keys(d + [(x, t)]) == Keys(d) + {x}
  {
    var e := d + [(x, t)];
    assert e[..|e| - 1] == d;
    FrontKeys(e);
  }

  /** `insert(x, trees)`: each tree adds one entry at `x`. */
  lemma {:induction false} AppendPairsMeaning<P, T>(d: seq<(P, T)>, x: P, trees: seq<T>)
    ensures forall y :: CountAt(d + Pairs(x, trees), y) == CountAt(d, y) + (if y == x then |trees| else 0)
    ensures forall y :: TreesAt(d + Pairs(x, trees), y) == TreesAt(d, y) + (if y == x then trees else [])
    decreases |trees|
  {
    if trees != [] {
      var front := trees[..|trees| - 1];
      var t := trees[|trees| - 1];
      AppendPairsMeaning(d, x, front);
      assert d + Pairs(x, trees) == (d + Pairs(x, front)) + [(x, t)];
      AppendMeaning(d + Pairs(x, front), x, t);
      assert front + [t] == trees;
    } else {
      assert d + Pairs(x, trees) == d;
    }
  }

  lemma CountsAppend<P, T>(d: seq<(P, T)>, x: P, t: T)
    ensures Counts(d + [(x, t)]) == Counts(d)[x := (if x in Counts(d) then Counts(d)[x] else 0) + 1]
  {
    var e := d + [(x, t)];
    AppendMeaning(d, x, t);
    CountMeaning(d, x);
    var lhs, rhs := Counts(e), Counts(d)[x := (if x in Counts(d) then Counts(d)[x] else 0) + 1];
    assert lhs.Keys == rhs.Keys;
    forall y | y in lhs.Keys ensures lhs[y] == rhs[y] {
      if y != x {
        CountMeaning(d, y);
      }
    }
  }

  /** `nb_trees()` is the sum of `nb_trees(x)` over the positions. */
  lemma {:induction false} SizeIsSumOfCounts<P, T>(d: seq<(P, T)>)
    ensures |d| == MapTotal(Counts(d))
  {
    if d != [] {
      var f := d[..|d| - 1];
      var x := d[|d| - 1].0;
      SizeIsSumOfCounts(f);
      assert d == f + [(x, d[|d| - 1].1)];
      AppendMeaning(f, x, d[|d| - 1].1);
      var old_ := if x in Counts(f) then Counts(f)[x] else 0;
      CountsAppend(f, x, d[|d| - 1].1);
      MapTotalUpdate(Counts(f), x, old_ + 1);
    }
  }

  /** `Forest`: the entries, in iteration order. */
  class Forest<P(==), T> {
    var data: seq<(P, T)>

    /** The default constructor: an empty forest. */
    constructor ()
      ensures data == []
    {
      data := [];
    }

    /** The copy constructor. */
    constructor Copy(other: Forest<P, T>)
      ensures data == other.data
    {
      data := other.data;
    }

    /** Copy assignment, by a copy moved into `*this`. */
    method Assign(other: Forest<P, T>)
      modifies this
      ensures data == old(other.data)
    {
      var copy := other.data;
      data := copy;
    }

    /** `nb_trees()`: the number of entries, which is the sum of the per-position counts. */
    method NbTrees() returns (n: nat)
      ensures n == |data| && n == MapTotal(Counts(data))
    {
      n := |data|;
      SizeIsSumOfCounts(data);
    }

    /** `nb_trees(x)`: the number of trees at `x`, positive exactly when `x` is a position. */
    function NbTreesAt(x: P): (n: nat)
      reads this
      ensures n == |TreesAt(data, x)|
      ensures n > 0 <==> x in Keys(data)
    {
      CountMeaning(data, x);
      CountAt(data, x)
    }

    /** `trees_at_same_position(x)`: asserts some tree is at `x`, then its range. */
    method TreesAtSamePosition(x: P) returns (trees: seq<T>)
      requires CountAt(data, x) > 0
      ensures trees == TreesAt(data, x) && |trees| == CountAt(data, x)
    {
      CountMeaning(data, x);
      trees := TreesAt(data, x);
    }

    /** `insert(x, tree)`: one more tree at `x`, every other position unchanged. */
    method Insert(x: P, tree: T)
      modifies this
      ensures data == old(data) + [(x, tree)]
      ensures forall y :: CountAt(data, y) == CountAt(old(data), y) + (if y == x then 1 else 0)
      ensures forall y :: TreesAt(data, y) == TreesAt(old(data), y) + (if y == x then [tree] else [])
      ensures |data| == |old(data)| + 1
    {
      AppendMeaning(data, x, tree);
      data := data + [(x, tree)];
    }

    /** `insert(x, trees)`: inserts the trees one by one. */
    method InsertAll(x: P, trees: seq<T>)
      modifies this
      ensures data == old(data) + Pairs(x, trees)
      ensures forall y :: CountAt(data, y) == CountAt(old(data), y) + (if y == x then |trees| else 0)
      ensures |data| == |old(data)| + |trees|
    {
      var i := 0;
      while i < |trees|
        invariant 0 <= i <= |trees|
        invariant data == old(data) + Pairs(x, trees[..i])
      {
        assert Pairs(x, trees[..i + 1]) == Pairs(x, trees[..i]) + [(x, trees[i])];
        Insert(x, trees[i]);
        i := i + 1;
      }
      assert trees[..i] == trees;
      AppendPairsMeaning(old(data), x, trees);
    }

    /** `erase(x)`: removes every tree at `x` and returns how many there were. */
    method Erase(x: P) returns (removed: nat)
      modifies this
      ensures data == Without(old(data), x)
      ensures removed == CountAt(old(data), x)
      ensures forall y :: CountAt(data, y) == (if y == x then 0 else CountAt(old(data), y))
      ensures Keys(data) == Keys(old(data)) - {x}
      ensures |data| + removed == |old(data)|
    {
      removed := CountAt(data, x);
      data := Without(data, x);
      CountMeaning(old(data), x);
      forall y ensures CountAt(data, y) == (if y == x then 0 else CountAt(old(data), y)) {
      }
    }

    /** `erase(first, last)`: removes the entries of an iterator range. */
    method EraseRange(first: nat, last: nat)
      requires first <= last <= |data|
      modifies this
      ensures data == old(data[..first] + data[last..])
    {
      data := data[..first] + data[last..];
    }

    /** `positions()`: the set of positions that hold a tree. */
    method Positions() returns (s: set<P>)
      ensures s == Keys(data)
      ensures forall x :: x in s <==> NbTreesAt(x) > 0
    {
      s := {};
      var i := 0;
      while i < |data|
        invariant 0 <= i <= |data|
        invariant s == Keys(data[..i])
      {
        assert data[..i + 1][..i] == data[..i];
        FrontKeys(data[..i + 1]);
        s := s + {data[i].0};
        i := i + 1;
      }
      assert data[..i] == data;
    }

    /** `get_all_trees()`: every tree, as many as `nb_trees()`. */
    method GetAllTrees() returns (trees: seq<T>)
      ensures trees == AllTrees(data) && |trees| == |data|
    {
      trees := [];
      var i := 0;
      while i < |data|
        invariant 0 <= i <= |data|
        invariant trees == AllTrees(data[..i])
      {
        trees := trees + [data[i].1];
        i := i + 1;
      }
      assert data[..i] == data;
    }
  }

  /** The unit test's scenario: six trees inserted at four positions, two of them at position 3. */
  method ForestInsertScenario() returns (total: nat, atThree: nat, last: (int, string))
    ensures total == 6 && atThree == 2
    ensures last == (4, "salix_nigra")
  {
    var forest := new Forest<int, string>();
    forest.Insert(1, "salix_nigra");
    forest.InsertAll(2, ["populus_tremula", "salix_nigra"]);
    forest.InsertAll(3, ["quercus_robur", "salix_nigra"]);
    assert CountAt(forest.data, 3) == 2;
    forest.Insert(4, "salix_nigra");
    last := forest.data[|forest.data| - 1];
    total := forest.NbTrees();
    atThree := forest.NbTreesAt(3);
  }
}
