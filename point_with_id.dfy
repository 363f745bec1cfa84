// `PointWithId`: a point of a vector of coordinates designated by its index,
// so that the same location can be read as a point or as a matrix index.

module PointWithId {

  /** `getIndexOfPointInVector(p, vect)`: the index of the first occurrence of `p`; `p` must occur. */
  function IndexOfPoint<P(==)>(p: P, vect: seq<P>): (i: nat)
    requires p in vect
    ensures i < |vect| && vect[i] == p
    ensures forall j :: 0 <= j < i ==> vect[j] != p
  {
    if vect[0] == p then 0 else 1 + IndexOfPoint(p, vect[1..])
  }

  /** A vector of points and the index of one of them. */
  datatype PointWithId<P> = PointWithId(vect: seq<P>, index: nat)
  {
    /** `getPoint()`: the point at the index, one of the vector's points. */
    function GetPoint(): (p: P)
      requires index < |vect|
      ensures p in vect
    {
      vect[index]
    }

    /** `getId()`: the index, which locates the designated point in the vector. */
    function GetId(): (i: nat)
      ensures index < |vect| ==> i < |vect| && vect[i] == GetPoint()
    {
      index
    }
  }

  /** The constructor from a point: the designated point is that point, at its first index. */
  function FromPoint<P(==)>(vect: seq<P>, p: P): (r: PointWithId<P>)
    requires p in vect
    ensures r.vect == vect && r.index < |vect| && r.GetPoint() == p
    ensures forall j :: 0 <= j < r.GetId() ==> vect[j] != p
  {
    PointWithId(vect, IndexOfPoint(p, vect))
  }

  /** `operator==` compares the underlying points, not the indices. */
  predicate Same<P(==)>(a: PointWithId<P>, b: PointWithId<P>)
    requires a.index < |a.vect| && b.index < |b.vect|
    ensures a == b ==> Same(a, b)
    ensures Same(a, b) ==> a.GetPoint() in b.vect && b.GetPoint() in a.vect
  {
    a.GetPoint() == b.GetPoint()
  }

  /** `operator!=`: the negation of `==`. */
  predicate Different<P(==)>(a: PointWithId<P>, b: PointWithId<P>)
    requires a.index < |a.vect| && b.index < |b.vect|
    ensures Different(a, b) <==> !Same(b, a)
    ensures Different(a, b) ==> a != b
  {
    !Same(a, b)
  }

  /** Constructed from the index, the object gives back that index and the point stored there. */
  lemma FromIndexRoundTrip<P>(vect: seq<P>, i: nat)
    requires i < |vect|
    ensures PointWithId(vect, i).GetId() == i && PointWithId(vect, i).GetPoint() == vect[i]
  {
  }

  /** Going from a point to its index and back gives the point; from an index, only the first occurrence is recovered. */
  lemma IndexPointRoundTrip<P>(vect: seq<P>, i: nat)
    requires i < |vect|
    ensures FromPoint(vect, vect[i]).GetPoint() == vect[i]
    ensures FromPoint(vect, vect[i]).GetId() <= i
    ensures (forall j :: 0 <= j < i ==> vect[j] != vect[i]) ==> FromPoint(vect, vect[i]).GetId() == i
  {
  }

  /** Two indices of the same repeated point compare equal, although their ids differ. */
  lemma DuplicatesCompareEqual()
    ensures Same(PointWithId([7, 7], 0), PointWithId([7, 7], 1))
    ensures PointWithId([7, 7], 0).GetId() != PointWithId([7, 7], 1).GetId()
  {
  }

  /** `==` is an equivalence, and `!=` its negation. */
  lemma SameIsEquivalence<P>(a: PointWithId<P>, b: PointWithId<P>, c: PointWithId<P>)
    requires a.index < |a.vect| && b.index < |b.vect| && c.index < |c.vect|
    ensures Same(a, a)
    ensures Same(a, b) <==> Same(b, a)
    ensures Same(a, b) && Same(b, c) ==> Same(a, c)
    ensures Different(a, b) <==> !Same(a, b)
  {
  }
}
