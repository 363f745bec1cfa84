// `extent`: the latitude and longitude bounds of a spatial grid, with a
// getter and a chaining setter per bound.

module Extent {
  class Extent<T(==)> {
    var latMin: T
    var latMax: T
    var lonMin: T
    var lonMax: T

    /** The constructor stores the four bounds as given, latitudes first. */
    constructor (latMin: T, latMax: T, lonMin: T, lonMax: T)
      ensures this.latMin == latMin && this.latMax == latMax
      ensures this.lonMin == lonMin && this.lonMax == lonMax
    {
      this.latMin := latMin;
      this.latMax := latMax;
      this.lonMin := lonMin;
      this.lonMax := lonMax;
    }

    /** The four bounds, latitudes first. */
    function Bounds(): (T, T, T, T)
      reads this
    {
      (latMin, latMax, lonMin, lonMax)
    }

    /** `operator==`: the four bounds agree; an extent equals itself. */
    predicate Equals(other: Extent<T>)
      reads this, other
      ensures Equals(other) <==> other.Bounds() == Bounds()
      ensures other == this ==> Equals(other)
    {
      lonMin == other.lonMin && lonMax == other.lonMax && latMin == other.latMin && latMax == other.latMax
    }

    /** `operator!=`: the negation of `==`, read either way round; an extent never differs from itself. */
    predicate NotEquals(other: Extent<T>)
      reads this, other
      ensures NotEquals(other) <==> !other.Equals(this)
      ensures NotEquals(other) ==> other != this
    {
      !Equals(other)
    }

    /** Setter `lat_min(val)`: changes that bound only and returns the object itself. */
    method SetLatMin(val: T) returns (self: Extent<T>)
      modifies this
      ensures self == this && latMin == val
      ensures latMax == old(latMax) && lonMin == old(lonMin) && lonMax == old(lonMax)
    {
      latMin := val;
      self := this;
    }

    /** Setter `lat_max(val)`. */
    method SetLatMax(val: T) returns (self: Extent<T>)
      modifies this
      ensures self == this && latMax == val
      ensures latMin == old(latMin) && lonMin == old(lonMin) && lonMax == old(lonMax)
    {
      latMax := val;
      self := this;
    }

    /** Setter `lon_min(val)`. */
    method SetLonMin(val: T) returns (self: Extent<T>)
      modifies this
      ensures self == this && lonMin == val
      ensures latMin == old(latMin) && latMax == old(latMax) && lonMax == old(lonMax)
    {
      lonMin := val;
      self := this;
    }

    /** Setter `lon_max(val)`. */
    method SetLonMax(val: T) returns (self: Extent<T>)
      modifies this
      ensures self == this && lonMax == val
      ensures latMin == old(latMin) && latMax == old(latMax) && lonMin == old(lonMin)
    {
      lonMax := val;
      self := this;
    }
  }

  /** `==` is an equivalence between extents, and `!=` is exactly its negation. */
  lemma EqualsIsEquivalence<T>(a: Extent<T>, b: Extent<T>, c: Extent<T>)
    ensures a.Equals(a)
    ensures a.Equals(b) <==> b.Equals(a)
    ensures a.Equals(b) && b.Equals(c) ==> a.Equals(c)
    ensures a.NotEquals(b) <==> !a.Equals(b)
  {
  }

  /** A copy whose `lat_min` is then changed to another value compares unequal to the original. */
  method ChangedCopyDiffers(e: Extent<real>, val: real) returns (copy: Extent<real>)
    requires val != e.latMin
    ensures copy.latMin == val && copy.NotEquals(e)
  {
    copy := new Extent(e.latMin, e.latMax, e.lonMin, e.lonMax);
    assert copy.Equals(e);
    var _ := copy.SetLatMin(val);
  }
}
