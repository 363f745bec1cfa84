// `resolution`: the latitude and longitude cell sizes of a spatial grid.

module Resolution {
  class Resolution<T(==)> {
    var lat: T
    var lon: T

    /** The constructor stores both resolutions as given. */
    constructor (lat: T, lon: T)
      ensures this.lat == lat && this.lon == lon
    {
      this.lat := lat;
      this.lon := lon;
    }

    /** `operator==`: both resolutions agree; a resolution equals itself. */
    predicate Equals(other: Resolution<T>)
      reads this, other
      ensures Equals(other) <==> (other.lat, other.lon) == (lat, lon)
      ensures other == this ==> Equals(other)
    {
      lat == other.lat && lon == other.lon
    }

    /** `operator!=`: the negation of `==`, read either way round; a resolution never differs from itself. */
    predicate NotEquals(other: Resolution<T>)
      reads this, other
      ensures NotEquals(other) <==> !other.Equals(this)
      ensures NotEquals(other) ==> other != this
    {
      !Equals(other)
    }

    /** Setter `lat(value)`: changes the latitude only and returns the object itself. */
    method SetLat(value: T) returns (self: Resolution<T>)
      modifies this
      ensures self == this && lat == value && lon == old(lon)
    {
      lat := value;
      self := this;
    }

    /** Setter `lon(value)`: changes the longitude only and returns the object itself. */
    method SetLon(value: T) returns (self: Resolution<T>)
      modifies this
      ensures self == this && lon == value && lat == old(lat)
    {
      lon := value;
      self := this;
    }
  }

  /** `==` is an equivalence between resolutions, and `!=` is exactly its negation. */
  lemma EqualsIsEquivalence<T>(a: Resolution<T>, b: Resolution<T>, c: Resolution<T>)
    ensures a.Equals(a)
    ensures a.Equals(b) <==> b.Equals(a)
    ensures a.Equals(b) && b.Equals(c) ==> a.Equals(c)
    ensures a.NotEquals(b) <==> !a.Equals(b)
  {
  }

  /** A copy whose longitude is then changed to another value compares unequal to the original. */
  method ChangedCopyDiffers(r: Resolution<real>, value: real) returns (copy: Resolution<real>)
    requires value != r.lon
    ensures copy.lon == value && copy.NotEquals(r)
  {
    copy := new Resolution(r.lat, r.lon);
    assert copy.Equals(r);
    var _ := copy.SetLon(value);
  }
}
