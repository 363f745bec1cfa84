/**
 * Value types shared by the whole model: optional values, the outcome of an
 * operation that may throw, integer sums and the decimal rendering of a
 * natural number (`std::to_string` on an unsigned value).
 */
module Common {

  datatype Option<T> = None | Some(value: T)

  /** The standard exception classes the library throws, by name. */
  datatype Error =
    | LogicError
    | DomainError
    | InvalidArgument
    | RuntimeError
    | OutOfRange
    | MalformedInput

  /** The value an operation returns, or the exception it throws. */
  datatype Result<T> = Success(value: T) | Failure(error: Error)

  /** Completion of an operation that returns nothing, or the exception it throws. */
  datatype Outcome = Pass | Fail(error: Error)

  lemma SeqAssoc<A>(a: seq<A>, b: seq<A>, c: seq<A>)
    ensures (a + b) + c == a + (b + c)
  {
  }

  /** Sum of a sequence of integers. */
  function Sum(s: seq<int>): int
  {
    if |s| == 0 then 0 else s[0] + Sum(s[1..])
  }

  lemma {:induction false} SumConcat(a: seq<int>, b: seq<int>)
    ensures Sum(a + b) == Sum(a) + Sum(b)
  {
    if a == [] {
      assert a + b == b;
    } else {
      assert (a + b)[1..] == a[1..] + b;
      SumConcat(a[1..], b);
    }
  }

  /** The sum of a range is the sum of its two halves. */
  lemma SumSplit(s: seq<int>, lo: nat, mid: nat, hi: nat)
    requires lo <= mid <= hi <= |s|
    ensures Sum(s[lo..hi]) == Sum(s[lo..mid]) + Sum(s[mid..hi])
  {
    assert s[lo..hi] == s[lo..mid] + s[mid..hi];
    SumConcat(s[lo..mid], s[mid..hi]);
  }

  /** The sum of a non-empty range is its first element plus the sum of the rest. */
  lemma SumHead(s: seq<int>, lo: nat, hi: nat)
    requires lo < hi <= |s|
    ensures Sum(s[lo..hi]) == s[lo] + Sum(s[lo + 1..hi])
  {
    assert s[lo..hi][1..] == s[lo + 1..hi];
  }

  /** Taking out the element at `k` removes it from the sum ... */
  lemma RemoveAtSum(b: seq<int>, k: nat)
    requires k < |b|
    ensures Sum(b) == b[k] + Sum(b[..k] + b[k + 1..])
  {
    var c := [b[k]] + b[k + 1..];
    assert b == b[..k] + c;
    SumConcat(b[..k], c);
    assert Sum(c) == b[k] + Sum(b[k + 1..]) by {
      assert c[1..] == b[k + 1..];
    }
    SumConcat(b[..k], b[k + 1..]);
  }

  /** ... and from the multiset. */
  lemma RemoveAtMultiset<T>(b: seq<T>, k: nat)
    requires k < |b|
    ensures multiset(b[..k] + b[k + 1..]) == multiset(b) - multiset{b[k]}
  {
    assert b == b[..k] + [b[k]] + b[k + 1..];
  }

  /** Rearranging a sequence does not change its sum. */
  lemma {:induction false} SumOfPermutation(a: seq<int>, b: seq<int>)
    requires multiset(a) == multiset(b)
    ensures Sum(a) == Sum(b)
    decreases |a|
  {
    if a == [] {
      assert |b| == |multiset(b)| == 0;
    } else {
      assert a[0] in multiset(b);
      var k :| 0 <= k < |b| && b[k] == a[0];
      RemoveAtSum(b, k);
      RemoveAtMultiset(b, k);
      assert a == [a[0]] + a[1..];
      assert multiset(a[1..]) == multiset(a) - multiset{a[0]};
      SumOfPermutation(a[1..], b[..k] + b[k + 1..]);
    }
  }

  /** Number of occurrences of `x` in `s`. */
  function Count<T(==)>(s: seq<T>, x: T): nat
  {
    if s == [] then 0 else (if s[0] == x then 1 else 0) + Count(s[1..], x)
  }

  lemma {:induction false} CountConcat<T>(a: seq<T>, b: seq<T>, x: T)
    ensures Count(a + b, x) == Count(a, x) + Count(b, x)
  {
    if a == [] {
      assert a + b == b;
    } else {
      assert (a + b)[1..] == a[1..] + b;
      CountConcat(a[1..], b, x);
    }
  }

  lemma {:induction false} CountIsMultiplicity<T>(s: seq<T>, x: T)
    ensures Count(s, x) == multiset(s)[x]
  {
    if s != [] {
      assert s == [s[0]] + s[1..];
      assert multiset(s) == multiset([s[0]]) + multiset(s[1..]);
      CountIsMultiplicity(s[1..], x);
    }
  }

  function DigitChar(d: nat): char
    requires d < 10
  {
    "0123456789"[d]
  }

  /** Decimal rendering of a natural number, most significant digit first. */
  function NatToString(n: nat): (r: string)
    ensures |r| > 0
    ensures forall i :: 0 <= i < |r| ==> '0' <= r[i] <= '9'
  {
    if n < 10 then [DigitChar(n)] else NatToString(n / 10) + [DigitChar(n % 10)]
  }

  /** The digits of a rendering read back as the number they denote. */
  function DigitsValue(s: string): int
  {
    if s == [] then 0 else DigitsValue(s[..|s| - 1]) * 10 + (s[|s| - 1] as int - '0' as int)
  }

  lemma {:induction false} NatToStringValue(n: nat)
    ensures DigitsValue(NatToString(n)) == n
  {
    var r := NatToString(n);
    if n < 10 {
      assert r[..|r| - 1] == [];
    } else {
      assert r[..|r| - 1] == NatToString(n / 10);
      NatToStringValue(n / 10);
    }
  }

  function Abs(x: int): nat { if x < 0 then -x else x }

  /** C++ `/` on integers: the quotient truncated toward zero. */
  function CDiv(a: int, b: int): int
    requires b != 0
  {
    var q := Abs(a) / Abs(b);
    if (a < 0) == (b < 0) then q else -q
  }

  /** C++ `%` on integers: the remainder takes the sign of the dividend. */
  function CRem(a: int, b: int): int
    requires b != 0
  {
    var r := Abs(a) % Abs(b);
    if a < 0 then -r else r
  }

  /** The identity the C++ standard demands of `/` and `%`: `(a / b) * b + a % b == a`, with a remainder smaller than the divisor. */
  lemma CDivRem(a: int, b: int)
    requires b != 0
    ensures CDiv(a, b) * b + CRem(a, b) == a
    ensures Abs(CRem(a, b)) < Abs(b)
    ensures CRem(a, b) == 0 || (CRem(a, b) < 0 <==> a < 0)
  {
    var q, r := Abs(a) / Abs(b), Abs(a) % Abs(b);
    assert q * Abs(b) + r == Abs(a);
    if b < 0 {
      assert q * Abs(b) == -(q * b);
      assert (-q) * b == q * Abs(b);
    }
  }

  /** The sum of the counts a map holds: the size of a sample, the number of trees of a forest. */
  ghost function MapTotal<K>(m: map<K, nat>): nat
    decreases |m.Keys|
  {
    if m == map[] then 0
    else
      var x :| x in m;
      m[x] + MapTotal(m - {x})
  }

  /** The total does not depend on the key taken first. */
  lemma {:induction false} MapTotalRemove<K>(m: map<K, nat>, y: K)
    requires y in m
    ensures MapTotal(m) == m[y] + MapTotal(m - {y})
    decreases |m.Keys|
  {
    var x :| x in m && MapTotal(m) == m[x] + MapTotal(m - {x});
    if x != y {
      assert (m - {x}).Keys == m.Keys - {x};
      assert (m - {y}).Keys == m.Keys - {y};
      MapTotalRemove(m - {x}, y);
      MapTotalRemove(m - {y}, x);
      assert m - {x} - {y} == m - {y} - {x};
    }
  }

  /** Writing `v` at `x` replaces that key's count by `v` in the total. */
  lemma MapTotalUpdate<K>(m: map<K, nat>, x: K, v: nat)
    ensures MapTotal(m[x := v]) + (if x in m then m[x] else 0) == MapTotal(m) + v
  {
    var r := m[x := v];
    MapTotalRemove(r, x);
    assert r - {x} == m - {x};
    if x in m {
      MapTotalRemove(m, x);
    } else {
      assert m - {x} == m;
    }
  }

  /** `iota(first, last)`: the integers of the half-open range `[first, last)`, in order. */
  function Range(first: int, last: int): (r: seq<int>)
    ensures |r| == (if first <= last then last - first else 0)
    ensures forall i :: 0 <= i < |r| ==> r[i] == first + i
  {
    if first <= last then seq(last - first, i => first + i) else []
  }

  lemma RangeMembers(first: int, last: int, x: int)
    ensures x in Range(first, last) <==> first <= x < last
  {
    if first <= x < last {
      assert Range(first, last)[x - first] == x;
    }
  }

  /** The naturals 0, 1, …, n - 1 in order: the range `[0, n)`. */
  function Iota(n: nat): (r: seq<nat>)
    ensures |r| == n && forall i :: 0 <= i < n ==> r[i] == i
  {
    Range(0, n)
  }
}
