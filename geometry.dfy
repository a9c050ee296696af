/**
 * Geometry of road polylines: points in (longitude, latitude) order as in
 * section 3.1.1 of RFC 7946, the leg lengths of a vertex chain, the chain
 * length, and linear interpolation along one leg.
 *
 * The great-circle (haversine) distance is not computed here: every operation
 * that needs it takes a `DistFn`, any function that is non-negative and zero
 * on coincident points.
 */
module Geometry {

  /** A GeoJSON position: longitude first, then latitude, in degrees. */
  datatype Point = Point(lon: real, lat: real)

  /** The abstract point-to-point distance in metres standing in for `haversine_m`. */
  type DistFn = d: (Point, Point) -> real
    | (forall p, q :: d(p, q) >= 0.0) && (forall p :: d(p, p) == 0.0)
    witness (p: Point, q: Point) => 0.0

  function Abs(x: real): real { if x < 0.0 then -x else x }

  /** Sum of a sequence of reals, adding the last element last (Python's `sum`). */
  function Sum(s: seq<real>): real
  {
    if s == [] then 0.0 else Sum(s[..|s| - 1]) + s[|s| - 1]
  }

  lemma {:induction false} SumAppend(a: seq<real>, b: seq<real>)
    ensures Sum(a + b) == Sum(a) + Sum(b)
  {
    if b == [] {
      assert a + b == a;
    } else {
      assert (a + b)[..|a + b| - 1] == a + b[..|b| - 1];
      SumAppend(a, b[..|b| - 1]);
    }
  }

  lemma {:induction false} SumNonNegative(s: seq<real>)
    requires forall i :: 0 <= i < |s| ==> s[i] >= 0.0
    ensures Sum(s) >= 0.0
  {
    if s != [] {
      SumNonNegative(s[..|s| - 1]);
    }
  }

  /** A prefix of non-negative reals sums to no more than the whole. */
  lemma {:induction false} SumPrefixBounded(s: seq<real>, k: nat)
    requires k <= |s|
    requires forall i :: 0 <= i < |s| ==> s[i] >= 0.0
    ensures 0.0 <= Sum(s[..k]) <= Sum(s)
  {
    assert s == s[..k] + s[k..];
    SumAppend(s[..k], s[k..]);
    SumNonNegative(s[..k]);
    SumNonNegative(s[k..]);
  }

  /** The prefix sums grow by one element at a time. */
  lemma SumPrefixStep(s: seq<real>, k: nat)
    requires k < |s|
    ensures Sum(s[..k + 1]) == Sum(s[..k]) + s[k]
  {
    assert s[..k + 1][..k] == s[..k];
  }

  /** The leg lengths `seglens` of a vertex chain: one per pair of consecutive vertices. */
  function Legs(dist: DistFn, coords: seq<Point>): (legs: seq<real>)
    ensures |coords| >= 1 ==> |legs| == |coords| - 1
    ensures |coords| <= 1 ==> legs == []
    ensures forall i :: 0 <= i < |legs| ==> legs[i] == dist(coords[i], coords[i + 1]) >= 0.0
  {
    if |coords| < 2 then []
    else seq(|coords| - 1, i requires 0 <= i < |coords| - 1 => dist(coords[i], coords[i + 1]))
  }

  /** `linestring_length_m`: the sum of the leg lengths of the chain. */
  function ChainLength(dist: DistFn, coords: seq<Point>): real
  {
    Sum(Legs(dist, coords))
  }

  lemma ChainLengthNonNegative(dist: DistFn, coords: seq<Point>)
    ensures ChainLength(dist, coords) >= 0.0
  {
    SumNonNegative(Legs(dist, coords));
  }

  /** A chain of fewer than two points, or of one point repeated, has length zero. */
  lemma ChainLengthDegenerate(dist: DistFn, coords: seq<Point>)
    requires |coords| < 2 || forall i :: 0 <= i < |coords| ==> coords[i] == coords[0]
    ensures ChainLength(dist, coords) == 0.0
  {
    var legs := Legs(dist, coords);
    if |coords| >= 2 {
      forall i | 0 <= i < |legs| ensures legs[i] == 0.0 {
        assert coords[i] == coords[i + 1];
      }
      AllZeroSum(legs);
    }
  }

  lemma {:induction false} AllZeroSum(s: seq<real>)
    requires forall i :: 0 <= i < |s| ==> s[i] == 0.0
    ensures Sum(s) == 0.0
  {
    if s != [] {
      AllZeroSum(s[..|s| - 1]);
    }
  }

  /**
   * Additivity: the length of two chains joined at a shared junction point is
   * the sum of their lengths.
   */
  lemma ChainLengthJoin(dist: DistFn, a: seq<Point>, b: seq<Point>)
    requires |a| >= 1 && |b| >= 1 && a[|a| - 1] == b[0]
    ensures ChainLength(dist, a + b[1..]) == ChainLength(dist, a) + ChainLength(dist, b)
  {
    LegsJoin(dist, a, b);
    SumAppend(Legs(dist, a), Legs(dist, b));
  }

  /** The legs of two chains joined at a shared junction point are the legs of the first, then of the second. */
  lemma LegsJoin(dist: DistFn, a: seq<Point>, b: seq<Point>)
    requires |a| >= 1 && |b| >= 1 && a[|a| - 1] == b[0]
    ensures Legs(dist, a + b[1..]) == Legs(dist, a) + Legs(dist, b)
  {
    var lab, l := Legs(dist, a + b[1..]), Legs(dist, a) + Legs(dist, b);
    assert |lab| == |l|;
    forall i | 0 <= i < |lab| ensures lab[i] == l[i] {
      LegOfJoin(dist, a, b, i);
    }
  }

  lemma LegOfJoin(dist: DistFn, a: seq<Point>, b: seq<Point>, i: nat)
    requires |a| >= 1 && |b| >= 1 && a[|a| - 1] == b[0] && i < |a| + |b| - 2
    ensures Legs(dist, a + b[1..])[i] == (Legs(dist, a) + Legs(dist, b))[i]
  {
    var ab := a + b[1..];
    if i < |a| - 1 {
      assert ab[i] == a[i] && ab[i + 1] == a[i + 1];
    } else {
      var k := i - (|a| - 1);
      assert ab[i] == b[k] && ab[i + 1] == b[k + 1];
    }
  }

  /** `interpolate_point`: the point a fraction `t` of the way from `p` to `q`. */
  function Interpolate(p: Point, q: Point, t: real): (r: Point)
    ensures t == 0.0 ==> r == p
    ensures t == 1.0 ==> r == q
  {
    Point(p.lon + (q.lon - p.lon) * t, p.lat + (q.lat - p.lat) * t)
  }
}
