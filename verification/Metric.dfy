/** Points, boxes and the squared Euclidean metric of the k-d tree library. */
module Metric {

  type Point = seq<real>

  /** One side of a bounding box. */
  datatype Interval = Interval(low: real, high: real)

  function Sq(x: real): (r: real)
    ensures r >= 0.0
  {
    x * x
  }

  function Min(a: real, b: real): real { if b < a then b else a }

  function Max(a: real, b: real): real { if a < b then b else a }

  /** Every point of the data set has `dim` coordinates. */
  ghost predicate Cloud(pts: seq<Point>, dim: nat) {
    forall i :: 0 <= i < |pts| ==> |pts[i]| == dim
  }

  /** `ind` lists points of the data set: the contents of the library's `vind`. */
  ghost predicate Indexed(pts: seq<Point>, dim: nat, ind: seq<nat>) {
    && Cloud(pts, dim)
    && forall j :: 0 <= j < |ind| ==> ind[j] < |pts|
  }

  ghost function Sum(s: seq<real>): real {
    if s == [] then 0.0 else Sum(s[..|s| - 1]) + s[|s| - 1]
  }

  ghost function Terms(a: Point, b: Point): (t: seq<real>)
    requires |a| == |b|
  {
    seq(|a|, i requires 0 <= i < |a| => Sq(a[i] - b[i]))
  }

  /** The squared distance between two points. */
  ghost function SqDist(a: Point, b: Point): real
    requires |a| == |b|
  {
    Sum(Terms(a, b))
  }

  /** The metric is computed by one pass over the coordinates. */
  method EvalMetric(a: Point, b: Point) returns (result: real)
    requires |a| == |b|
    ensures result == SqDist(a, b)
  {
    result := 0.0;
    for i := 0 to |a|
      invariant result == Sum(Terms(a, b)[..i])
    {
      var diff := a[i] - b[i];
      result := result + diff * diff;
      assert Terms(a, b)[..i + 1][..i] == Terms(a, b)[..i];
    }
    assert Terms(a, b)[..|a|] == Terms(a, b);
  }

  lemma {:induction false} SumUpdate(s: seq<real>, i: nat, v: real)
    requires i < |s|
    ensures Sum(s[i := v]) == Sum(s) + v - s[i]
  {
    var last := |s| - 1;
    if i == last {
      assert s[i := v][..last] == s[..last];
    } else {
      SumUpdate(s[..last], i, v);
      assert s[i := v][..last] == s[..last][i := v];
    }
  }

  lemma {:induction false} SumMonotone(s: seq<real>, t: seq<real>)
    requires |s| == |t|
    requires forall i :: 0 <= i < |s| ==> s[i] <= t[i]
    ensures Sum(s) <= Sum(t)
  {
    if s != [] {
      SumMonotone(s[..|s| - 1], t[..|s| - 1]);
    }
  }

  lemma {:induction false} SumNonNegative(s: seq<real>)
    requires forall i :: 0 <= i < |s| ==> 0.0 <= s[i]
    ensures 0.0 <= Sum(s)
  {
    if s != [] {
      SumNonNegative(s[..|s| - 1]);
    }
  }

  lemma SqDistNonNegative(a: Point, b: Point)
    requires |a| == |b|
    ensures 0.0 <= SqDist(a, b)
  {
    SumNonNegative(Terms(a, b));
  }

  /** Coordinate-wise lower bounds add up to a lower bound on the distance. */
  lemma BoundsBelowDistance(bounds: seq<real>, a: Point, b: Point)
    requires |bounds| == |a| == |b|
    requires forall d :: 0 <= d < |a| ==> bounds[d] <= Sq(a[d] - b[d])
    ensures Sum(bounds) <= SqDist(a, b)
  {
    SumMonotone(bounds, Terms(a, b));
  }

  /** Moving the second argument further away on the same side increases the squared gap. */
  lemma SqFurther(v: real, near: real, far: real)
    requires v <= near <= far || far <= near <= v
    ensures Sq(v - near) <= Sq(v - far)
  {
    var x, y := v - near, v - far;
    assert Sq(y) - Sq(x) == (y - x) * (y - x) + 2.0 * ((y - x) * x);
    assert (y - x) * x >= 0.0;
  }

  lemma ScaleMonotone(a: real, b: real, e: real)
    requires a <= b && 0.0 <= e
    ensures a * e <= b * e
  {
    assert (b - a) * e >= 0.0;
  }
}
