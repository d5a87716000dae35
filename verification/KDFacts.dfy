/** What the quantities that steer building and searching a tree mean. */
module KDFacts {
  import opened Metric
  import opened KDTree
  import opened KDSearch

  ghost function Abs(x: real): real { if x < 0.0 then -x else x }

  /** The cutting value is, of all values within the points' spread, the one nearest to the middle of the box. */
  lemma {:induction false} CutIsCentral(pts: seq<Point>, ind: seq<nat>, lo: nat, hi: nat, box: seq<Interval>, f: nat,
        cutval: real, middle: real, x: real)
    requires lo < hi && f < |box| && IsCut(pts, ind, lo, hi, box, f, cutval)
    requires middle - box[f].low == box[f].high - middle
    requires exists i, j :: lo <= i < hi && lo <= j < hi && Coord(pts, ind, i, f) <= x <= Coord(pts, ind, j, f)
    ensures Abs(cutval - middle) <= Abs(x - middle)
    ensures exists i, j :: lo <= i < hi && lo <= j < hi && Coord(pts, ind, i, f) <= cutval <= Coord(pts, ind, j, f)
  {
    hide LongSides, Spreads, FirstLargest, Coord, MinOf, MaxOf;
    var least :| lo <= least < hi && Coord(pts, ind, least, f) == MinOf(pts, ind, lo, hi, f);
    var most :| lo <= most < hi && Coord(pts, ind, most, f) == MaxOf(pts, ind, lo, hi, f);
    assert middle == (box[f].low + box[f].high) / 2.0;
    assert Coord(pts, ind, least, f) <= cutval <= Coord(pts, ind, most, f);
  }

  /** A side is a candidate for the cut exactly if no side is longer by more than a hundred-thousandth. */
  lemma {:induction false} LongSideIff(box: seq<Interval>, i: nat)
    requires i < |box|
    ensures LongSide(box, i) <==>
      forall j :: 0 <= j < |box| ==> box[i].high - box[i].low > 0.99999 * (box[j].high - box[j].low)
  {
    hide MaxSpan;
    var m :| 0 <= m < |box| && Span(box[m]) == MaxSpan(box);
    forall j | 0 <= j < |box| ensures 0.99999 * Span(box[j]) <= 0.99999 * MaxSpan(box) {
      assert Span(box[j]) <= MaxSpan(box);
    }
  }

  /** The spread is the largest difference between two of the points' coordinates. */
  lemma {:induction false} SpreadIsWidest(pts: seq<Point>, ind: seq<nat>, lo: nat, hi: nat, d: nat)
    requires lo < hi
    ensures forall i, j :: lo <= i < hi && lo <= j < hi ==>
      Coord(pts, ind, i, d) - Coord(pts, ind, j, d) <= Spread(pts, ind, lo, hi, d)
    ensures exists i, j :: lo <= i < hi && lo <= j < hi
                           && Coord(pts, ind, i, d) - Coord(pts, ind, j, d) == Spread(pts, ind, lo, hi, d)
  {
    hide Coord, MinOf, MaxOf;
    var least :| lo <= least < hi && Coord(pts, ind, least, d) == MinOf(pts, ind, lo, hi, d);
    var most :| lo <= most < hi && Coord(pts, ind, most, d) == MaxOf(pts, ind, lo, hi, d);
    assert Coord(pts, ind, most, d) - Coord(pts, ind, least, d) == Spread(pts, ind, lo, hi, d);
  }

  /** The initial bound along a dimension is the squared distance to the nearest coordinate of the box. */
  lemma {:induction false} GapIsDistance(v: real, side: Interval, x: real) returns (near: real)
    requires side.low <= x <= side.high
    ensures side.low <= near <= side.high && Gap(v, side) == (v - near) * (v - near)
    ensures Gap(v, side) <= (v - x) * (v - x)
  {
    near := if v < side.low then side.low else if v > side.high then side.high else v;
    if near == v {
      assert Sq(v - x) >= 0.0;
    } else {
      SqFurther(v, near, x);
    }
  }

  /** The child whose side of the gap is nearer to the query is visited first. */
  lemma {:induction false} NearerChildFirst(val: real, lo: real, hi: real, child1: Tree, child2: Tree)
    requires lo <= hi && child1 != child2
    ensures var (best, other, cut) := Descend(val, lo, hi, child1, child2);
      (best == child1 ==> Sq(val - lo) <= Sq(val - hi)) && (best == child2 ==> Sq(val - hi) <= Sq(val - lo))
  {
    assert Sq(val - hi) - Sq(val - lo) == (lo - hi) * ((val - lo) + (val - hi));
    var gap, off := hi - lo, (val - lo) + (val - hi);
    if off < 0.0 {
      Product(gap, -off);
    } else {
      Product(gap, off);
    }
  }

  lemma Product(a: real, b: real)
    requires 0.0 <= a && 0.0 <= b
    ensures 0.0 <= a * b && (-a) * b == -(a * b) && (-a) * -b == a * b
  {
  }
}
