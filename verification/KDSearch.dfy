/** Branch-and-bound search of a k-d tree, and why the branches it skips hold nothing of interest. */
module KDSearch {
  import opened Metric
  import opened Ranges
  import opened ResultSet
  import opened KDTree

  ghost function DistTo(pts: seq<Point>, vec: Point, i: nat): (d: real)
    ensures d >= 0.0
  {
    if i < |pts| && |pts[i]| == |vec| then SqDistNonNegative(vec, pts[i]); SqDist(vec, pts[i]) else 0.0
  }

  ghost function Ids(c: seq<Entry>): set<nat> {
    set j | 0 <= j < |c| :: c[j].index
  }

  /**
   * `c` lists, nearest first, up to `k` distinct points of `S` with their own squared distances;
   * a point of `S` is missing only if `k` are listed and all of them are at most `e` times as far.
   */
  ghost predicate Nearest(c: seq<Entry>, k: nat, S: set<nat>, pts: seq<Point>, vec: Point, e: real) {
    && |c| <= k
    && Sorted(c)
    && (forall i, j :: 0 <= i < j < |c| ==> c[i].index != c[j].index)
    && (forall j :: 0 <= j < |c| ==> c[j].index in S && c[j].dist == DistTo(pts, vec, c[j].index))
    && (forall p :: p in S ==> p in Ids(c) || Beyond(c, k, p, pts, vec, e))
  }

  ghost predicate Beyond(c: seq<Entry>, k: nat, p: nat, pts: seq<Point>, vec: Point, e: real) {
    |c| == k && 0 < k && c[k - 1].dist <= e * DistTo(pts, vec, p)
  }

  lemma {:induction false} NothingYet(k: nat, pts: seq<Point>, vec: Point, e: real)
    ensures Nearest([], k, {}, pts, vec, e)
  {
  }

  lemma {:induction false} Farther(d: real, e: real)
    requires 0.0 <= d && 1.0 <= e
    ensures d <= e * d
  {
    assert (e - 1.0) * d >= 0.0;
  }

  /** The slots of the buffer after offering a new point. */
  lemma {:induction false} OfferSlots(c: seq<Entry>, k: nat, S: set<nat>, pts: seq<Point>, vec: Point, e: real, p: nat)
    returns (i: nat, t: seq<Entry>)
    requires 0 < k && Nearest(c, k, S, pts, vec, e) && p !in S
    ensures i <= |c| && t == Take(Insert(c, Entry(DistTo(pts, vec, p), p)), k)
    ensures |t| == if |c| < k then |c| + 1 else k
    ensures forall j {:trigger t[j]} :: 0 <= j < |t| ==>
      t[j] == if j < i then c[j] else if j == i then Entry(DistTo(pts, vec, p), p) else c[j - 1]
    ensures i == 0 || c[i - 1].dist <= DistTo(pts, vec, p)
    ensures i == |c| || DistTo(pts, vec, p) < c[i].dist
    ensures Sorted(t) && |c| <= |t| <= k && (|c| == k ==> t[k - 1].dist <= c[k - 1].dist)
  {
    hide Insert, Take, Sorted, DistTo;
    var n := Entry(DistTo(pts, vec, p), p);
    i := Landing(c, n);
    InsertSlots(c, n, i, k);
    t := Take(Insert(c, n), k);
    OfferSorted(c, n, k);
  }

  /** A point missing after an offer is beyond what is listed. */
  lemma {:induction false} OfferMisses(c: seq<Entry>, k: nat, S: set<nat>, pts: seq<Point>, vec: Point, e: real,
        p: nat, q: nat)
    requires 0 < k && 1.0 <= e && Nearest(c, k, S, pts, vec, e) && p !in S && q in S + {p}
    ensures var t := Take(Insert(c, Entry(DistTo(pts, vec, p), p)), k);
      q in Ids(t) || Beyond(t, k, q, pts, vec, e)
  {
    hide Insert, Take, Sorted, DistTo;
    var i, t := OfferSlots(c, k, S, pts, vec, e, p);
    Farther(DistTo(pts, vec, q), e);
    if q == p {
      if i < |t| { assert t[i].index == p; }
    } else if q in Ids(c) {
      var j :| 0 <= j < |c| && c[j].index == q;
      if j < i { assert t[j].index == q; } else if j + 1 < |t| { assert t[j + 1].index == q; }
    } else {
      assert Beyond(c, k, q, pts, vec, e);
    }
  }

  /** Offering a new point. */
  lemma {:induction false} OfferNew(c: seq<Entry>, k: nat, S: set<nat>, pts: seq<Point>, vec: Point, e: real, p: nat)
    requires 0 < k && 1.0 <= e && Nearest(c, k, S, pts, vec, e) && p !in S
    ensures var t := Take(Insert(c, Entry(DistTo(pts, vec, p), p)), k);
      && Nearest(t, k, S + {p}, pts, vec, e)
      && |c| <= |t| <= k && (|c| == k ==> t[k - 1].dist <= c[k - 1].dist)
  {
    hide Insert, Take, Sorted, DistTo, Beyond, Ids;
    var i, t := OfferSlots(c, k, S, pts, vec, e, p);
    forall j | 0 <= j < |t| ensures t[j].index in S + {p} && t[j].dist == DistTo(pts, vec, t[j].index) {
      assert t[j] == if j < i then c[j] else if j == i then Entry(DistTo(pts, vec, p), p) else c[j - 1];
    }
    forall q | q in S + {p} ensures q in Ids(t) || Beyond(t, k, q, pts, vec, e) {
      OfferMisses(c, k, S, pts, vec, e, p, q);
    }
  }

  /** Points known to be too far away may be skipped. */
  lemma {:induction false} SkipFar(c: seq<Entry>, k: nat, S: set<nat>, T: set<nat>, pts: seq<Point>, vec: Point,
        e: real)
    requires Nearest(c, k, S, pts, vec, e)
    requires forall p :: p in T ==> Beyond(c, k, p, pts, vec, e)
    ensures Nearest(c, k, S + T, pts, vec, e)
  {
  }

  /** The points at positions `[lo, hi)` that have not been removed. */
  ghost function LiveIn(ind: seq<nat>, lo: nat, hi: nat, live: nat -> bool): set<nat> {
    set j | lo <= j < hi && j < |ind| && live(ind[j]) :: ind[j]
  }

  lemma {:induction false} LiveUnion(ind: seq<nat>, lo: nat, mid: nat, hi: nat, live: nat -> bool)
    requires lo <= mid <= hi <= |ind| && Distinct(ind)
    ensures LiveIn(ind, lo, mid, live) + LiveIn(ind, mid, hi, live) == LiveIn(ind, lo, hi, live)
    ensures LiveIn(ind, lo, mid, live) !! LiveIn(ind, mid, hi, live)
  {
    forall p | p in LiveIn(ind, lo, hi, live)
      ensures p in LiveIn(ind, lo, mid, live) + LiveIn(ind, mid, hi, live)
    {
      var j :| lo <= j < hi && live(ind[j]) && ind[j] == p;
      if j < mid {} else {}
    }
  }

  /** `dists` bounds, dimension by dimension, the squared gap to every point at positions `[lo, hi)`. */
  ghost predicate Bounds(dists: seq<real>, pts: seq<Point>, vec: Point, ind: seq<nat>, lo: nat, hi: nat) {
    forall d, j :: 0 <= d < |dists| && d < |vec| && lo <= j < hi ==> dists[d] <= Sq(vec[d] - Coord(pts, ind, j, d))
  }

  /** The sum of the bounds is below every distance in the range. */
  lemma {:induction false} BoundsBelow(dists: seq<real>, pts: seq<Point>, vec: Point, ind: seq<nat>, lo: nat,
        hi: nat, j: nat)
    requires Bounds(dists, pts, vec, ind, lo, hi) && Indexed(pts, |vec|, ind)
    requires |dists| == |vec| && lo <= j < hi <= |ind|
    ensures Sum(dists) <= DistTo(pts, vec, ind[j])
  {
    assert forall d :: 0 <= d < |vec| ==> Coord(pts, ind, j, d) == pts[ind[j]][d];
    BoundsBelowDistance(dists, vec, pts[ind[j]]);
  }

  /** The child to visit last, and the squared distance to its side of the gap. */
  function Descend(val: real, lo: real, hi: real, child1: Tree, child2: Tree): (r: (Tree, Tree, real))
    ensures (r.0 == child1 && r.1 == child2) || (r.0 == child2 && r.1 == child1)
  {
    if (val - lo) + (val - hi) < 0.0 then (child1, child2, Sq(val - hi)) else (child2, child1, Sq(val - lo))
  }

  /** The tightened bound holds for every point of the far child. */
  lemma {:induction false} CutBounds(dists: seq<real>, pts: seq<Point>, vec: Point, ind: seq<nat>, node: Tree,
        leafMax: nat)
    requires node.Node? && WellFormed(node, pts, |vec|, ind, leafMax)
    requires BoundsNode(dists, pts, vec, ind, node)
    ensures var (best, other, cut) := Descend(vec[node.divfeat], node.divlow, node.divhigh, node.child1, node.child2);
      && node.divfeat < |dists|
      && BoundsNode(dists, pts, vec, ind, best)
      && BoundsNode(dists[node.divfeat := cut], pts, vec, ind, other)
      && exists j :: First(other) <= j < Last(other) && cut == Sq(vec[node.divfeat] - Coord(pts, ind, j, node.divfeat))
  {
    var f, val := node.divfeat, vec[node.divfeat];
    var (best, other, cut) := Descend(val, node.divlow, node.divhigh, node.child1, node.child2);
    forall j | First(other) <= j < Last(other) ensures cut <= Sq(val - Coord(pts, ind, j, f)) {
      var x := Coord(pts, ind, j, f);
      if (val - node.divlow) + (val - node.divhigh) < 0.0 {
        SqFurther(val, node.divhigh, x);
      } else {
        SqFurther(val, node.divlow, x);
      }
    }
  }

  /** No distance, stretched by the tolerance, reaches the sentinel. */
  ghost predicate BelowMax(MAX: real, pts: seq<Point>, vec: Point, e: real) {
    forall i: nat :: e * DistTo(pts, vec, i) < MAX
  }

  /** A branch whose bound exceeds the worst listed distance holds nothing of interest. */
  lemma {:induction false} PruneIsSound(c: seq<Entry>, k: nat, S: set<nat>, pts: seq<Point>, vec: Point, e: real,
        MAX: real,
                     dists: seq<real>, ind: seq<nat>, lo: nat, hi: nat, live: nat -> bool)
    requires 0 < k && 1.0 <= e && Nearest(c, k, S, pts, vec, e) && BelowMax(MAX, pts, vec, e)
    requires Bounds(dists, pts, vec, ind, lo, hi) && Indexed(pts, |vec|, ind) && |dists| == |vec| && hi <= |ind|
    requires Sum(dists) * e > if |c| < k then MAX else c[k - 1].dist
    ensures Nearest(c, k, S + LiveIn(ind, lo, hi, live), pts, vec, e)
  {
    var T := LiveIn(ind, lo, hi, live);
    forall p | p in T ensures Beyond(c, k, p, pts, vec, e) {
      var j :| lo <= j < hi && ind[j] == p;
      FarPoint(c, k, pts, vec, e, MAX, dists, ind, lo, hi, j);
    }
    SkipFar(c, k, S, T, pts, vec, e);
  }

  lemma {:induction false} FarPoint(c: seq<Entry>, k: nat, pts: seq<Point>, vec: Point, e: real, MAX: real,
                 dists: seq<real>, ind: seq<nat>, lo: nat, hi: nat, j: nat)
    requires |c| <= k && 0 < k && 1.0 <= e && BelowMax(MAX, pts, vec, e)
    requires Bounds(dists, pts, vec, ind, lo, hi) && Indexed(pts, |vec|, ind)
    requires |dists| == |vec| && lo <= j < hi <= |ind|
    requires Sum(dists) * e > if |c| < k then MAX else c[k - 1].dist
    ensures Beyond(c, k, ind[j], pts, vec, e)
  {
    hide Sum, DistTo;
    BoundsBelow(dists, pts, vec, ind, lo, hi, j);
    ScaleMonotone(Sum(dists), DistTo(pts, vec, ind[j]), e);
    assert e * DistTo(pts, vec, ind[j]) < MAX;
  }

  /** Squared gap between a coordinate and one side of a box. */
  ghost function Gap(v: real, side: Interval): real {
    if v < side.low then Sq(v - side.low) else if v > side.high then Sq(v - side.high) else 0.0
  }

  /** The initial bounds: the squared gaps between the query and the root box. */
  method ComputeInitialDistances(vec: Point, rootBox: seq<Interval>, dists: array<real>) returns (distsq: real)
    requires |vec| == |rootBox| == dists.Length
    requires forall d :: 0 <= d < |vec| ==> dists[d] == 0.0 && rootBox[d].low <= rootBox[d].high
    modifies dists
    ensures forall d :: 0 <= d < |vec| ==> dists[d] == Gap(vec[d], rootBox[d])
    ensures distsq == Sum(dists[..])
  {
    distsq := 0.0;
    for i := 0 to |vec|
      invariant forall d :: 0 <= d < i ==> dists[d] == Gap(vec[d], rootBox[d])
      invariant forall d :: i <= d < |vec| ==> dists[d] == 0.0
      invariant distsq == Sum(dists[..i])
    {
      ghost var before := dists[..i];
      if vec[i] < rootBox[i].low {
        dists[i] := Sq(vec[i] - rootBox[i].low);
        distsq := distsq + dists[i];
      }
      if vec[i] > rootBox[i].high {
        dists[i] := Sq(vec[i] - rootBox[i].high);
        distsq := distsq + dists[i];
      }
      assert dists[..i + 1][..i] == before;
    }
    assert dists[..|vec|] == dists[..];
  }

  /** The gaps to a tight box bound the gaps to every point inside. */
  lemma {:induction false} InitialBounds(dists: seq<real>, pts: seq<Point>, vec: Point, ind: seq<nat>, lo: nat,
        hi: nat, box: seq<Interval>)
    requires |dists| == |vec| == |box| && TightBox(pts, ind, lo, hi, box)
    requires forall d :: 0 <= d < |vec| ==> dists[d] == Gap(vec[d], box[d])
    ensures Bounds(dists, pts, vec, ind, lo, hi)
  {
    forall d, j | 0 <= d < |vec| && lo <= j < hi ensures dists[d] <= Sq(vec[d] - Coord(pts, ind, j, d)) {
      var x := Coord(pts, ind, j, d);
      assert TightSide(pts, ind, lo, hi, d, box[d]);
      if vec[d] < box[d].low {
        SqFurther(vec[d], box[d].low, x);
      } else if vec[d] > box[d].high {
        SqFurther(vec[d], box[d].high, x);
      }
    }
  }

  /** What a search step needs to know about the point set and the query. */
  ghost predicate Searchable(pts: seq<Point>, vec: Point, ind: seq<nat>, e: real, MAX: real) {
    Indexed(pts, |vec|, ind) && Distinct(ind) && 1.0 <= e && BelowMax(MAX, pts, vec, e)
  }

  /** The result set lists the nearest of the points seen so far. */
  ghost predicate Lists(rs: KNNResultSet, S: set<nat>, pts: seq<Point>, vec: Point, e: real)
    reads rs, rs.indices, rs.dists
  {
    rs.Valid() && 0 < rs.capacity && Nearest(rs.contents, rs.capacity, S, pts, vec, e)
  }

  /** The worst distance as it was at the start of a leaf; MAX stood for `not full`. */
  ghost predicate Threshold(c: seq<Entry>, k: nat, worst: real, MAX: real) {
    if |c| < k then worst == MAX else 0 < k == |c| && c[k - 1].dist <= worst
  }

  lemma {:induction false} ThresholdKept(c: seq<Entry>, t: seq<Entry>, k: nat, S: set<nat>, pts: seq<Point>,
        vec: Point, e: real,
                                         worst: real, MAX: real)
    requires 0 < k && |c| <= |t| <= k && (|c| == k ==> t[k - 1].dist <= c[k - 1].dist)
    requires Nearest(t, k, S, pts, vec, e) && 1.0 <= e && BelowMax(MAX, pts, vec, e)
    requires Threshold(c, k, worst, MAX)
    ensures Threshold(t, k, worst, MAX)
  {
    if |c| < k == |t| {
      Farther(t[k - 1].dist, e);
      assert e * DistTo(pts, vec, t[k - 1].index) < MAX;
    }
  }

  lemma {:induction false} TooFar(c: seq<Entry>, k: nat, pts: seq<Point>, vec: Point, e: real, worst: real,
        MAX: real, p: nat)
    requires Threshold(c, k, worst, MAX) && 1.0 <= e && BelowMax(MAX, pts, vec, e)
    requires worst <= DistTo(pts, vec, p)
    ensures Beyond(c, k, p, pts, vec, e)
  {
    hide DistTo;
    Farther(DistTo(pts, vec, p), e);
    assert e * DistTo(pts, vec, p) < MAX;
  }

  /** Visiting one point of a leaf. */
  method VisitPoint(rs: KNNResultSet, pts: seq<Point>, vec: Point, index: nat, worst: real, e: real, ghost S: set<nat>)
    returns (more: bool)
    requires Lists(rs, S, pts, vec, e) && Threshold(rs.contents, rs.capacity, worst, rs.MAX)
    requires 1.0 <= e && BelowMax(rs.MAX, pts, vec, e) && Cloud(pts, |vec|) && index < |pts| && index !in S
    modifies rs, rs.indices, rs.dists
    ensures Lists(rs, S + {index}, pts, vec, e) && Threshold(rs.contents, rs.capacity, worst, rs.MAX) && more
    ensures Grows(old(rs.count), old(rs.indices[..]), rs.count, rs.indices[..])
  {
    hide Insert, Take, SqDist, StableSort, Nearest, BelowMax, Threshold;
    var dist := EvalMetric(vec, pts[index]);
    assert dist == DistTo(pts, vec, index);
    if dist < worst {
      ghost var c := rs.contents;
      OfferNew(c, rs.capacity, S, pts, vec, e, index);
      more := rs.AddPoint(dist, index);
      ThresholdKept(c, rs.contents, rs.capacity, S + {index}, pts, vec, e, worst, rs.MAX);
    } else {
      TooFar(rs.contents, rs.capacity, pts, vec, e, worst, rs.MAX, index);
      SkipFar(rs.contents, rs.capacity, S, {index}, pts, vec, e);
      more := true;
    }
  }

  /** The result set only grows, and the slots beyond its entries are not touched. */
  ghost predicate Grows(n: nat, before: seq<nat>, m: nat, after: seq<nat>) {
    n <= m && |before| == |after| && forall i :: m <= i < |after| ==> after[i] == before[i]
  }

  lemma {:induction false} GrowsTransitive(n: nat, a: seq<nat>, m: nat, b: seq<nat>, k: nat, c: seq<nat>)
    requires Grows(n, a, m, b) && Grows(m, b, k, c)
    ensures Grows(n, a, k, c)
  {
  }

  lemma {:induction false} SearchableAt(pts: seq<Point>, vec: Point, ind: seq<nat>, e: real, MAX: real, S: set<nat>,
                                        lo: nat, i: nat, hi: nat, live: nat -> bool)
    requires Searchable(pts, vec, ind, e, MAX) && lo <= i < hi <= |ind| && S !! LiveIn(ind, lo, hi, live)
    ensures Cloud(pts, |vec|) && ind[i] < |pts| && 1.0 <= e && BelowMax(MAX, pts, vec, e)
    ensures live(ind[i]) ==> ind[i] !in S + LiveIn(ind, lo, i, live)
    ensures LiveIn(ind, lo, i + 1, live) == LiveIn(ind, lo, i, live) + if live(ind[i]) then {ind[i]} else {}
  {
    LiveUnion(ind, lo, i, i + 1, live);
    assert live(ind[i]) ==> ind[i] in LiveIn(ind, lo, hi, live);
    assert LiveIn(ind, i, i + 1, live) == if live(ind[i]) then {ind[i]} else {};
  }

  lemma ListsMeans(rs: KNNResultSet, S: set<nat>, pts: seq<Point>, vec: Point, e: real)
    requires Lists(rs, S, pts, vec, e)
    ensures rs.Valid() && 0 < rs.capacity && |rs.contents| == rs.count <= rs.capacity
  {
  }

  lemma {:induction false} LeafStart(rs: KNNResultSet, S: set<nat>, pts: seq<Point>, vec: Point, e: real,
        ind: seq<nat>, left: nat, live: nat -> bool, worst: real)
    requires Lists(rs, S, pts, vec, e)
    requires worst == if rs.count < rs.capacity then rs.MAX else rs.contents[rs.capacity - 1].dist
    ensures Threshold(rs.contents, rs.capacity, worst, rs.MAX)
    ensures Grows(rs.count, rs.indices[..], rs.count, rs.indices[..])
    ensures S + LiveIn(ind, left, left, live) == S
  {
    hide StableSort, Take, Hold;
  }

  /** A leaf: every remaining point closer than the worst distance at its start is offered. */
  method SearchLeaf(rs: KNNResultSet, pts: seq<Point>, vec: Point, left: nat, right: nat, ind: seq<nat>,
        live: nat -> bool,
                    e: real, ghost S: set<nat>)
    returns (more: bool)
    requires Lists(rs, S, pts, vec, e) && Searchable(pts, vec, ind, e, rs.MAX)
    requires left <= right <= |ind| && S !! LiveIn(ind, left, right, live)
    modifies rs, rs.indices, rs.dists
    ensures Lists(rs, S + LiveIn(ind, left, right, live), pts, vec, e) && more
    ensures Grows(old(rs.count), old(rs.indices[..]), rs.count, rs.indices[..])
  {
    hide *;
    ListsMeans(rs, S, pts, vec, e);
    var worst := rs.WorstDist();
    ghost var n, before := rs.count, rs.indices[..];
    LeafStart(rs, S, pts, vec, e, ind, left, live, worst);
    for i := left to right
      invariant Lists(rs, S + LiveIn(ind, left, i, live), pts, vec, e)
      invariant Threshold(rs.contents, rs.capacity, worst, rs.MAX)
      invariant Grows(n, before, rs.count, rs.indices[..])
    {
      var index := ind[i];
      SearchableAt(pts, vec, ind, e, rs.MAX, S, left, i, right, live);
      ghost var seen := S + LiveIn(ind, left, i, live);
      ghost var m, mid := rs.count, rs.indices[..];
      if live(index) {
        var go := VisitPoint(rs, pts, vec, index, worst, e, seen);
        GrowsTransitive(n, before, m, mid, rs.count, rs.indices[..]);
        assert seen + {index} == S + LiveIn(ind, left, i + 1, live);
        if !go {
          return false;
        }
      } else {
        assert seen == S + LiveIn(ind, left, i + 1, live);
      }
    }
    more := true;
  }

  /** The points below an inner node, split between its children. */
  lemma {:induction false} BelowNode(pts: seq<Point>, vec: Point, ind: seq<nat>, e: real, MAX: real, S: set<nat>,
                                     node: Tree, leafMax: nat, live: nat -> bool)
    requires Searchable(pts, vec, ind, e, MAX) && node.Node? && WellFormed(node, pts, |vec|, ind, leafMax)
    requires S !! Below(node, ind, live)
    ensures node.divfeat < |vec|
    ensures WellFormed(node.child1, pts, |vec|, ind, leafMax) && WellFormed(node.child2, pts, |vec|, ind, leafMax)
    ensures Below(node.child1, ind, live) + Below(node.child2, ind, live) == Below(node, ind, live)
    ensures S !! Below(node.child1, ind, live) && S !! Below(node.child2, ind, live)
    ensures S + Below(node.child1, ind, live) !! Below(node.child2, ind, live)
    ensures S + Below(node.child2, ind, live) !! Below(node.child1, ind, live)
  {
    LiveUnion(ind, First(node), First(node.child2), Last(node), live);
  }

  /** The live points of a subtree. */
  ghost function Below(node: Tree, ind: seq<nat>, live: nat -> bool): set<nat> {
    LiveIn(ind, First(node), Last(node), live)
  }

  ghost predicate BoundsNode(dists: seq<real>, pts: seq<Point>, vec: Point, ind: seq<nat>, node: Tree) {
    |dists| == |vec| && Bounds(dists, pts, vec, ind, First(node), Last(node))
  }

  /** Why the far child may be skipped, in terms of the search state. */
  lemma {:induction false} SkipBranch(rs: KNNResultSet, S: set<nat>, pts: seq<Point>, vec: Point, ind: seq<nat>,
        e: real,
                                      dists: seq<real>, node: Tree, leafMax: nat, live: nat -> bool, worst: real)
    requires Lists(rs, S, pts, vec, e) && Searchable(pts, vec, ind, e, rs.MAX)
    requires WellFormed(node, pts, |vec|, ind, leafMax) && BoundsNode(dists, pts, vec, ind, node)
    requires worst == if rs.count < rs.capacity then rs.MAX else rs.contents[rs.capacity - 1].dist
    requires Sum(dists) * e > worst
    ensures Lists(rs, S + Below(node, ind, live), pts, vec, e)
  {
    PruneIsSound(rs.contents, rs.capacity, S, pts, vec, e, rs.MAX, dists, ind, First(node), Last(node), live);
  }

  /**
   * Searches a subtree for live points nearer than those listed. `mindistsq` is the sum of the
   * bounds held in `dists`, which are tightened on the way down and restored on the way up.
   */
  method SearchLevel(rs: KNNResultSet, pts: seq<Point>, vec: Point, node: Tree, ind: seq<nat>, live: nat -> bool,
                     mindistsq: real, dists: array<real>, epsError: real, ghost leafMax: nat, ghost S: set<nat>)
    returns (more: bool)
    requires Lists(rs, S, pts, vec, epsError) && Searchable(pts, vec, ind, epsError, rs.MAX)
    requires WellFormed(node, pts, |vec|, ind, leafMax) && S !! Below(node, ind, live)
    requires dists != rs.dists && mindistsq == Sum(dists[..]) && BoundsNode(dists[..], pts, vec, ind, node)
    modifies rs, rs.indices, rs.dists, dists
    ensures Lists(rs, S + Below(node, ind, live), pts, vec, epsError) && more
    ensures dists[..] == old(dists[..])
    ensures Grows(old(rs.count), old(rs.indices[..]), rs.count, rs.indices[..])
    decreases node
  {
    hide Nearest, Searchable, WellFormed, BoundsNode, Below, Grows, StableSort, Take, First, Last, Sum, Descend;
    ghost var n, before, D := rs.count, rs.indices[..], dists[..];
    if node.Leaf? {
      LeafBelow(pts, |vec|, ind, node, leafMax, live);
      more := SearchLeaf(rs, pts, vec, node.left, node.right, ind, live, epsError, S);
      return;
    }
    BelowNode(pts, vec, ind, epsError, rs.MAX, S, node, leafMax, live);
    CutBounds(D, pts, vec, ind, node, leafMax);
    var idx := node.divfeat;
    var (best, other, cut) := Descend(vec[idx], node.divlow, node.divhigh, node.child1, node.child2);
    more := SearchLevel(rs, pts, vec, best, ind, live, mindistsq, dists, epsError, leafMax, S);
    if !more { return; }
    ghost var seen, m, mid := S + Below(best, ind, live), rs.count, rs.indices[..];
    var dst := dists[idx];
    var tighter := mindistsq + cut - dst;
    SumUpdate(D, idx, cut);
    dists[idx] := cut;
    assert dists[..] == D[idx := cut];
    var worst := rs.WorstDist();
    if tighter * epsError <= worst {
      more := SearchLevel(rs, pts, vec, other, ind, live, tighter, dists, epsError, leafMax, seen);
      if !more { return; }
      GrowsTransitive(n, before, m, mid, rs.count, rs.indices[..]);
    } else {
      SkipBranch(rs, seen, pts, vec, ind, epsError, dists[..], other, leafMax, live, worst);
    }
    dists[idx] := dst;
    assert dists[..] == D;
    assert seen + Below(other, ind, live) == S + Below(node, ind, live);
  }

  lemma {:induction false} LeafBelow(pts: seq<Point>, dim: nat, ind: seq<nat>, node: Tree, leafMax: nat,
        live: nat -> bool)
    requires node.Leaf? && WellFormed(node, pts, dim, ind, leafMax)
    ensures node.left <= node.right <= |ind| && Below(node, ind, live) == LiveIn(ind, node.left, node.right, live)
  {
  }
}
