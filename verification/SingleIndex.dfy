/** The static k-d tree index over a fixed data set. */
module SingleIndex {
  import opened Wrappers
  import opened Metric
  import opened Ranges
  import opened ResultSet
  import opened KDTree
  import opened KDSearch
  import opened KDIndex
  import opened BruteForce

  function Iota(n: nat): (s: seq<nat>)
    ensures |s| == n && forall i :: 0 <= i < n ==> s[i] == i
  {
    seq(n, i requires 0 <= i < n => i)
  }

  class SingleIndexAdaptor {
    const pts: seq<Point>
    const dim: nat
    const leafMax: nat
    var base: Index

    ghost predicate Valid()
      reads this
    {
      && 0 < dim && 0 < leafMax && Cloud(pts, dim)
      && Usable(base, pts, dim, leafMax)
      && multiset(base.vind) == multiset(Iota(|pts|)) && base.size == |pts|
    }

    /** The index answers queries: there is a tree unless there are no points. */
    ghost predicate Ready()
      reads this
    {
      Valid() && (base.root.None? ==> pts == [])
    }

    constructor (dim: nat, pts: seq<Point>, leafMax: nat)
      requires 0 < dim && 0 < leafMax && Cloud(pts, dim)
      ensures Valid() && base.root.None?
      ensures this.pts == pts && this.dim == dim && this.leafMax == leafMax
    {
      this.dim, this.pts, this.leafMax := dim, pts, leafMax;
      base := Index(Iota(|pts|), None, [], |pts|);
    }

    /** Lists the points anew and builds the tree over them. */
    method Build()
      requires Valid()
      modifies this
      ensures Ready()
    {
      base := BuildIndex(pts, dim, leafMax, Iota(|pts|));
    }

    /**
     * Lists, in addition to what the result set already lists, the nearest points of the data set.
     * Querying before building is an error, except for an empty data set.
     */
    method FindNeighbors(rs: KNNResultSet, vec: Point, eps: real, ghost S: set<nat>) returns (r: Result<bool>)
      requires Valid() && |vec| == dim && 0.0 <= eps
      requires Lists(rs, S, pts, vec, 1.0 + eps) && BelowMax(rs.MAX, pts, vec, 1.0 + eps)
      requires S !! Elements(Iota(|pts|))
      modifies rs, rs.indices, rs.dists
      ensures r.Err? <==> pts != [] && base.root.None?
      ensures r.Ok? ==> Lists(rs, S + Elements(Iota(|pts|)), pts, vec, 1.0 + eps)
      ensures r.Ok? && pts != [] ==> r.value == (rs.count == rs.capacity)
      ensures Grows(old(rs.count), old(rs.indices[..]), rs.count, rs.indices[..])
    {
      hide Nearest, LiveIn, StableSort, BelowMax, Describes, TightBox;
      AllPoints(base.vind, |pts|);
      if base.size == 0 {
        assert S + Elements(Iota(|pts|)) == S;
        return Ok(false);
      }
      if base.root.None? {
        return Err("findNeighbors() called before building the index.");
      }
      var all := (i: nat) => true;
      AllLive(base.vind, all);
      Query(rs, pts, vec, base, all, 1.0 + eps, leafMax, S);
      var full := rs.Full();
      r := Ok(full);
    }

    /**
     * The k nearest points of the data set to a query point: the result is that of sorting all
     * points by distance, up to the order among points at the same distance.
     */
    method KnnSearch(query: Point, numClosest: nat, outIndices: array<nat>, outDistancesSq: array<real>, MAX: real)
      returns (r: Result<nat>)
      requires Valid() && |query| == dim && 0 < numClosest && BelowMax(MAX, pts, query, 1.0)
      requires numClosest <= outIndices.Length && numClosest <= outDistancesSq.Length
      modifies outIndices, outDistancesSq
      ensures r.Err? <==> pts != [] && base.root.None?
      ensures r.Ok? ==> r.value == if |pts| < numClosest then |pts| else numClosest
      ensures r.Ok? ==> IsKnn(outIndices[..r.value], outDistancesSq[..r.value], pts, query)
      ensures r.Ok? ==> forall i :: r.value <= i < outIndices.Length ==> outIndices[i] == old(outIndices[i])
    {
      hide Nearest, StableSort, Take, BelowMax, Usable, Elements;
      var rs := new KNNResultSet(numClosest, outIndices, outDistancesSq, MAX);
      NothingYet(numClosest, pts, query, 1.0);
      var found := FindNeighbors(rs, query, 0.0, {});
      if found.Err? {
        return Err(found.error);
      }
      assert {} + Elements(Iota(|pts|)) == Elements(Iota(|pts|));
      var n := rs.Size();
      r := Ok(n);
      KnnFromContents(rs.contents, numClosest, outIndices[..n], outDistancesSq[..n], pts, query);
    }
  }

  /**
   * The specification of a k-nearest-neighbour answer: distinct points of the data set with their own
   * squared distances, which are the smallest ones of a scan over all points, in ascending order, and
   * no point left out is closer than one listed.
   */
  ghost predicate IsKnn(indices: seq<nat>, dists: seq<real>, pts: seq<Point>, query: Point) {
    && |indices| == |dists| <= |pts|
    && Distinct(indices)
    && (forall j :: 0 <= j < |indices| ==> IsRanked(indices[j], dists[j], j, pts, query))
    && (forall p: nat, j :: p < |pts| && p !in indices && 0 <= j < |dists| ==> dists[j] <= DistTo(pts, query, p))
  }

  ghost predicate IsRanked(index: nat, dist: real, j: nat, pts: seq<Point>, query: Point)
    requires j < |pts|
  {
    index < |pts| && dist == DistTo(pts, query, index) == Ranking(Iota(|pts|), pts, query)[j].dist
  }

  lemma {:induction false} KnnFromContents(c: seq<Entry>, k: nat, indices: seq<nat>, dists: seq<real>,
        pts: seq<Point>, query: Point)
    requires Nearest(c, k, Elements(Iota(|pts|)), pts, query, 1.0)
    requires |c| == |indices| == |dists|
    requires forall j {:trigger c[j]} :: 0 <= j < |c| ==> c[j] == Entry(dists[j], indices[j])
    ensures |c| == (if |pts| < k then |pts| else k) && IsKnn(indices, dists, pts, query)
  {
    hide DistTo, Ranking, Nearest;
    AgreesWithScan(c, k, Iota(|pts|), pts, query, 1.0);
    forall i, j | 0 <= i < j < |indices| ensures indices[i] != indices[j] {
      assert c[i].index != c[j].index;
    }
    forall j | 0 <= j < |indices| ensures IsRanked(indices[j], dists[j], j, pts, query) {
      assert c[j].index in Iota(|pts|);
    }
    forall p: nat, j | p < |pts| && p !in indices && 0 <= j < |dists| ensures dists[j] <= DistTo(pts, query, p) {
      assert c[j].dist == dists[j];
      assert Iota(|pts|)[p] == p;
      LeftOut(c, k, indices, Elements(Iota(|pts|)), pts, query, p, j);
    }
  }

  lemma {:induction false} LeftOut(c: seq<Entry>, k: nat, indices: seq<nat>, S: set<nat>, pts: seq<Point>,
        query: Point, p: nat, j: nat)
    requires Nearest(c, k, S, pts, query, 1.0) && p in S && p !in indices && j < |c| == |indices|
    requires forall i {:trigger c[i]} :: 0 <= i < |c| ==> c[i].index == indices[i]
    ensures c[j].dist <= DistTo(pts, query, p)
  {
    hide DistTo, Nearest;
    ListedOrBeyond(c, k, S, pts, query, 1.0, p);
    InOrder(c, j, |c| - 1);
  }

  /** A rearrangement of 0..n-1 has n elements. */
  lemma {:induction false} AllPoints(vind: seq<nat>, n: nat)
    requires multiset(vind) == multiset(Iota(n))
    ensures |vind| == n && Elements(vind) == Elements(Iota(n))
  {
    assert |multiset(vind)| == |vind| && |multiset(Iota(n))| == n;
    SameElements(vind, Iota(n));
    SameElements(Iota(n), vind);
  }

  lemma {:induction false} SameElements(s: seq<nat>, t: seq<nat>)
    requires multiset(s) == multiset(t)
    ensures Elements(s) <= Elements(t)
  {
    forall x | x in Elements(s) ensures x in Elements(t) {
      var i :| 0 <= i < |s| && s[i] == x;
      assert x in multiset(t);
      var j :| 0 <= j < |t| && t[j] == x;
    }
  }

  lemma {:induction false} AllLive(vind: seq<nat>, live: nat -> bool)
    requires forall i :: live(i)
    ensures LiveIn(vind, 0, |vind|, live) == Elements(vind)
  {
  }

  /** A k-nearest answer is in ascending order. */
  lemma {:induction false} KnnAscends(indices: seq<nat>, dists: seq<real>, pts: seq<Point>, query: Point,
        i: nat, j: nat)
    requires IsKnn(indices, dists, pts, query) && i <= j < |indices|
    ensures dists[i] <= dists[j]
  {
    hide DistTo, Scan;
    StableSortIsStableSort(Scan(Iota(|pts|), pts, query));
    assert IsRanked(indices[i], dists[i], i, pts, query) && IsRanked(indices[j], dists[j], j, pts, query);
  }
}
