/** The masternode's geographic lookup: a k-d tree over the edge nodes' positions. */
module Geo {
  import opened Wrappers
  import opened Metric
  import opened KDSearch
  import opened SingleIndex

  datatype Location = Location(latitude: real, longitude: real, x: real, y: real, z: real)

  /** A node's location is unset until it has been looked up. */
  datatype EdgeNode = EdgeNode(ip: string, port: nat, ethAddress: string, heartbeat: nat, location: Option<Location>)

  function PointOf(l: Location): Point { [l.x, l.y, l.z] }

  ghost predicate Located(nodes: seq<EdgeNode>) {
    forall i :: 0 <= i < |nodes| ==> nodes[i].location.Some?
  }

  function Positions(nodes: seq<EdgeNode>): (pts: seq<Point>)
    requires Located(nodes)
    ensures |pts| == |nodes| && Cloud(pts, 3)
  {
    seq(|nodes|, i requires 0 <= i < |nodes| && Located(nodes) => PointOf(nodes[i].location.value))
  }

  /** The square of the straight-line distance between two locations. */
  function SquaredDistance(l: Location, m: Location): real {
    (l.x - m.x) * (l.x - m.x) + (l.y - m.y) * (l.y - m.y) + (l.z - m.z) * (l.z - m.z)
  }

  /** What the index takes for the distance to a node is the distance in space. */
  lemma {:induction false} DistanceInSpace(nodes: seq<EdgeNode>, l: Location, i: nat)
    requires Located(nodes) && i < |nodes|
    ensures var m := nodes[i].location.value;
      DistTo(Positions(nodes), PointOf(l), i) ==
        (l.x - m.x) * (l.x - m.x) + (l.y - m.y) * (l.y - m.y) + (l.z - m.z) * (l.z - m.z)
  {
    var a, b := PointOf(l), PointOf(nodes[i].location.value);
    var t := Terms(a, b);
    assert t[..2][..1] == t[..1] && t[..1][..0] == [];
    assert Sum(t[..0]) == 0.0;
    assert Sum(t[..1]) == t[0];
    assert Sum(t[..2]) == t[0] + t[1];
    assert t[..3] == t;
  }

  /**
   * The answer to a query in terms of locations: as many distinct nodes as were asked for and exist,
   * nearest first, no other node closer than any of them, and then zeros.
   */
  ghost predicate NearestNodes(indices: seq<nat>, n: nat, nodes: seq<EdgeNode>, l: Location)
    requires Located(nodes)
  {
    var m := Available(n, |nodes|);
    && |indices| == n && m <= n
    && (forall i :: m <= i < n ==> indices[i] == 0)
    && (forall i :: 0 <= i < m ==> indices[i] < |nodes|)
    && (forall i, j :: 0 <= i < j < m ==> indices[i] != indices[j])
    && (forall i, j :: 0 <= i < j < m ==> Away(nodes, indices[i], l) <= Away(nodes, indices[j], l))
    && (forall p, i :: 0 <= p < |nodes| && p !in indices[..m] && 0 <= i < m ==>
          Away(nodes, indices[i], l) <= Away(nodes, p, l))
  }

  /** How far node `i` is from `l`, squared. */
  function Away(nodes: seq<EdgeNode>, i: nat, l: Location): real
    requires Located(nodes)
  {
    if i < |nodes| then SquaredDistance(l, nodes[i].location.value) else 0.0
  }

  /** The index's answer is the answer in terms of locations. */
  lemma {:induction false} PaddedIsNearest(indices: seq<nat>, n: nat, nodes: seq<EdgeNode>, l: Location)
    requires Located(nodes) && IsPadded(indices, n, Positions(nodes), PointOf(l))
    ensures NearestNodes(indices, n, nodes, l)
  {
    hide DistTo, SquaredDistance, IsRanked;
    var pts, m := Positions(nodes), Available(n, |nodes|);
    var picks := indices[..m];
    var dists: seq<real> :| IsKnn(picks, dists, pts, PointOf(l));
    forall p: nat | p < |nodes| ensures DistTo(pts, PointOf(l), p) == Away(nodes, p, l) {
      SpaceIsAway(nodes, l, p);
    }
    forall i | 0 <= i < m ensures indices[i] < |nodes| && dists[i] == Away(nodes, indices[i], l) {
      assert picks[i] == indices[i];
      RankedIs(picks[i], dists[i], i, pts, PointOf(l));
    }
    forall i, j | 0 <= i < j < m ensures indices[i] != indices[j] && dists[i] <= dists[j] {
      assert picks[i] != picks[j];
      KnnAscends(picks, dists, pts, PointOf(l), i, j);
    }
  }

  lemma SpaceIsAway(nodes: seq<EdgeNode>, l: Location, i: nat)
    requires Located(nodes) && i < |nodes|
    ensures DistTo(Positions(nodes), PointOf(l), i) == Away(nodes, i, l)
  {
    DistanceInSpace(nodes, l, i);
  }

  lemma RankedIs(index: nat, dist: real, j: nat, pts: seq<Point>, query: Point)
    requires j < |pts| && IsRanked(index, dist, j, pts, query)
    ensures index < |pts| && dist == DistTo(pts, query, index)
  {
  }

  /** How many of `n` requested neighbours there are among `total`. */
  function Available(n: nat, total: nat): nat { if total < n then total else n }

  class TreeData {
    const cloud: seq<EdgeNode>
    const tree: SingleIndexAdaptor

    ghost predicate Valid()
      reads this, tree
    {
      Located(cloud) && tree.Ready() && tree.dim == 3 && tree.leafMax == 10 && tree.pts == Positions(cloud)
    }

    /** A new tree over the given nodes, with leaves of at most ten points. */
    constructor (nodes: seq<EdgeNode>)
      requires Located(nodes)
      ensures Valid() && cloud == nodes && fresh(tree)
    {
      cloud := nodes;
      tree := new SingleIndexAdaptor(3, Positions(nodes), 10);
      new;
      tree.Build();
    }
  }

  /** The answer to a query for `n` neighbours: the nearest ones, then zeros for those that do not exist. */
  ghost predicate IsPadded(indices: seq<nat>, n: nat, pts: seq<Point>, query: Point) {
    var m := Available(n, |pts|);
    && |indices| == n
    && (exists dists: seq<real> :: IsKnn(indices[..m], dists, pts, query))
    && forall i :: m <= i < n ==> indices[i] == 0
  }

  class GeoIndex {
    const MAX: real
    var treeData: TreeData?

    constructor (MAX: real)
      ensures this.MAX == MAX && treeData == null
    {
      this.MAX := MAX;
      treeData := null;
    }

    method SetTreeData(td: TreeData)
      modifies this
      ensures treeData == td
    {
      treeData := td;
    }

    /** Positions of the `n` nodes nearest to `l`; the vector is not cut to the number found. */
    method GetNearestNodes(l: Location, n: nat) returns (indices: seq<nat>)
      requires 0 < n && treeData != null && treeData.Valid()
      requires BelowMax(MAX, treeData.tree.pts, PointOf(l), 1.0)
      ensures IsPadded(indices, n, treeData.tree.pts, PointOf(l))
      ensures NearestNodes(indices, n, treeData.cloud, l)
    {
      var retIndices := new nat[n](i => 0);
      var outDistSqr := new real[n](i => 0.0);
      var found := treeData.tree.KnnSearch(PointOf(l), n, retIndices, outDistSqr, MAX);
      indices := retIndices[..];
      ghost var m := Available(n, |treeData.tree.pts|);
      assert indices[..m] == retIndices[..m];
      PaddedIsNearest(indices, n, treeData.cloud, l);
    }
  }
}
