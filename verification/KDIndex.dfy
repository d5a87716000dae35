/** The data shared by both kinds of index, and building and querying it. */
module KDIndex {
  import opened Wrappers
  import opened Metric
  import opened Ranges
  import opened ResultSet
  import opened KDTree
  import opened KDSearch

  /** The base-class part of an index: the permuted index array, the tree, its box and the recorded size. */
  datatype Index = Index(vind: seq<nat>, root: Option<Tree>, rootBox: seq<Interval>, size: nat)

  /** Whatever tree is present describes exactly the listed points. */
  ghost predicate Usable(ix: Index, pts: seq<Point>, dim: nat, leafMax: nat) {
    && Indexed(pts, dim, ix.vind) && Distinct(ix.vind)
    && (ix.root.Some? ==> Describes(ix.root.value, ix.rootBox, pts, dim, ix.vind, leafMax) && ix.size == |ix.vind|)
  }

  ghost predicate Describes(root: Tree, box: seq<Interval>, pts: seq<Point>, dim: nat, vind: seq<nat>, leafMax: nat) {
    && WellFormed(root, pts, dim, vind, leafMax) && First(root) == 0 && Last(root) == |vind|
    && |box| == dim && TightBox(pts, vind, 0, |vind|, box)
  }

  /** Builds the tree over the listed points, rearranging the list. */
  method BuildIndex(pts: seq<Point>, dim: nat, leafMax: nat, vind: seq<nat>) returns (ix: Index)
    requires 0 < dim && 0 < leafMax && Indexed(pts, dim, vind) && Distinct(vind)
    ensures multiset(ix.vind) == multiset(vind) && |ix.vind| == |vind|
    ensures Usable(ix, pts, dim, leafMax)
    ensures ix.size == |vind| && (ix.root.Some? <==> vind != [])
    ensures ix.root.Some? ==> Planned(ix.root.value, pts, ix.vind, ix.rootBox, leafMax)
  {
    if |vind| == 0 {
      return Index(vind, None, [], 0);
    }
    var a := new nat[|vind|](i requires 0 <= i < |vind| => vind[i]);
    var bbox := new Interval[dim](i => Interval(0.0, 0.0));
    assert a[..] == vind;
    ComputeBoundingBox(pts, dim, a, 0, |vind|, bbox);
    ghost var box0 := bbox[..];
    var root := DivideTree(pts, dim, a, leafMax, 0, |vind|, bbox);
    ix := Index(a[..], Some(root), bbox[..], |vind|);
    WholeRange(vind, a[..]);
    SameBox(pts, vind, a[..], 0, |vind|, box0, bbox[..]);
    KeepsDistinct(vind, a[..]);
  }

  /** Building rearranges the points but leaves their smallest box as it was. */
  lemma {:induction false} SameBox(pts: seq<Point>, s: seq<nat>, t: seq<nat>, lo: nat, hi: nat, a: seq<Interval>,
        b: seq<Interval>)
    requires RangePermuted(s, t, lo, hi) && |a| == |b|
    requires TightBox(pts, s, lo, hi, a) && TightBox(pts, t, lo, hi, b)
    ensures a == b
  {
    PermuteExtremes(pts, s, t, lo, hi);
    forall d | 0 <= d < |a| ensures a[d] == b[d] {
      assert TightSide(pts, s, lo, hi, d, a[d]) && TightSide(pts, t, lo, hi, d, b[d]);
    }
  }

  lemma WholeRange(s: seq<nat>, t: seq<nat>)
    requires RangePermuted(s, t, 0, |s|)
    ensures multiset(s) == multiset(t)
  {
    assert s[0..|s|] == s && t[0..|s|] == t;
  }

  /** All live points of an index. */
  ghost function LivePoints(ix: Index, live: nat -> bool): set<nat> {
    LiveIn(ix.vind, 0, |ix.vind|, live)
  }

  lemma {:induction false} RootSides(root: Tree, box: seq<Interval>, pts: seq<Point>, dim: nat, vind: seq<nat>,
        leafMax: nat)
    requires Describes(root, box, pts, dim, vind, leafMax)
    ensures forall d :: 0 <= d < dim ==> box[d].low <= box[d].high
  {
    forall d | 0 <= d < dim ensures box[d].low <= box[d].high {
      assert TightSide(pts, vind, 0, |vind|, d, box[d]);
    }
  }

  /** Adds the live points of an index to the points a result set lists the nearest of. */
  method Query(rs: KNNResultSet, pts: seq<Point>, vec: Point, ix: Index, live: nat -> bool, epsError: real,
               ghost leafMax: nat, ghost S: set<nat>)
    requires Lists(rs, S, pts, vec, epsError) && 1.0 <= epsError && BelowMax(rs.MAX, pts, vec, epsError)
    requires Usable(ix, pts, |vec|, leafMax) && ix.root.Some?
    requires S !! LivePoints(ix, live)
    modifies rs, rs.indices, rs.dists
    ensures Lists(rs, S + LivePoints(ix, live), pts, vec, epsError)
    ensures Grows(old(rs.count), old(rs.indices[..]), rs.count, rs.indices[..])
  {
    hide Nearest, WellFormed, TightBox, LiveIn, StableSort, Sum, BelowMax;
    var dists := new real[|vec|](i => 0.0);
    RootSides(ix.root.value, ix.rootBox, pts, |vec|, ix.vind, leafMax);
    var distsq := ComputeInitialDistances(vec, ix.rootBox, dists);
    InitialBounds(dists[..], pts, vec, ix.vind, 0, |ix.vind|, ix.rootBox);
    var _ := SearchLevel(rs, pts, vec, ix.root.value, ix.vind, live, distsq, dists, epsError, leafMax, S);
  }
}
