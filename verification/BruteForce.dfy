/** The linear scan that an index search must agree with. */
module BruteForce {
  import opened Metric
  import opened Ranges
  import opened ResultSet
  import opened KDSearch

  /** One entry per listed point, in order. */
  ghost function Scan(ids: seq<nat>, pts: seq<Point>, vec: Point): (s: seq<Entry>)
    ensures |s| == |ids|
  {
    seq(|ids|, j requires 0 <= j < |ids| => Entry(DistTo(pts, vec, ids[j]), ids[j]))
  }

  /** The scanned points, nearest first. */
  ghost function Ranking(ids: seq<nat>, pts: seq<Point>, vec: Point): (r: seq<Entry>)
    ensures |r| == |ids|
  {
    StableSort(Scan(ids, pts, vec))
  }

  ghost predicate DistinctIds(s: seq<Entry>) {
    forall i, j :: 0 <= i < j < |s| ==> s[i].index != s[j].index
  }

  ghost function Elements(ids: seq<nat>): set<nat> {
    set j | 0 <= j < |ids| :: ids[j]
  }

  lemma {:induction false} IdsCount(s: seq<Entry>)
    requires DistinctIds(s)
    ensures |Ids(s)| == |s|
  {
    if s != [] {
      var p, x := s[..|s| - 1], s[|s| - 1].index;
      IdsCount(p);
      assert Ids(s) == Ids(p) + {x} by {
        forall y | y in Ids(s) ensures y in Ids(p) + {x} {
          var j :| 0 <= j < |s| && s[j].index == y;
          if j < |p| { assert p[j].index == y; }
        }
        forall y | y in Ids(p) ensures y in Ids(s) {
          var j :| 0 <= j < |p| && p[j].index == y;
          assert s[j].index == y;
        }
      }
      assert x !in Ids(p);
    }
  }

  lemma SubsetCount(a: set<nat>, b: set<nat>)
    requires a <= b
    ensures |a| <= |b| && (|a| == |b| ==> a == b)
  {
    assert b == a + (b - a);
  }

  /** The ranking lists exactly the scanned points, once each, with their own distances, in order. */
  lemma {:induction false} RankingLists(ids: seq<nat>, pts: seq<Point>, vec: Point)
    requires Distinct(ids)
    ensures var r := Ranking(ids, pts, vec);
      && Sorted(r) && DistinctIds(r) && Ids(r) == Elements(ids) && |Elements(ids)| == |ids|
      && forall j :: 0 <= j < |r| ==> r[j].dist == DistTo(pts, vec, r[j].index)
  {
    hide DistTo;
    var s, r := Scan(ids, pts, vec), Ranking(ids, pts, vec);
    StableSortIsStableSort(s);
    KeepsDistinct(s, r);
    SameEntries(s, r);
    assert Ids(s) == Elements(ids) by {
      assert forall j :: 0 <= j < |s| ==> s[j].index == ids[j];
    }
    IdsCount(r);
  }

  /** Rearranging entries keeps the set of indices, and every entry occurred before. */
  lemma {:induction false} SameEntries(s: seq<Entry>, r: seq<Entry>)
    requires multiset(s) == multiset(r)
    ensures Ids(s) == Ids(r)
    ensures forall j :: 0 <= j < |r| ==> exists i :: 0 <= i < |s| && s[i] == r[j]
  {
    forall j | 0 <= j < |r| ensures exists i :: 0 <= i < |s| && s[i] == r[j] {
      assert r[j] in multiset(s);
    }
    forall j | 0 <= j < |s| ensures exists i :: 0 <= i < |r| && r[i] == s[j] {
      assert s[j] in multiset(r);
    }
  }

  /** A listing of nearest points covers them all or is full. */
  lemma {:induction false} ListingSize(c: seq<Entry>, k: nat, ids: seq<nat>, pts: seq<Point>, vec: Point, e: real)
    requires Distinct(ids) && Nearest(c, k, Elements(ids), pts, vec, e)
    ensures |c| == if |ids| < k then |ids| else k
  {
    hide DistTo, Sorted, Ranking;
    RankingLists(ids, pts, vec);
    assert |Elements(ids)| == |ids|;
    IdsCount(c);
    forall x | x in Ids(c) ensures x in Elements(ids) {
      var j :| 0 <= j < |c| && c[j].index == x;
    }
    SubsetCount(Ids(c), Elements(ids));
    if |c| < k {
      forall x | x in Elements(ids) ensures x in Ids(c) {
        assert !Beyond(c, k, x, pts, vec, e);
      }
      assert Elements(ids) == Ids(c);
    }
  }

  /** No listing beats the ranking at any position. */
  lemma {:induction false} NotBelowRank(c: seq<Entry>, r: seq<Entry>, j: nat)
    requires Sorted(c) && Sorted(r) && DistinctIds(c) && DistinctIds(r) && j < |c| && j < |r|
    requires Ids(c) <= Ids(r)
    requires forall i, l :: 0 <= i < |c| && 0 <= l < |r| && c[i].index == r[l].index ==> c[i].dist == r[l].dist
    ensures r[j].dist <= c[j].dist
  {
    if c[j].dist < r[j].dist {
      var a, b := c[..j + 1], r[..j];
      forall x | x in Ids(a) ensures x in Ids(b) {
        var i :| 0 <= i < |a| && a[i].index == x;
        assert c[i].index in Ids(r);
        var l :| 0 <= l < |r| && r[l].index == c[i].index;
        assert c[i].dist <= c[j].dist;
        assert l < j;
        assert b[l].index == x;
      }
      IdsCount(a);
      IdsCount(b);
      SubsetCount(Ids(a), Ids(b));
    }
  }

  /** A point that a listing should have put before position `j` is there. */
  lemma {:induction false} ListedBefore(c: seq<Entry>, k: nat, S: set<nat>, pts: seq<Point>, vec: Point, e: real,
        j: nat,
                                        near: Entry, far: real)
    requires Nearest(c, k, S, pts, vec, e) && 1.0 <= e && j < |c|
    requires near.index in S && near.dist == DistTo(pts, vec, near.index) && near.dist <= far && e * far < c[j].dist
    ensures near.index in Ids(c[..j])
  {
    hide DistTo, Sorted, Nearest;
    ListedOrBeyond(c, k, S, pts, vec, e, near.index);
    ScaleMonotone(near.dist, far, e);
    Farther(near.dist, e);
    if Beyond(c, k, near.index, pts, vec, e) {
      BeyondIsFar(c, k, near.index, pts, vec, e, j);
    }
    var i :| 0 <= i < |c| && c[i].index == near.index;
    if j <= i {
      InOrder(c, j, i);
    }
    assert c[..j][i].index == near.index;
  }

  lemma {:induction false} ListedOrBeyond(c: seq<Entry>, k: nat, S: set<nat>, pts: seq<Point>, vec: Point, e: real,
        x: nat)
    requires Nearest(c, k, S, pts, vec, e) && x in S
    ensures x in Ids(c) || Beyond(c, k, x, pts, vec, e)
    ensures Sorted(c) && forall i :: 0 <= i < |c| && c[i].index == x ==> c[i].dist == DistTo(pts, vec, x)
  {
  }

  lemma BeyondIsFar(c: seq<Entry>, k: nat, p: nat, pts: seq<Point>, vec: Point, e: real, j: nat)
    requires Sorted(c) && Beyond(c, k, p, pts, vec, e) && j < |c|
    ensures c[j].dist <= e * DistTo(pts, vec, p)
  {
    InOrder(c, j, k - 1);
  }

  lemma InOrder(c: seq<Entry>, i: nat, j: nat)
    requires Sorted(c) && i <= j < |c|
    ensures c[i].dist <= c[j].dist
  {
  }

  /** Nor does it fall behind by more than the tolerance. */
  lemma {:induction false} NotAboveRank(c: seq<Entry>, k: nat, S: set<nat>, r: seq<Entry>, pts: seq<Point>,
        vec: Point, e: real, j: nat)
    requires Nearest(c, k, S, pts, vec, e) && 1.0 <= e && j < |c| && j < |r|
    requires Sorted(r) && DistinctIds(r) && Ids(r) == S
    requires forall l :: 0 <= l < |r| ==> r[l].dist == DistTo(pts, vec, r[l].index)
    ensures c[j].dist <= e * r[j].dist
  {
    hide DistTo, Sorted;
    if e * r[j].dist < c[j].dist {
      var a, b := r[..j + 1], c[..j];
      forall x | x in Ids(a) ensures x in Ids(b) {
        var l :| 0 <= l < |a| && a[l].index == x;
        assert r[l].index in Ids(r);
        InOrder(r, l, j);
        ListedBefore(c, k, S, pts, vec, e, j, r[l], r[j].dist);
      }
      IdsCount(a);
      IdsCount(b);
      SubsetCount(Ids(a), Ids(b));
    }
  }

  /** Every listed entry is a scanned point with its own distance. */
  lemma {:induction false} ListingEntries(c: seq<Entry>, k: nat, ids: seq<nat>, pts: seq<Point>, vec: Point, e: real)
    requires Nearest(c, k, Elements(ids), pts, vec, e)
    ensures DistinctIds(c) && Sorted(c) && Ids(c) <= Elements(ids)
    ensures forall j :: 0 <= j < |c| ==> c[j].index in ids && c[j].dist == DistTo(pts, vec, c[j].index)
  {
    hide DistTo;
    forall j | 0 <= j < |c| ensures c[j].index in ids {
      assert c[j].index in Elements(ids);
    }
  }

  /**
   * The search agrees with the scan: as many entries as asked for or as there are, distinct points
   * with their own distances, and at every position a distance between the true one and `e` times
   * it; with no tolerance, exactly the distances of the ranking.
   */
  lemma {:induction false} AgreesWithScan(c: seq<Entry>, k: nat, ids: seq<nat>, pts: seq<Point>, vec: Point, e: real)
    requires Distinct(ids) && 1.0 <= e && Nearest(c, k, Elements(ids), pts, vec, e)
    ensures |c| == if |ids| < k then |ids| else k
    ensures DistinctIds(c) && forall j :: 0 <= j < |c| ==>
      c[j].index in ids && c[j].dist == DistTo(pts, vec, c[j].index)
    ensures forall j :: 0 <= j < |c| ==>
      Ranking(ids, pts, vec)[j].dist <= c[j].dist <= e * Ranking(ids, pts, vec)[j].dist
    ensures e == 1.0 ==> forall j :: 0 <= j < |c| ==> c[j].dist == Ranking(ids, pts, vec)[j].dist
  {
    hide *;
    var r := Ranking(ids, pts, vec);
    RankingLists(ids, pts, vec);
    ListingSize(c, k, ids, pts, vec, e);
    ListingEntries(c, k, ids, pts, vec, e);
    forall j | 0 <= j < |c| ensures r[j].dist <= c[j].dist <= e * r[j].dist {
      SameDistances(c, r, pts, vec);
      NotBelowRank(c, r, j);
      NotAboveRank(c, k, Elements(ids), r, pts, vec, e, j);
    }
  }

  lemma {:induction false} SameDistances(c: seq<Entry>, r: seq<Entry>, pts: seq<Point>, vec: Point)
    requires forall j :: 0 <= j < |c| ==> c[j].dist == DistTo(pts, vec, c[j].index)
    requires forall j :: 0 <= j < |r| ==> r[j].dist == DistTo(pts, vec, r[j].index)
    ensures forall i, l :: 0 <= i < |c| && 0 <= l < |r| && c[i].index == r[l].index ==> c[i].dist == r[l].dist
  {
  }
}
