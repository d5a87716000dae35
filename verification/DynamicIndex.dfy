/** The dynamic index: a forest of static trees whose sizes follow a binary counter. */
module DynamicIndex {
  import opened Wrappers
  import opened Metric
  import opened Ranges
  import opened ResultSet
  import opened KDTree
  import opened KDSearch
  import opened KDIndex
  import opened BruteForce
  import opened BinaryCounter

  /** Sub-tree `i` of a forest of `n` points: 2^i points if bit `i` of `n` is set, none otherwise. */
  ghost predicate Holds(ix: Index, n: nat, i: nat, pts: seq<Point>, dim: nat, leafMax: nat) {
    && Usable(ix, pts, dim, leafMax)
    && |ix.vind| == (if Bit(n, i) then Pow2(i) else 0)
    && (ix.root.None? <==> ix.vind == [])
    && Members(ix.vind, n, i)
  }

  ghost predicate Members(vind: seq<nat>, n: nat, i: nat) {
    forall p: nat :: p in vind <==> p < n && TreeOf(n, p) == i
  }

  /** The points gathered from the trees below `i` while they are being merged. */
  ghost predicate Merging(merged: seq<nat>, n: nat, i: nat) {
    && Distinct(merged) && |merged| == Pow2(i) - 1
    && forall p: nat :: p in merged <==> p < n && TreeOf(n, p) < i
  }

  lemma {:induction false} MergeOne(merged: seq<nat>, n: nat, i: nat, ix: Index, pts: seq<Point>, dim: nat,
        leafMax: nat)
    requires Merging(merged, n, i) && Bit(n, i) && Holds(ix, n, i, pts, dim, leafMax)
    ensures Merging(merged + ix.vind, n, i + 1)
  {
    hide Usable, Bit, TreeOf;
    assert Distinct(ix.vind) by { DistinctPoints(ix, pts, dim, leafMax); }
    assert forall j :: 0 <= j < |merged| ==> merged[j] in merged;
    assert forall j :: 0 <= j < |ix.vind| ==> ix.vind[j] in ix.vind;
  }

  lemma DistinctPoints(ix: Index, pts: seq<Point>, dim: nat, leafMax: nat)
    requires Usable(ix, pts, dim, leafMax)
    ensures Distinct(ix.vind) && Indexed(pts, dim, ix.vind)
  {
  }

  /** The merged points and the new one are what the tree at the lowest zero must hold. */
  lemma {:induction false} MergeDone(merged: seq<nat>, n: nat, pos: nat)
    requires Merging(merged, n, pos) && LowestZero(n, pos)
    ensures Distinct(merged + [n]) && |merged + [n]| == Pow2(pos)
    ensures Members(merged + [n], n + 1, pos)
  {
    hide TreeOf, LowestZero;
    assert forall j :: 0 <= j < |merged| ==> merged[j] in merged;
    forall p: nat ensures p in merged + [n] <==> p < n + 1 && TreeOf(n + 1, p) == pos {
      if p <= n { IncrementTree(n, pos, p); }
    }
  }

  lemma {:induction false} NewTree(ix: Index, merged: seq<nat>, n: nat, pos: nat, pts: seq<Point>, dim: nat,
        leafMax: nat)
    requires Merging(merged, n, pos) && LowestZero(n, pos)
    requires Usable(ix, pts, dim, leafMax) && ix.root.Some? && multiset(ix.vind) == multiset(merged + [n])
    ensures Holds(ix, n + 1, pos, pts, dim, leafMax)
  {
    hide Usable, Distinct, LowestZero, Merging, Bit;
    MergeDone(merged, n, pos);
    assert |ix.vind| == |multiset(merged + [n])|;
    IncrementBits(n, pos, pos);
    forall p: nat ensures p in ix.vind <==> p in merged + [n] {
      assert p in multiset(ix.vind) <==> p in multiset(merged + [n]);
    }
  }

  lemma {:induction false} HigherTree(ix: Index, n: nat, pos: nat, k: nat, pts: seq<Point>, dim: nat, leafMax: nat)
    requires LowestZero(n, pos) && pos < k && Holds(ix, n, k, pts, dim, leafMax)
    ensures Holds(ix, n + 1, k, pts, dim, leafMax)
  {
    hide Usable, LowestZero, TreeOf, Bit;
    IncrementBits(n, pos, k);
    forall p: nat ensures p in ix.vind <==> p < n + 1 && TreeOf(n + 1, p) == k {
      if p <= n { IncrementTree(n, pos, p); }
    }
  }

  lemma {:induction false} LowerTree(ix: Index, n: nat, pos: nat, k: nat, pts: seq<Point>, dim: nat, leafMax: nat)
    requires LowestZero(n, pos) && k < pos && ix.vind == [] && ix.root.None? && Cloud(pts, dim)
    ensures Holds(ix, n + 1, k, pts, dim, leafMax)
  {
    hide LowestZero, TreeOf, Bit;
    IncrementBits(n, pos, k);
    forall p: nat ensures p in ix.vind <==> p < n + 1 && TreeOf(n + 1, p) == k {
      if p <= n { IncrementTree(n, pos, p); }
    }
  }

  ghost predicate Forest(index: seq<Index>, n: nat, pts: seq<Point>, dim: nat, leafMax: nat) {
    forall i :: 0 <= i < |index| ==> Holds(index[i], n, i, pts, dim, leafMax)
  }

  /** One addition to a forest. */
  lemma {:induction false} GrownForest(trees: seq<Index>, grown: seq<Index>, merged: seq<nat>, n: nat, pos: nat,
                                       pts: seq<Point>, dim: nat, leafMax: nat)
    requires Forest(trees, n, pts, dim, leafMax) && pos < |grown| == |trees| && Cloud(pts, dim)
    requires Merging(merged, n, pos) && LowestZero(n, pos)
    requires Usable(grown[pos], pts, dim, leafMax) && grown[pos].root.Some?
    requires multiset(grown[pos].vind) == multiset(merged + [n])
    requires forall k :: 0 <= k < pos ==> grown[k].vind == [] && grown[k].root.None?
    requires forall k :: pos < k < |grown| ==> grown[k] == trees[k]
    ensures Forest(grown, n + 1, pts, dim, leafMax)
  {
    hide Usable, TreeOf, Bit, Distinct, Merging, LowestZero, Holds;
    NewTree(grown[pos], merged, n, pos, pts, dim, leafMax);
    forall k | 0 <= k < |grown| ensures Holds(grown[k], n + 1, k, pts, dim, leafMax) {
      if pos < k {
        HigherTree(trees[k], n, pos, k, pts, dim, leafMax);
      } else if k < pos {
        LowerTree(grown[k], n, pos, k, pts, dim, leafMax);
      }
    }
  }

  /** The entry of point `p` after the forest has grown from `n` to `m` points. */
  ghost function MarkAfter(mark: int, n: nat, m: nat, p: nat): int
    requires p < n <= m
  {
    if TreeOf(m, p) == TreeOf(n, p) then mark else TreeOf(m, p)
  }

  /** The entries after growing: moved and new points carry their tree, the others what they carried before. */
  ghost predicate MarksGrow(before: seq<int>, n: nat, after: seq<int>, m: nat) {
    && n <= |before| && n <= m <= |after|
    && (forall p: nat {:trigger after[p]} :: p < n ==> after[p] == MarkAfter(before[p], n, m, p))
    && (forall p: nat {:trigger after[p]} :: n <= p < m ==> after[p] == TreeOf(m, p))
  }

  lemma {:induction false} MarksGrowTransitive(a: seq<int>, n: nat, b: seq<int>, m: nat, c: seq<int>, k: nat)
    requires MarksGrow(a, n, b, m) && MarksGrow(b, m, c, k)
    ensures MarksGrow(a, n, c, k)
  {
    forall p: nat | p < k ensures c[p] == if p < n then MarkAfter(a[p], n, k, p) else TreeOf(k, p) {
      if p < n {
        assert b[p] == MarkAfter(a[p], n, m, p);
        TreesGrow(n, m, p);
      }
      if p < m {
        assert c[p] == MarkAfter(b[p], m, k, p);
        TreesGrow(m, k, p);
      }
    }
  }

  /** One addition writes the new tree's number over the entries of all points it moves. */
  lemma {:induction false} MarksGrowOne(before: seq<int>, after: seq<int>, n: nat, pos: nat)
    requires LowestZero(n, pos) && n < |before| == |after|
    requires forall p: nat {:trigger after[p]} :: p < |after| ==>
      after[p] == if p == n || (p < n && TreeOf(n, p) < pos) then pos else before[p]
    ensures MarksGrow(before, n, after, n + 1)
  {
    hide LowestZero;
    forall p: nat | p <= n ensures after[p] == if p < n then MarkAfter(before[p], n, n + 1, p) else TreeOf(n + 1, p) {
      IncrementTree(n, pos, p);
    }
  }

  /** What has been done to a forest: the next point added, or a point removed. */
  datatype Op = Add | Remove(p: nat)

  ghost function Adds(ops: seq<Op>): nat {
    if ops == [] then 0 else Adds(ops[..|ops| - 1]) + if ops[|ops| - 1].Add? then 1 else 0
  }

  /** The marks after a history of operations. */
  ghost function MarksAfter(ops: seq<Op>): (m: seq<int>)
    ensures |m| == Adds(ops)
  {
    if ops == [] then []
    else
      var before := MarksAfter(ops[..|ops| - 1]);
      var n := |before|;
      match ops[|ops| - 1]
      case Add => seq(n + 1, p requires 0 <= p <= n => if p < n then
          MarkAfter(before[p], n, n + 1, p) else TreeOf(n + 1, p))
      case Remove(p) => if p < n then before[p := -1] else before
  }

  /** Removal number `k` was of `p`, then stored, and its tree has not been merged since. */
  ghost predicate StillRemoved(ops: seq<Op>, k: nat, p: nat)
    requires p < Adds(ops)
  {
    && k < |ops| && ops[k] == Remove(p) && p < Adds(ops[..k])
    && TreeOf(Adds(ops[..k]), p) == TreeOf(Adds(ops), p)
  }

  lemma {:induction false} AddsGrow(ops: seq<Op>, k: nat)
    requires k <= |ops|
    ensures Adds(ops[..k]) <= Adds(ops)
  {
    if k < |ops| {
      AddsGrow(ops[..|ops| - 1], k);
      assert ops[..|ops| - 1][..k] == ops[..k];
    } else {
      assert ops[..k] == ops;
    }
  }

  /** One more operation, seen from an earlier removal. */
  lemma {:induction false} StillRemovedStep(ops: seq<Op>, op: Op, k: nat, p: nat)
    requires p < Adds(ops) && k < |ops|
    ensures Adds(ops + [op]) == Adds(ops) + if op.Add? then 1 else 0
    ensures StillRemoved(ops + [op], k, p) <==>
            StillRemoved(ops, k, p) && TreeOf(Adds(ops + [op]), p) == TreeOf(Adds(ops), p)
  {
    assert (ops + [op])[..|ops|] == ops;
    assert (ops + [op])[..k] == ops[..k];
    if p < Adds(ops[..k]) {
      AddsGrow(ops, k);
      TreesGrow(Adds(ops[..k]), Adds(ops), p);
      TreesGrow(Adds(ops), Adds(ops + [op]), p);
    }
  }

  /**
   * After any history of additions and removals a stored point is marked as removed exactly if one of
   * its removals has not been undone by a merge of its tree; otherwise it is marked with its tree.
   */
  lemma {:induction false} MarksTellHistory(ops: seq<Op>, p: nat)
    requires p < Adds(ops)
    ensures MarksAfter(ops)[p] == if exists k :: StillRemoved(ops, k, p) then -1 else TreeOf(Adds(ops), p)
    decreases |ops|
  {
    hide TreeOf, StillRemoved, Adds;
    AddsStep(ops);
    var last := |ops| - 1;
    var before, op := ops[..last], ops[last];
    assert ops == before + [op];
    if p < Adds(before) {
      MarksTellHistory(before, p);
      forall k: nat | k < last
        ensures StillRemoved(ops, k, p) <==>
                StillRemoved(before, k, p) && TreeOf(Adds(ops), p) == TreeOf(Adds(before), p)
      {
        StillRemovedStep(before, op, k, p);
      }
    }
    LastRemoval(ops, p);
    forall k: nat | StillRemoved(ops, k, p) ensures k <= last && p < Adds(before) {
      RemovalBound(ops, k, p);
    }
    if p < Adds(before) {
      forall k: nat | StillRemoved(before, k, p) ensures k < last {
        RemovalBound(before, k, p);
      }
    }
  }

  lemma AddsStep(ops: seq<Op>)
    requires 0 < Adds(ops)
    ensures ops != [] && Adds(ops) == Adds(ops[..|ops| - 1]) + if ops[|ops| - 1].Add? then 1 else 0
  {
  }

  lemma LastRemoval(ops: seq<Op>, p: nat)
    requires ops != [] && p < Adds(ops)
    ensures StillRemoved(ops, |ops| - 1, p) <==> ops[|ops| - 1] == Remove(p)
  {
  }

  lemma {:induction false} RemovalBound(ops: seq<Op>, k: nat, p: nat)
    requires p < Adds(ops) && StillRemoved(ops, k, p)
    ensures k < |ops| && p < Adds(ops[..|ops| - 1])
  {
    AddsGrow(ops[..|ops| - 1], k);
    assert ops[..|ops| - 1][..k] == ops[..k];
  }

  class DynamicIndexAdaptor {
    var pts: seq<Point>       // the caller's data set, which may grow
    const dim: nat
    const leafMax: nat
    const treeCount: nat
    var pointCount: nat
    var treeIndex: seq<int>   // per point: the number of the tree holding it, or -1 once removed
    var index: seq<Index>
    ghost var history: seq<Op>

    ghost predicate Consistent()
      reads this
    {
      && 0 < dim && 0 < leafMax && Cloud(pts, dim)
      && |index| == treeCount && pointCount < Pow2(treeCount)
      && pointCount <= |pts| && pointCount <= |treeIndex|
      && Forest(index, pointCount, pts, dim, leafMax)
      && Adds(history) == pointCount && treeIndex[..pointCount] == MarksAfter(history)
    }

    ghost predicate Valid()
      reads this
    {
      Consistent() && |treeIndex| == pointCount
    }

    /** The inner copy loop of a merge: all points of tree `i` go to tree `pos`. */
    method MoveInto(i: nat, pos: nat)
      requires i < |index| && pos < |index| && i != pos
      requires forall j :: 0 <= j < |index[i].vind| ==> index[i].vind[j] < |treeIndex|
      modifies this`index, this`treeIndex
      ensures index == old(index)[pos := old(index[pos]).(vind := old(index[pos].vind) + old(index[i].vind))]
      ensures |treeIndex| == old(|treeIndex|)
      ensures forall p: nat {:trigger treeIndex[p]} :: p < |treeIndex| ==>
        treeIndex[p] == if p in old(index[i].vind) then pos else old(treeIndex[p])
    {
      ghost var target, source := index[pos].vind, index[i].vind;
      assert target + source[..0] == target;
      for j := 0 to |index[i].vind|
        invariant index == old(index)[pos := old(index[pos]).(vind := target + source[..j])]
        invariant |treeIndex| == old(|treeIndex|)
        invariant forall p: nat {:trigger treeIndex[p]} :: p < |treeIndex| ==>
          treeIndex[p] == if p in source[..j] then pos else old(treeIndex[p])
      {
        assert target + source[..j + 1] == target + source[..j] + [source[j]];
        assert source[..j + 1] == source[..j] + [source[j]];
        index := index[pos := index[pos].(vind := index[pos].vind + [index[i].vind[j]])];
        treeIndex := treeIndex[index[i].vind[j] := pos];
      }
      assert source[..|source|] == source;
    }

    /** Empties all trees below the lowest zero into the tree there. */
    method MergeSmaller(pos: nat)
      requires Consistent() && LowestZero(pointCount, pos) && pos < treeCount && pointCount < |treeIndex|
      modifies this`index, this`treeIndex
      ensures |index| == treeCount && Merging(index[pos].vind, pointCount, pos)
      ensures forall k :: 0 <= k < pos ==> index[k].vind == [] && index[k].root.None?
      ensures forall k :: pos < k < treeCount ==> index[k] == old(index[k])
      ensures |treeIndex| == old(|treeIndex|)
      ensures forall p: nat {:trigger treeIndex[p]} :: p < |treeIndex| ==>
        treeIndex[p] == if p == pointCount || (p < pointCount &&
            TreeOf(pointCount, p) < pos) then pos else old(treeIndex[p])
    {
      hide Usable, TreeOf, Bit, Pow2, Distinct;
      ghost var n, trees, marks := pointCount, index, treeIndex;
      index := index[pos := index[pos].(vind := [])];
      treeIndex := treeIndex[pointCount := pos];
      EmptyMerge(n);
      for i := 0 to pos
        invariant |index| == treeCount && Merging(index[pos].vind, n, i)
        invariant forall k :: 0 <= k < i ==> index[k].vind == [] && index[k].root.None?
        invariant forall k :: i <= k < treeCount && k != pos ==> index[k] == trees[k]
        invariant |treeIndex| == |marks|
        invariant forall p: nat {:trigger treeIndex[p]} :: p < |treeIndex| ==>
          treeIndex[p] == if p == n || (p < n && TreeOf(n, p) < i) then pos else marks[p]
      {
        assert Holds(trees[i], n, i, pts, dim, leafMax);
        MergeOne(index[pos].vind, n, i, trees[i], pts, dim, leafMax);
        forall j | 0 <= j < |index[i].vind| ensures index[i].vind[j] < |treeIndex| {
          assert index[i].vind[j] in index[i].vind;
        }
        MoveInto(i, pos);
        index := index[i := index[i].(vind := [], root := None)];
      }
    }

    /** Inserts the next point of the data set: one increment of the counter. */
    method AddNext(idx: nat)
      requires Consistent() && idx == pointCount < |pts| && pointCount < |treeIndex| && pointCount + 1 < Pow2(treeCount)
      modifies this`index, this`treeIndex, this`pointCount, this`history
      ensures history == old(history) + [Add]
      ensures Consistent() && pointCount == old(pointCount) + 1 && |treeIndex| == old(|treeIndex|)
      ensures MarksGrow(old(treeIndex), old(pointCount), treeIndex, pointCount)
    {
      hide Usable, TreeOf, Bit, Pow2, Distinct, Merging, LowestZero, Forest, MarksGrow, MarksAfter, Adds;
      ghost var n, trees, marks := pointCount, index, treeIndex;
      var pos := First0Bit(pointCount);
      LowestZeroBelow(n, pos, treeCount);
      MergeSmaller(pos);
      ghost var merged := index[pos].vind;
      index := index[pos := index[pos].(vind := index[pos].vind + [idx])];
      PointsToBuild(merged, n, pos, pts, dim);
      var built := BuildIndex(pts, dim, leafMax, index[pos].vind);
      index := index[pos := built];
      pointCount := pointCount + 1;
      GrownForest(trees, index, merged, n, pos, pts, dim, leafMax);
      MarksGrowOne(marks, treeIndex, n, pos);
      MarksAfterAdd(history, marks, n, treeIndex);
      history := history + [Add];
    }

    /**
     * An empty forest able to hold fewer than 2^treeCount points, filled with the initial data set.
     * `logarithm` is the program's binary logarithm of the maximum number of points.
     */
    constructor (dim: nat, pts: seq<Point>, leafMax: nat, maximumPointCount: nat, logarithm: nat)
      requires 0 < dim && 0 < leafMax && Cloud(pts, dim) && 0 < maximumPointCount
      requires Truncated(logarithm, maximumPointCount) && |pts| < Pow2(logarithm)
      ensures Valid() && pointCount == |pts|
      ensures this.pts == pts && this.dim == dim && this.leafMax == leafMax && treeCount == logarithm
      ensures forall p :: 0 <= p < |pts| ==> treeIndex[p] == TreeOf(|pts|, p)
    {
      this.dim, this.pts, this.leafMax, this.treeCount := dim, pts, leafMax, logarithm;
      pointCount, treeIndex, history := 0, [], [];
      index := seq(logarithm, _ => Index([], None, [], 0));
      new;
      EmptyForest(index, pts, dim, leafMax);
      if |pts| > 0 {
        AddPoints(0, |pts| - 1);
      }
    }

    /** Inserts points `start..end` of the data set, which must be the next ones not yet stored. */
    method AddPoints(start: nat, end: nat)
      requires Valid() && start == pointCount <= end < |pts| && end + 1 < Pow2(treeCount)
      modifies this`index, this`treeIndex, this`pointCount, this`history
      ensures Valid() && pointCount == end + 1
      ensures history == old(history) + seq(end + 1 - start, _ => Add)
      ensures MarksGrow(old(treeIndex), old(pointCount), treeIndex, pointCount)
    {
      hide TreeOf, Pow2, Forest;
      var count := end - start + 1;
      ghost var n, marks, past := pointCount, treeIndex, history;
      treeIndex := treeIndex + seq(count, _ => 0);
      for idx := start to end + 1
        invariant Consistent() && pointCount == idx && |treeIndex| == end + 1
        invariant history == past + seq(idx - start, _ => Add)
        invariant MarksGrow(marks, n, treeIndex, pointCount)
      {
        ghost var m, before := pointCount, treeIndex;
        AddNext(idx);
        MarksGrowTransitive(marks, n, before, m, treeIndex, pointCount);
      }
    }

    /** Marks a stored point as removed; its entry in the tree stays. */
    method RemovePoint(idx: nat)
      requires Valid()
      modifies this`treeIndex, this`history
      ensures Valid() && history == old(history) + if idx < pointCount then [Remove(idx)] else []
      ensures treeIndex == if idx < pointCount then old(treeIndex)[idx := -1] else old(treeIndex)
    {
      if idx >= pointCount {
        return;
      }
      treeIndex := treeIndex[idx := -1];
      MarksAfterRemove(history, idx);
      history := history + [Remove(idx)];
    }

    /** The caller appends points to the data set. */
    method AppendData(more: seq<Point>)
      requires Valid() && Cloud(more, dim)
      modifies this`pts
      ensures Valid() && pts == old(pts) + more
    {
      forall i | 0 <= i < |index| ensures Holds(index[i], pointCount, i, pts + more, dim, leafMax) {
        MoreData(index[i], pointCount, i, pts, more, dim, leafMax);
      }
      pts := pts + more;
    }

    /**
     * One result set is carried through all trees. It ends up listing the nearest of all points not
     * marked as removed, as a scan over those points would.
     */
    method FindNeighbors(rs: KNNResultSet, vec: Point, eps: real) returns (full: bool)
      requires Valid() && |vec| == dim && 0.0 <= eps
      requires Lists(rs, {}, pts, vec, 1.0 + eps) && BelowMax(rs.MAX, pts, vec, 1.0 + eps)
      modifies rs, rs.indices, rs.dists
      ensures Lists(rs, Live(treeIndex), pts, vec, 1.0 + eps)
      ensures full <==> rs.count == rs.capacity
      ensures Grows(old(rs.count), old(rs.indices[..]), rs.count, rs.indices[..])
    {
      hide Nearest, LiveIn, StableSort, BelowMax, Usable, TreeOf, Bit, Pow2, Members, Take;
      var marks := treeIndex;
      var live := (p: nat) => p < |marks| && marks[p] != -1;
      ghost var n, before := rs.count, rs.indices[..];
      NoneYet(marks, pointCount);
      for i := 0 to treeCount
        invariant Lists(rs, LiveBelow(marks, pointCount, i), pts, vec, 1.0 + eps)
        invariant Grows(n, before, rs.count, rs.indices[..])
      {
        ghost var m, mid := rs.count, rs.indices[..];
        assert Holds(index[i], pointCount, i, pts, dim, leafMax);
        LiveStep(index[i], marks, pointCount, i, pts, dim, leafMax, live);
        if index[i].size != 0 && index[i].root.Some? {
          Query(rs, pts, vec, index[i], live, 1.0 + eps, leafMax, LiveBelow(marks, pointCount, i));
          GrowsTransitive(n, before, m, mid, rs.count, rs.indices[..]);
        }
      }
      AllBelow(marks, pointCount, treeCount);
      full := rs.Full();
    }
  }

  /** The points not marked as removed. */
  ghost function Live(marks: seq<int>): set<nat> {
    set p: nat | p < |marks| && marks[p] != -1
  }

  /** Those held by the first `i` trees. */
  ghost function LiveBelow(marks: seq<int>, n: nat, i: nat): set<nat>
    requires n == |marks|
  {
    set p: nat | p < |marks| && marks[p] != -1 && TreeOf(n, p) < i
  }

  lemma NoneYet(marks: seq<int>, n: nat)
    requires n == |marks|
    ensures LiveBelow(marks, n, 0) == {}
  {
  }

  lemma {:induction false} AllBelow(marks: seq<int>, n: nat, t: nat)
    requires n == |marks| < Pow2(t)
    ensures LiveBelow(marks, n, t) == Live(marks)
  {
    hide Bit, TreeOf;
    forall p: nat | p < n ensures TreeOf(n, p) < t {
      HeldBySetBit(n, p);
      BitBound(n, TreeOf(n, p));
      Pow2Monotone(t, TreeOf(n, p));
    }
  }

  lemma {:induction false} Pow2Monotone(a: nat, b: nat)
    ensures a <= b ==> Pow2(a) <= Pow2(b)
  {
    if a < b {
      Pow2Monotone(a, b - 1);
    }
  }

  /** Passing one more tree. */
  lemma {:induction false} LiveStep(ix: Index, marks: seq<int>, n: nat, i: nat, pts: seq<Point>, dim: nat,
        leafMax: nat, live: nat -> bool)
    requires n == |marks| && Holds(ix, n, i, pts, dim, leafMax)
    requires forall p: nat :: live(p) <==> p < |marks| && marks[p] != -1
    ensures Usable(ix, pts, dim, leafMax)
    ensures ix.size == 0 || ix.root.None? ==> LiveBelow(marks, n, i + 1) == LiveBelow(marks, n, i)
    ensures LiveBelow(marks, n, i) + LivePoints(ix, live) == LiveBelow(marks, n, i + 1)
    ensures LiveBelow(marks, n, i) !! LivePoints(ix, live)
  {
    hide TreeOf, Bit, Pow2;
    forall p: nat ensures p in LivePoints(ix, live) <==> p < n && marks[p] != -1 && TreeOf(n, p) == i {
      if p in ix.vind {
        var j :| 0 <= j < |ix.vind| && ix.vind[j] == p;
      }
    }
    if ix.root.Some? {
      assert ix.size == |ix.vind|;
    }
  }

  lemma {:induction false} EmptyForest(index: seq<Index>, pts: seq<Point>, dim: nat, leafMax: nat)
    requires Cloud(pts, dim) && forall i :: 0 <= i < |index| ==> index[i] == Index([], None, [], 0)
    ensures Forest(index, 0, pts, dim, leafMax)
  {
    forall i | 0 <= i < |index| ensures !Bit(0, i) {
      ZeroBits(i);
    }
  }

  lemma {:induction false} ZeroBits(i: nat)
    ensures !Bit(0, i)
  {
    if i > 0 {
      ZeroBits(i - 1);
    }
  }

  /** A tree does not depend on points appended to the data set. */
  lemma {:induction false} MoreData(ix: Index, n: nat, i: nat, pts: seq<Point>, more: seq<Point>, dim: nat,
        leafMax: nat)
    requires Holds(ix, n, i, pts, dim, leafMax) && Cloud(more, dim)
    ensures Holds(ix, n, i, pts + more, dim, leafMax)
  {
    if ix.root.Some? {
      MoreDataTree(ix.root.value, pts, more, dim, ix.vind, leafMax);
      forall d | 0 <= d < dim ensures TightSide(pts + more, ix.vind, 0, |ix.vind|, d, ix.rootBox[d]) {
        assert TightSide(pts, ix.vind, 0, |ix.vind|, d, ix.rootBox[d]);
        MoreDataSide(pts, more, dim, ix.vind, 0, |ix.vind|, d);
      }
    }
  }

  lemma MoreDataSide(pts: seq<Point>, more: seq<Point>, dim: nat, vind: seq<nat>, lo: nat, hi: nat, d: nat)
    requires Indexed(pts, dim, vind) && hi <= |vind|
    ensures forall v :: IsMin(pts, vind, lo, hi, d, v) ==> IsMin(pts + more, vind, lo, hi, d, v)
    ensures forall v :: IsMax(pts, vind, lo, hi, d, v) ==> IsMax(pts + more, vind, lo, hi, d, v)
  {
    assert forall j :: lo <= j < hi ==> Coord(pts, vind, j, d) == Coord(pts + more, vind, j, d);
  }

  lemma {:induction false} MoreDataTree(t: Tree, pts: seq<Point>, more: seq<Point>, dim: nat, vind: seq<nat>,
        leafMax: nat)
    requires Indexed(pts, dim, vind) && WellFormed(t, pts, dim, vind, leafMax)
    ensures WellFormed(t, pts + more, dim, vind, leafMax)
  {
    if t.Node? {
      MoreDataTree(t.child1, pts, more, dim, vind, leafMax);
      MoreDataTree(t.child2, pts, more, dim, vind, leafMax);
      MoreDataSide(pts, more, dim, vind, First(t.child1), Last(t.child1), t.divfeat);
      MoreDataSide(pts, more, dim, vind, First(t.child2), Last(t.child2), t.divfeat);
    }
  }

  lemma {:induction false} MarksAfterAdd(ops: seq<Op>, before: seq<int>, n: nat, after: seq<int>)
    requires Adds(ops) == n && n <= |before| && before[..n] == MarksAfter(ops) && MarksGrow(before, n, after, n + 1)
    ensures Adds(ops + [Add]) == n + 1 && after[..n + 1] == MarksAfter(ops + [Add])
  {
    hide TreeOf;
    assert (ops + [Add])[..|ops|] == ops;
    var m := MarksAfter(ops + [Add]);
    forall p: nat | p < n + 1 ensures after[p] == m[p] {
      if p < n { assert before[p] == before[..n][p]; }
    }
  }

  lemma {:induction false} MarksAfterRemove(ops: seq<Op>, p: nat)
    ensures Adds(ops + [Remove(p)]) == Adds(ops)
    ensures MarksAfter(ops + [Remove(p)]) == if p < Adds(ops) then MarksAfter(ops)[p := -1] else MarksAfter(ops)
  {
    assert (ops + [Remove(p)])[..|ops|] == ops;
  }

  lemma EmptyMerge(n: nat)
    ensures Merging([], n, 0)
  {
  }

  lemma {:induction false} PointsToBuild(merged: seq<nat>, n: nat, pos: nat, pts: seq<Point>, dim: nat)
    requires Merging(merged, n, pos) && LowestZero(n, pos) && n < |pts| && Cloud(pts, dim)
    ensures Indexed(pts, dim, merged + [n]) && Distinct(merged + [n])
  {
    MergeDone(merged, n, pos);
    assert forall j :: 0 <= j < |merged| ==> merged[j] in merged;
  }

  /** The points not marked as removed, in ascending order. */
  ghost function LiveIds(marks: seq<int>): (ids: seq<nat>)
    ensures forall p: nat :: p in ids <==> p < |marks| && marks[p] != -1
  {
    if marks == [] then []
    else
      var last := |marks| - 1;
      LiveIds(marks[..last]) + if marks[last] != -1 then [last] else []
  }

  lemma {:induction false} LiveIdsDistinct(marks: seq<int>)
    ensures Distinct(LiveIds(marks))
  {
    if marks != [] {
      var last := |marks| - 1;
      var rest := LiveIds(marks[..last]);
      LiveIdsDistinct(marks[..last]);
      forall j | 0 <= j < |rest| ensures rest[j] != last {
        assert rest[j] in rest;
      }
    }
  }

  /** The answer of a forest search, compared with a scan over the points not marked as removed. */
  lemma {:induction false} ForestAgreesWithScan(c: seq<Entry>, k: nat, marks: seq<int>, pts: seq<Point>, vec: Point)
    requires Nearest(c, k, Live(marks), pts, vec, 1.0)
    ensures |c| == if |LiveIds(marks)| < k then |LiveIds(marks)| else k
    ensures DistinctIds(c)
    ensures forall j :: 0 <= j < |c| ==>
      c[j].index < |marks| && marks[c[j].index] != -1 && c[j].dist == DistTo(pts, vec, c[j].index)
    ensures forall j :: 0 <= j < |c| ==> c[j].dist == Ranking(LiveIds(marks), pts, vec)[j].dist
  {
    hide Nearest, DistTo, Ranking;
    var ids := LiveIds(marks);
    forall p: nat ensures p in Elements(ids) <==> p in ids {
      if p in Elements(ids) {
        var j :| 0 <= j < |ids| && ids[j] == p;
      }
    }
    assert Elements(ids) == Live(marks);
    LiveIdsDistinct(marks);
    AgreesWithScan(c, k, ids, pts, vec, 1.0);
  }

  /** Every stored point is in exactly one tree, and tree `i` holds 2^i points or none. */
  lemma {:induction false} ForestPartitions(index: seq<Index>, n: nat, pts: seq<Point>, dim: nat, leafMax: nat, p: nat)
    requires Forest(index, n, pts, dim, leafMax) && p < n < Pow2(|index|)
    ensures TreeOf(n, p) < |index|
    ensures forall i :: 0 <= i < |index| ==> (p in index[i].vind <==> i == TreeOf(n, p))
    ensures forall i :: 0 <= i < |index| ==> |index[i].vind| == if Bit(n, i) then Pow2(i) else 0
  {
    hide Usable, Bit, TreeOf;
    HeldBySetBit(n, p);
    BitBound(n, TreeOf(n, p));
    Pow2Monotone(|index|, TreeOf(n, p));
    forall i | 0 <= i < |index| ensures p in index[i].vind <==> i == TreeOf(n, p) {
      assert Holds(index[i], n, i, pts, dim, leafMax);
    }
  }

  /**
   * A removal is undone when the point's tree is merged: the mark lasts exactly while the counter
   * has not carried past that tree's bit.
   */
  lemma {:induction false} RemovalLasts(before: seq<int>, n: nat, after: seq<int>, m: nat, p: nat)
    requires MarksGrow(before, n, after, m) && p < n && before[p] == -1
    ensures var span := Pow2(TreeOf(n, p) + 1);
      after[p] == -1 <==> m / span == p / span
  {
    hide Pow2, TreeOf;
    assert after[p] == MarkAfter(before[p], n, m, p);
    StaysUntilCarry(n, m, p);
  }

  /** One addition undoes the removals of the last 2^pos - 1 points, and no others. */
  lemma {:induction false} RemovalLastsOneAddition(before: seq<int>, n: nat, after: seq<int>, pos: nat, p: nat)
    requires MarksGrow(before, n, after, n + 1) && LowestZero(n, pos) && p < n && before[p] == -1
    ensures after[p] == -1 <==> p + Pow2(pos) < n + 1
  {
    hide Pow2, TreeOf;
    assert after[p] == MarkAfter(before[p], n, n + 1, p);
    IncrementTree(n, pos, p);
    MovedAreLast(n, pos, p);
  }

  /** The smallest instance: store one point, remove it, store another; the first one is back. */
  lemma RemovedPointReturns(after: seq<int>)
    requires MarksGrow([-1], 1, after, 2)
    ensures after[0] == 1
  {
    assert after[0] == MarkAfter(-1, 1, 2, 0);
    assert TreeOf(2, 0) == 1 + TreeOf(1, 0);
  }

  /**
   * `t` trees hold at most 2^t - 1 points: from there on the next addition asks for a tree that does not
   * exist. With as many trees as are set up for a maximum of `M` points that is less than `M`, exactly
   * unless the logarithm of `M` has been rounded up to the next whole number.
   */
  lemma {:induction false} MaximumIsNotReached(M: nat, t: nat, n: nat, pos: nat)
    requires 0 < M && Truncated(t, M) && n < Pow2(t) && LowestZero(n, pos)
    ensures pos < t <==> n + 1 < Pow2(t)
    ensures Pow2(t) - 1 < M <==> t == Log2(M)
  {
    LowestZeroBelow(n, pos, t);
  }
}
