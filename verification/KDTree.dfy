/** Construction of a k-d tree: the index array is partitioned in place around a cutting plane. */
module KDTree {
  import opened Metric
  import opened Ranges

  /** `child1 == child2 == NULL` marks a leaf; a leaf owns `ind[left..right]`. */
  datatype Tree =
    | Leaf(left: nat, right: nat)
    | Node(divfeat: nat, divlow: real, divhigh: real, child1: Tree, child2: Tree)

  function First(t: Tree): nat {
    match t case Leaf(l, _) => l case Node(_, _, _, c1, _) => First(c1)
  }

  function Last(t: Tree): nat {
    match t case Leaf(_, r) => r case Node(_, _, _, _, c2) => Last(c2)
  }

  /** Coordinate `d` of the point at position `j` of the index array. */
  ghost function Coord(pts: seq<Point>, ind: seq<nat>, j: nat, d: nat): real {
    if j < |ind| && ind[j] < |pts| && d < |pts[ind[j]]| then pts[ind[j]][d] else 0.0
  }

  ghost predicate IsMin(pts: seq<Point>, ind: seq<nat>, lo: nat, hi: nat, d: nat, v: real) {
    && (forall j :: lo <= j < hi ==> v <= Coord(pts, ind, j, d))
    && exists j :: lo <= j < hi && Coord(pts, ind, j, d) == v
  }

  ghost predicate IsMax(pts: seq<Point>, ind: seq<nat>, lo: nat, hi: nat, d: nat, v: real) {
    && (forall j :: lo <= j < hi ==> Coord(pts, ind, j, d) <= v)
    && exists j :: lo <= j < hi && Coord(pts, ind, j, d) == v
  }

  ghost predicate TightSide(pts: seq<Point>, ind: seq<nat>, lo: nat, hi: nat, d: nat, side: Interval) {
    IsMin(pts, ind, lo, hi, d, side.low) && IsMax(pts, ind, lo, hi, d, side.high)
  }

  /** The smallest box around the points at positions `[lo, hi)`. */
  ghost predicate TightBox(pts: seq<Point>, ind: seq<nat>, lo: nat, hi: nat, box: seq<Interval>) {
    forall d :: 0 <= d < |box| ==> TightSide(pts, ind, lo, hi, d, box[d])
  }

  /**
   * The leaves of the tree tile its range of positions in order, none empty or over-full, and
   * every inner node records the exact gap between its two halves along its dimension.
   */
  ghost predicate WellFormed(t: Tree, pts: seq<Point>, dim: nat, ind: seq<nat>, leafMax: nat)
    ensures WellFormed(t, pts, dim, ind, leafMax) ==> First(t) < Last(t) <= |ind|
  {
    match t
    case Leaf(l, r) => l < r <= |ind| && r - l <= leafMax
    case Node(f, lo, hi, c1, c2) =>
      && f < dim && lo <= hi
      && WellFormed(c1, pts, dim, ind, leafMax)
      && WellFormed(c2, pts, dim, ind, leafMax)
      && Last(c1) == First(c2)
      && IsMax(pts, ind, First(c1), Last(c1), f, lo)
      && IsMin(pts, ind, First(c2), Last(c2), f, hi)
  }

  ghost predicate Agree(s: seq<nat>, t: seq<nat>, lo: nat, hi: nat) {
    |s| == |t| && forall j :: lo <= j < hi && j < |s| ==> s[j] == t[j]
  }

  /** A tree only depends on its own range of positions. */
  lemma {:induction false} FrameTree(t: Tree, pts: seq<Point>, dim: nat, ind: seq<nat>, ind': seq<nat>, leafMax: nat)
    requires WellFormed(t, pts, dim, ind, leafMax)
    requires Agree(ind, ind', First(t), Last(t))
    ensures WellFormed(t, pts, dim, ind', leafMax)
  {
    if t.Node? {
      FrameTree(t.child1, pts, dim, ind, ind', leafMax);
      FrameTree(t.child2, pts, dim, ind, ind', leafMax);
      FrameMinMax(pts, ind, ind', First(t.child1), Last(t.child1), t.divfeat);
      FrameMinMax(pts, ind, ind', First(t.child2), Last(t.child2), t.divfeat);
    }
  }

  lemma FrameMinMax(pts: seq<Point>, ind: seq<nat>, ind': seq<nat>, lo: nat, hi: nat, d: nat)
    requires Agree(ind, ind', lo, hi) && hi <= |ind|
    ensures forall v :: IsMin(pts, ind, lo, hi, d, v) ==> IsMin(pts, ind', lo, hi, d, v)
    ensures forall v :: IsMax(pts, ind, lo, hi, d, v) ==> IsMax(pts, ind', lo, hi, d, v)
  {
    assert forall j :: lo <= j < hi ==> Coord(pts, ind, j, d) == Coord(pts, ind', j, d);
  }

  /** Bounds of a range survive rearranging it. */
  lemma PermuteBounds(pts: seq<Point>, s: seq<nat>, t: seq<nat>, lo: nat, hi: nat, d: nat, v: real)
    requires RangePermuted(s, t, lo, hi)
    ensures (forall j :: lo <= j < hi ==> Coord(pts, s, j, d) <= v) ==>
      forall j :: lo <= j < hi ==> Coord(pts, t, j, d) <= v
    ensures (forall j :: lo <= j < hi ==> v <= Coord(pts, s, j, d)) ==>
      forall j :: lo <= j < hi ==> v <= Coord(pts, t, j, d)
    ensures (forall j :: lo <= j < hi ==> Coord(pts, s, j, d) < v) ==>
      forall j :: lo <= j < hi ==> Coord(pts, t, j, d) < v
    ensures (forall j :: lo <= j < hi ==> v < Coord(pts, s, j, d)) ==>
      forall j :: lo <= j < hi ==> v < Coord(pts, t, j, d)
  {
    forall j | lo <= j < hi
      ensures exists i :: lo <= i < hi && Coord(pts, s, i, d) == Coord(pts, t, j, d)
    {
      var i := CameFrom(s, t, lo, hi, j);
      assert Coord(pts, s, i, d) == Coord(pts, t, j, d);
    }
  }

  ghost function MinOf(pts: seq<Point>, ind: seq<nat>, lo: nat, hi: nat, d: nat): (v: real)
    requires lo < hi
    ensures IsMin(pts, ind, lo, hi, d, v)
  {
    if hi == lo + 1 then
      assert Coord(pts, ind, lo, d) == Coord(pts, ind, lo, d); Coord(pts, ind, lo, d)
    else
      assert Coord(pts, ind, hi - 1, d) == Coord(pts, ind, hi - 1, d);
      Min(MinOf(pts, ind, lo, hi - 1, d), Coord(pts, ind, hi - 1, d))
  }

  ghost function MaxOf(pts: seq<Point>, ind: seq<nat>, lo: nat, hi: nat, d: nat): (v: real)
    requires lo < hi
    ensures IsMax(pts, ind, lo, hi, d, v)
  {
    if hi == lo + 1 then
      assert Coord(pts, ind, lo, d) == Coord(pts, ind, lo, d); Coord(pts, ind, lo, d)
    else
      assert Coord(pts, ind, hi - 1, d) == Coord(pts, ind, hi - 1, d);
      Max(MaxOf(pts, ind, lo, hi - 1, d), Coord(pts, ind, hi - 1, d))
  }

  /** Minimum and maximum of one coordinate over `ind[base..base + count]`. */
  method ComputeMinMax(pts: seq<Point>, dim: nat, ind: array<nat>, base: nat, count: nat, element: nat)
    returns (minElem: real, maxElem: real)
    requires 0 < count && base + count <= ind.Length
    requires Indexed(pts, dim, ind[..]) && element < dim
    ensures minElem == MinOf(pts, ind[..], base, base + count, element)
    ensures maxElem == MaxOf(pts, ind[..], base, base + count, element)
  {
    minElem := pts[ind[base]][element];
    maxElem := pts[ind[base]][element];
    for i := 1 to count
      invariant minElem == MinOf(pts, ind[..], base, base + i, element)
      invariant maxElem == MaxOf(pts, ind[..], base, base + i, element)
    {
      var val := pts[ind[base + i]][element];
      if val < minElem {
        minElem := val;
      }
      if val > maxElem {
        maxElem := val;
      }
    }
  }

  /** Left of the cutting plane: below it, or also on it. */
  predicate Before(v: real, cutval: real, inclusive: bool) {
    if inclusive then v <= cutval else v < cutval
  }

  ghost predicate Side(pts: seq<Point>, ind: seq<nat>, lo: nat, hi: nat, d: nat, cutval: real, inclusive: bool,
        side: bool) {
    forall j :: lo <= j < hi ==> (Before(Coord(pts, ind, j, d), cutval, inclusive) <==> side)
  }

  /** The first inner loop: skip what already lies on the left side. */
  method ScanUp(pts: seq<Point>, dim: nat, ind: array<nat>, base: nat, lo: nat, from: nat, right: nat,
                feat: nat, cutval: real, inclusive: bool)
    returns (left: nat)
    requires from <= right + 1 && base + right < ind.Length
    requires Indexed(pts, dim, ind[..]) && feat < dim
    requires Side(pts, ind[..], base + lo, base + from, feat, cutval, inclusive, true)
    ensures from <= left <= right + 1
    ensures Side(pts, ind[..], base + lo, base + left, feat, cutval, inclusive, true)
    ensures left <= right ==> !Before(Coord(pts, ind[..], base + left, feat), cutval, inclusive)
  {
    left := from;
    while left <= right && Before(pts[ind[base + left]][feat], cutval, inclusive)
      invariant from <= left <= right + 1
      invariant Side(pts, ind[..], base + lo, base + left, feat, cutval, inclusive, true)
    {
      left := left + 1;
    }
  }

  /** The second inner loop; the test for zero comes before the decrement. */
  method ScanDown(pts: seq<Point>, dim: nat, ind: array<nat>, base: nat, left: nat, from: nat, hi: nat,
                  feat: nat, cutval: real, inclusive: bool)
    returns (right: nat)
    requires left <= from + 1 && base + from < ind.Length
    requires Indexed(pts, dim, ind[..]) && feat < dim
    requires Side(pts, ind[..], base + from + 1, base + hi, feat, cutval, inclusive, false)
    ensures left <= right + 1 && right <= from
    ensures Side(pts, ind[..], base + right + 1, base + hi, feat, cutval, inclusive, false)
    ensures left <= right && right != 0 ==> Before(Coord(pts, ind[..], base + right, feat), cutval, inclusive)
  {
    right := from;
    while right != 0 && left <= right && !Before(pts[ind[base + right]][feat], cutval, inclusive)
      invariant left <= right + 1 && right <= from
      invariant Side(pts, ind[..], base + right + 1, base + hi, feat, cutval, inclusive, false)
      decreases right
    {
      right := right - 1;
    }
  }

  /** One exchange: the misplaced pair at `l` and `r` ends up on the right sides. */
  method Exchange(pts: seq<Point>, dim: nat, ind: array<nat>, base: nat, from: nat, count: nat, left: nat, right: nat,
                  feat: nat, cutval: real, inclusive: bool, ghost orig: seq<nat>)
    requires from <= left < right < count && base + count <= ind.Length
    requires Indexed(pts, dim, ind[..])
    requires Side(pts, ind[..], base + from, base + left, feat, cutval, inclusive, true)
    requires Side(pts, ind[..], base + right + 1, base + count, feat, cutval, inclusive, false)
    requires !Before(Coord(pts, ind[..], base + left, feat), cutval, inclusive)
    requires Before(Coord(pts, ind[..], base + right, feat), cutval, inclusive)
    requires RangePermuted(orig, ind[..], base + from, base + count)
    modifies ind
    ensures ind[..] == old(ind[..])[base + left := old(ind[base + right])][base + right := old(ind[base + left])]
    ensures RangePermuted(orig, ind[..], base + from, base + count)
    ensures Indexed(pts, dim, ind[..])
    ensures Side(pts, ind[..], base + from, base + left + 1, feat, cutval, inclusive, true)
    ensures Side(pts, ind[..], base + right, base + count, feat, cutval, inclusive, false)
  {
    hide *;
    ghost var s, i, j := ind[..], base + left, base + right;
    ind[base + left], ind[base + right] := ind[base + right], ind[base + left];
    assert ind[..] == s[i := s[j]][j := s[i]];
    ExchangeSides(pts, s, base + from, i, j, base + count, feat, cutval, inclusive);
    ExchangePermutes(pts, dim, orig, s, base + from, i, j, base + count);
  }

  lemma ExchangePermutes(pts: seq<Point>, dim: nat, orig: seq<nat>, s: seq<nat>, lo: nat, l: nat, r: nat, hi: nat)
    requires lo <= l < r < hi <= |s|
    requires RangePermuted(orig, s, lo, hi) && Indexed(pts, dim, s)
    ensures RangePermuted(orig, s[l := s[r]][r := s[l]], lo, hi)
    ensures Indexed(pts, dim, s[l := s[r]][r := s[l]])
  {
    SwapIsPermutation(s, lo, hi, l, r);
    Compose(orig, s, s[l := s[r]][r := s[l]], lo, hi);
  }

  lemma ExchangeSides(pts: seq<Point>, s: seq<nat>, lo: nat, l: nat, r: nat, hi: nat, d: nat, cutval: real,
        inclusive: bool)
    requires lo <= l < r < hi <= |s|
    requires Side(pts, s, lo, l, d, cutval, inclusive, true)
    requires Side(pts, s, r + 1, hi, d, cutval, inclusive, false)
    requires !Before(Coord(pts, s, l, d), cutval, inclusive)
    requires Before(Coord(pts, s, r, d), cutval, inclusive)
    ensures Side(pts, s[l := s[r]][r := s[l]], lo, l + 1, d, cutval, inclusive, true)
    ensures Side(pts, s[l := s[r]][r := s[l]], r, hi, d, cutval, inclusive, false)
  {
    var t := s[l := s[r]][r := s[l]];
    assert Coord(pts, t, l, d) == Coord(pts, s, r, d);
    assert Coord(pts, t, r, d) == Coord(pts, s, l, d);
    assert forall j :: lo <= j < hi && j != l && j != r ==> Coord(pts, t, j, d) == Coord(pts, s, j, d);
  }

  /**
   * One pass of the plane split over `ind[base + from..base + count]`. The bounds are unsigned:
   * the tests of `right` against zero keep it from wrapping around.
   */
  method PartitionPass(pts: seq<Point>, dim: nat, ind: array<nat>, base: nat, from: nat, count: nat,
                       feat: nat, cutval: real, inclusive: bool)
    returns (lim: nat)
    requires from <= count && 0 < count && base + count <= ind.Length
    requires Indexed(pts, dim, ind[..]) && feat < dim
    modifies ind
    ensures RangePermuted(old(ind[..]), ind[..], base + from, base + count)
    ensures Indexed(pts, dim, ind[..])
    ensures from <= lim <= count
    ensures Side(pts, ind[..], base + from, base + lim, feat, cutval, inclusive, true)
    ensures Side(pts, ind[..], base + lim, base + count, feat, cutval, inclusive, false)
  {
    ghost var orig := ind[..];
    var left, right: nat := from, count - 1;
    while true
      invariant from <= left <= right + 1 <= count
      invariant RangePermuted(orig, ind[..], base + from, base + count)
      invariant Indexed(pts, dim, ind[..])
      invariant Side(pts, ind[..], base + from, base + left, feat, cutval, inclusive, true)
      invariant Side(pts, ind[..], base + right + 1, base + count, feat, cutval, inclusive, false)
      decreases right + 1 - left
    {
      left := ScanUp(pts, dim, ind, base, from, left, right, feat, cutval, inclusive);
      right := ScanDown(pts, dim, ind, base, left, right, count, feat, cutval, inclusive);
      if left > right || right == 0 {
        break;
      }
      Exchange(pts, dim, ind, base, from, count, left, right, feat, cutval, inclusive, orig);
      left, right := left + 1, right - 1;
    }
    lim := left;
  }

  /** All points of `[lo, mid)` on or below the cut, all of `[mid, hi)` on or above it. */
  ghost predicate SplitAt(pts: seq<Point>, ind: seq<nat>, lo: nat, mid: nat, hi: nat, d: nat, cutval: real) {
    && (forall j :: lo <= j < mid ==> Coord(pts, ind, j, d) <= cutval)
    && (forall j :: mid <= j < hi ==> cutval <= Coord(pts, ind, j, d))
  }

  /** Below the cut up to `lim1`, on it up to `lim2`, above it from there. */
  ghost predicate ThreeWay(pts: seq<Point>, ind: seq<nat>, lo: nat, lim1: nat, lim2: nat, hi: nat, d: nat,
        cutval: real) {
    && lo <= lim1 <= lim2 <= hi
    && (forall j :: lo <= j < lim1 ==> Coord(pts, ind, j, d) < cutval)
    && (forall j :: lim1 <= j < lim2 ==> Coord(pts, ind, j, d) == cutval)
    && (forall j :: lim2 <= j < hi ==> cutval < Coord(pts, ind, j, d))
  }

  /** In-place three-way partition of `ind[base..base + count]` around the cutting value. */
  method PlaneSplit(pts: seq<Point>, dim: nat, ind: array<nat>, base: nat, count: nat, cutfeat: nat, cutval: real)
    returns (lim1: nat, lim2: nat)
    requires 0 < count && base + count <= ind.Length
    requires Indexed(pts, dim, ind[..]) && cutfeat < dim
    modifies ind
    ensures RangePermuted(old(ind[..]), ind[..], base, base + count)
    ensures Indexed(pts, dim, ind[..])
    ensures ThreeWay(pts, ind[..], base, base + lim1, base + lim2, base + count, cutfeat, cutval)
  {
    hide *;
    ghost var s0 := ind[..];
    lim1 := PartitionPass(pts, dim, ind, base, 0, count, cutfeat, cutval, false);
    ghost var s := ind[..];
    lim2 := PartitionPass(pts, dim, ind, base, lim1, count, cutfeat, cutval, true);
    ghost var t := ind[..];
    SecondPass(pts, s, t, base, count, lim1, lim2, cutfeat, cutval);
    TwoPasses(s0, s, t, base, lim1, count);
  }

  lemma TwoPasses(s0: seq<nat>, s: seq<nat>, t: seq<nat>, base: nat, lim: nat, count: nat)
    requires lim <= count && RangePermuted(s0, s, base, base + count) && RangePermuted(s, t, base + lim, base + count)
    ensures RangePermuted(s0, t, base, base + count)
  {
    hide RangePermuted;
    RangeFits(s0, s, base, base + count);
    Widen(s, t, base + lim, base + count, base, base + count);
    Compose(s0, s, t, base, base + count);
  }

  /** What the first pass established survives the second one. */
  lemma SecondPass(pts: seq<Point>, s: seq<nat>, t: seq<nat>, base: nat, count: nat, lim1: nat, lim2: nat, d: nat,
        cutval: real)
    requires lim1 <= lim2 <= count && RangePermuted(s, t, base + lim1, base + count)
    requires Side(pts, s, base, base + lim1, d, cutval, false, true)
    requires Side(pts, s, base + lim1, base + count, d, cutval, false, false)
    requires Side(pts, t, base + lim1, base + lim2, d, cutval, true, true)
    requires Side(pts, t, base + lim2, base + count, d, cutval, true, false)
    ensures ThreeWay(pts, t, base, base + lim1, base + lim2, base + count, d, cutval)
  {
    hide RangePermuted;
    RangeFits(s, t, base + lim1, base + count);
    PermuteBounds(pts, s, t, base + lim1, base + count, d, cutval);
    forall j | base <= j < base + lim1 ensures Coord(pts, t, j, d) < cutval {
      Outside(s, t, base + lim1, base + count, j);
      assert Coord(pts, t, j, d) == Coord(pts, s, j, d);
    }
  }

  const EPS := 0.00001

  function Span(i: Interval): real { i.high - i.low }

  /** The longest side of a box. */
  function MaxSpan(box: seq<Interval>): (m: real)
    requires box != []
    ensures forall i :: 0 <= i < |box| ==> Span(box[i]) <= m
    ensures exists i :: 0 <= i < |box| && Span(box[i]) == m
  {
    if |box| == 1 then
      assert Span(box[0]) == Span(box[0]); Span(box[0])
    else
      var rest := MaxSpan(box[..|box| - 1]);
      assert forall i :: 0 <= i < |box| - 1 ==> box[i] == box[..|box| - 1][i];
      Max(rest, Span(box[|box| - 1]))
  }

  predicate LongSide(box: seq<Interval>, i: nat)
    requires i < |box|
  {
    Span(box[i]) > (1.0 - EPS) * MaxSpan(box)
  }

  ghost function Spread(pts: seq<Point>, ind: seq<nat>, lo: nat, hi: nat, d: nat): real
    requires lo < hi
  {
    MaxOf(pts, ind, lo, hi, d) - MinOf(pts, ind, lo, hi, d)
  }

  ghost function LongSides(box: seq<Interval>): seq<bool> {
    seq(|box|, i requires 0 <= i < |box| => LongSide(box, i))
  }

  ghost function Spreads(pts: seq<Point>, ind: seq<nat>, lo: nat, hi: nat, dim: nat): seq<real>
    requires lo < hi
  {
    seq(dim, i requires 0 <= i < dim => Spread(pts, ind, lo, hi, i))
  }

  /** `f` is the first candidate with the largest score, 0 if there is no candidate. */
  ghost predicate FirstLargest(candidate: seq<bool>, score: seq<real>, n: nat, f: nat)
    requires n <= |candidate| == |score|
  {
    if exists i :: 0 <= i < n && candidate[i] then
      && f < n && candidate[f]
      && forall i :: 0 <= i < n && candidate[i] ==> score[i] <= score[f] && (i < f ==> score[i] < score[f])
    else f == 0
  }

  lemma FirstLargestStep(candidate: seq<bool>, score: seq<real>, n: nat, f: nat, g: nat)
    requires n < |candidate| == |score| && FirstLargest(candidate, score, n, f)
    requires candidate[n] && ((exists i :: 0 <= i < n && candidate[i]) ==> score[f] < score[n]) ==> g == n
    requires !(candidate[n] && ((exists i :: 0 <= i < n && candidate[i]) ==> score[f] < score[n])) ==> g == f
    ensures FirstLargest(candidate, score, n + 1, g)
  {
    if exists i :: 0 <= i < n && candidate[i] {
      assert candidate[f];
    }
  }

  method LongestSide(bbox: array<Interval>) returns (maxSpan: real)
    requires 0 < bbox.Length
    ensures maxSpan == MaxSpan(bbox[..])
  {
    maxSpan := Span(bbox[0]);
    assert bbox[..1] == [bbox[0]];
    for i := 1 to bbox.Length
      invariant maxSpan == MaxSpan(bbox[..i])
    {
      var span := Span(bbox[i]);
      assert bbox[..i + 1][..i] == bbox[..i];
      if span > maxSpan {
        maxSpan := span;
      }
    }
    assert bbox[..bbox.Length] == bbox[..];
  }

  method ChooseFeature(pts: seq<Point>, dim: nat, ind: array<nat>, base: nat, count: nat, bbox: array<Interval>)
    returns (cutfeat: nat)
    requires 0 < count && base + count <= ind.Length
    requires Indexed(pts, dim, ind[..]) && bbox.Length == dim && 0 < dim
    ensures cutfeat < dim
    ensures FirstLargest(LongSides(bbox[..]), Spreads(pts, ind[..], base, base + count, dim), dim, cutfeat)
  {
    ghost var candidate, score := LongSides(bbox[..]), Spreads(pts, ind[..], base, base + count, dim);
    var maxSpan := LongestSide(bbox);
    var maxSpread := -1.0;
    cutfeat := 0;
    for i := 0 to dim
      invariant cutfeat < dim
      invariant FirstLargest(candidate, score, i, cutfeat)
      invariant maxSpread == if exists j :: 0 <= j < i && candidate[j] then score[cutfeat] else -1.0
    {
      ghost var f := cutfeat;
      var span := Span(bbox[i]);
      assert candidate[i] == (span > (1.0 - EPS) * maxSpan);
      if span > (1.0 - EPS) * maxSpan {
        var minElem, maxElem := ComputeMinMax(pts, dim, ind, base, count, i);
        var spread := maxElem - minElem;
        assert spread == score[i] && spread >= 0.0;
        if spread > maxSpread {
          cutfeat := i;
          maxSpread := spread;
        }
      }
      FirstLargestStep(candidate, score, i, f, cutfeat);
    }
  }

  function Clamp(v: real, lo: real, hi: real): real {
    if v < lo then lo else if v > hi then hi else v
  }

  function MiddleIndex(lim1: nat, lim2: nat, count: nat): nat {
    if lim1 > count / 2 then lim1 else if lim2 < count / 2 then lim2 else count / 2
  }

  ghost function Dist(a: int, b: int): int { if a < b then b - a else a - b }

  /** The cutting plane: the middle of the box along the chosen side, moved to the points if they lie beside it. */
  ghost predicate IsCut(pts: seq<Point>, ind: seq<nat>, lo: nat, hi: nat, box: seq<Interval>, cutfeat: nat,
        cutval: real)
    requires lo < hi && cutfeat < |box|
  {
    && FirstLargest(LongSides(box), Spreads(pts, ind, lo, hi, |box|), |box|, cutfeat)
    && cutval == CutValue(pts, ind, lo, hi, box, cutfeat)
  }

  ghost function CutValue(pts: seq<Point>, ind: seq<nat>, lo: nat, hi: nat, box: seq<Interval>, f: nat): real
    requires lo < hi && f < |box|
  {
    Clamp((box[f].low + box[f].high) / 2.0, MinOf(pts, ind, lo, hi, f), MaxOf(pts, ind, lo, hi, f))
  }

  method ChooseCut(pts: seq<Point>, dim: nat, ind: array<nat>, base: nat, count: nat, bbox: array<Interval>)
    returns (cutfeat: nat, cutval: real)
    requires 0 < count && base + count <= ind.Length
    requires Indexed(pts, dim, ind[..]) && bbox.Length == dim && 0 < dim
    ensures cutfeat < dim && IsCut(pts, ind[..], base, base + count, bbox[..], cutfeat, cutval)
    ensures MinOf(pts, ind[..], base, base + count, cutfeat) <= cutval <= MaxOf(pts, ind[..], base, base + count,
      cutfeat)
  {
    cutfeat := ChooseFeature(pts, dim, ind, base, count, bbox);
    var splitVal := (bbox[cutfeat].low + bbox[cutfeat].high) / 2.0;
    var minElem, maxElem := ComputeMinMax(pts, dim, ind, base, count, cutfeat);
    cutval := Clamp(splitVal, minElem, maxElem);
  }

  /**
   * Chooses the cutting plane and partitions around it. The cut lies strictly inside the range
   * whenever there are two points or more, even when all of them coincide, and as close to the
   * middle as the three-way partition allows.
   */
  method MiddleSplit(pts: seq<Point>, dim: nat, ind: array<nat>, base: nat, count: nat, bbox: array<Interval>)
    returns (index: nat, cutfeat: nat, cutval: real)
    requires 2 <= count && base + count <= ind.Length
    requires Indexed(pts, dim, ind[..]) && bbox.Length == dim && 0 < dim
    modifies ind
    ensures RangePermuted(old(ind[..]), ind[..], base, base + count)
    ensures Indexed(pts, dim, ind[..])
    ensures 0 < index < count && cutfeat < dim
    ensures IsCut(pts, old(ind[..]), base, base + count, old(bbox[..]), cutfeat, cutval)
    ensures SplitAt(pts, ind[..], base, base + index, base + count, cutfeat, cutval)
    ensures BestSplit(pts, ind[..], base, base + index, base + count, cutfeat, cutval)
  {
    hide *;
    cutfeat, cutval := ChooseCut(pts, dim, ind, base, count, bbox);
    ghost var s := ind[..];
    var lim1, lim2 := PlaneSplit(pts, dim, ind, base, count, cutfeat, cutval);
    ghost var t := ind[..];
    CutInside(pts, s, t, base, count, lim1, lim2, cutfeat, cutval);
    index := MiddleIndex(lim1, lim2, count);
    NearestToMiddle(pts, t, base, base + lim1, base + lim2, base + count, base + index, cutfeat, cutval);
  }

  /** No split of the partitioned range is closer to its middle. */
  ghost predicate BestSplit(pts: seq<Point>, ind: seq<nat>, lo: nat, mid: nat, hi: nat, d: nat, cutval: real) {
    forall other :: lo <= other <= hi && SplitAt(pts, ind, lo, other, hi, d, cutval) ==>
      Dist(mid - lo, (hi - lo) / 2) <= Dist(other - lo, (hi - lo) / 2)
  }

  /** Exactly the positions between the two limits are splits. */
  lemma SplitsBetween(pts: seq<Point>, ind: seq<nat>, lo: nat, lim1: nat, lim2: nat, hi: nat, d: nat, cutval: real)
    requires ThreeWay(pts, ind, lo, lim1, lim2, hi, d, cutval)
    ensures forall mid :: lo <= mid <= hi ==> (SplitAt(pts, ind, lo, mid, hi, d, cutval) <==> lim1 <= mid <= lim2)
  {
    forall mid | lo <= mid < lim1 ensures !SplitAt(pts, ind, lo, mid, hi, d, cutval) {
      assert Coord(pts, ind, mid, d) < cutval;
    }
    forall mid | lim2 < mid <= hi ensures !SplitAt(pts, ind, lo, mid, hi, d, cutval) {
      assert cutval < Coord(pts, ind, lim2, d);
    }
  }

  lemma NearestToMiddle(pts: seq<Point>, ind: seq<nat>, lo: nat, lim1: nat, lim2: nat, hi: nat, mid: nat, d: nat,
        cutval: real)
    requires ThreeWay(pts, ind, lo, lim1, lim2, hi, d, cutval)
    requires mid == lo + MiddleIndex(lim1 - lo, lim2 - lo, hi - lo)
    ensures SplitAt(pts, ind, lo, mid, hi, d, cutval) && BestSplit(pts, ind, lo, mid, hi, d, cutval)
  {
    SplitsBetween(pts, ind, lo, lim1, lim2, hi, d, cutval);
  }

  /** A cutting value inside the spread leaves points on both sides of the plane. */
  lemma CutInside(pts: seq<Point>, s: seq<nat>, t: seq<nat>, base: nat, count: nat, lim1: nat, lim2: nat, d: nat,
        cutval: real)
    requires 0 < count && RangePermuted(s, t, base, base + count)
    requires ThreeWay(pts, t, base, base + lim1, base + lim2, base + count, d, cutval)
    requires MinOf(pts, s, base, base + count, d) <= cutval <= MaxOf(pts, s, base, base + count, d)
    ensures lim1 < count && 0 < lim2
    ensures 2 <= count ==> 0 < MiddleIndex(lim1, lim2, count) < count
  {
    hide RangePermuted, MinOf, MaxOf;
    var hi := base + count;
    Symmetric(s, t, base, hi);
    var least :| base <= least < hi && Coord(pts, s, least, d) == MinOf(pts, s, base, hi, d);
    var most :| base <= most < hi && Coord(pts, s, most, d) == MaxOf(pts, s, base, hi, d);
    var i := CameFrom(t, s, base, hi, least);
    var j := CameFrom(t, s, base, hi, most);
    assert Coord(pts, t, i, d) <= cutval <= Coord(pts, t, j, d);
  }

  /** Two halves make a whole. */
  lemma TightUnion(pts: seq<Point>, ind: seq<nat>, lo: nat, mid: nat, hi: nat, d: nat, a: Interval, b: Interval)
    requires TightSide(pts, ind, lo, mid, d, a) && TightSide(pts, ind, mid, hi, d, b)
    ensures TightSide(pts, ind, lo, hi, d, Interval(Min(a.low, b.low), Max(a.high, b.high)))
  {
  }

  lemma TightPoint(pts: seq<Point>, dim: nat, ind: seq<nat>, j: nat, d: nat)
    requires Indexed(pts, dim, ind) && j < |ind| && d < dim
    ensures pts[ind[j]][d] == Coord(pts, ind, j, d)
    ensures TightSide(pts, ind, j, j + 1, d, Interval(pts[ind[j]][d], pts[ind[j]][d]))
  {
    assert Coord(pts, ind, j, d) == pts[ind[j]][d];
  }

  /** One more point. */
  lemma TightExtend(pts: seq<Point>, ind: seq<nat>, lo: nat, hi: nat, d: nat, a: Interval, v: real)
    requires lo < hi && TightSide(pts, ind, lo, hi, d, a) && v == Coord(pts, ind, hi, d)
    ensures TightSide(pts, ind, lo, hi + 1, d, Interval(Min(a.low, v), Max(a.high, v)))
  {
    TightUnion(pts, ind, lo, hi, hi + 1, d, a, Interval(v, v));
  }

  /** The bounding box of the points at positions `[left, right)`, written into `bbox`. */
  method ComputeBoundingBox(pts: seq<Point>, dim: nat, ind: array<nat>, left: nat, right: nat, bbox: array<Interval>)
    requires left < right <= ind.Length && bbox.Length == dim
    requires Indexed(pts, dim, ind[..])
    modifies bbox
    ensures TightBox(pts, ind[..], left, right, bbox[..])
  {
    hide TightSide, Coord;
    ghost var s := ind[..];
    for i := 0 to dim
      invariant forall d :: 0 <= d < i ==> TightSide(pts, s, left, left + 1, d, bbox[d])
    {
      TightPoint(pts, dim, s, left, i);
      bbox[i] := Interval(pts[ind[left]][i], pts[ind[left]][i]);
    }
    for k := left + 1 to right
      invariant forall d :: 0 <= d < dim ==> TightSide(pts, s, left, k, d, bbox[d])
    {
      for i := 0 to dim
        invariant forall d :: 0 <= d < i ==> TightSide(pts, s, left, k + 1, d, bbox[d])
        invariant forall d :: i <= d < dim ==> TightSide(pts, s, left, k, d, bbox[d])
      {
        var v := pts[ind[k]][i];
        TightPoint(pts, dim, s, k, i);
        TightExtend(pts, s, left, k, i, bbox[i], v);
        if bbox[i].low > v {
          bbox[i] := bbox[i].(low := v);
        }
        if bbox[i].high < v {
          bbox[i] := bbox[i].(high := v);
        }
      }
    }
  }

  method CopyBox(bbox: array<Interval>) returns (copy: array<Interval>)
    ensures fresh(copy) && copy[..] == bbox[..]
  {
    copy := new Interval[bbox.Length](i requires 0 <= i < bbox.Length reads bbox => bbox[i]);
  }

  /** What the recursion has established when the two halves are put together. */
  lemma JoinHalves(pts: seq<Point>, dim: nat, s0: seq<nat>, s1: seq<nat>, s2: seq<nat>, leafMax: nat,
                   lo: nat, mid: nat, hi: nat, f: nat, cutval: real,
                   c1: Tree, c2: Tree, box1: seq<Interval>, box2: seq<Interval>)
    requires lo < mid < hi && f < dim == |box1| == |box2|
    requires SplitAt(pts, s0, lo, mid, hi, f, cutval)
    requires RangePermuted(s0, s1, lo, mid) && RangePermuted(s1, s2, mid, hi)
    requires WellFormed(c1, pts, dim, s1, leafMax) && First(c1) == lo && Last(c1) == mid
    requires WellFormed(c2, pts, dim, s2, leafMax) && First(c2) == mid && Last(c2) == hi
    requires TightBox(pts, s1, lo, mid, box1) && TightBox(pts, s2, mid, hi, box2)
    ensures WellFormed(Node(f, box1[f].high, box2[f].low, c1, c2), pts, dim, s2, leafMax)
    ensures TightBox(pts, s2, lo, mid, box1)
    ensures box1[f].high <= cutval <= box2[f].low
  {
    forall j | lo <= j < mid ensures s1[j] == s2[j] {
      Outside(s1, s2, mid, hi, j);
    }
    FrameTree(c1, pts, dim, s1, s2, leafMax);
    forall d | 0 <= d < dim ensures TightSide(pts, s2, lo, mid, d, box1[d]) {
      FrameMinMax(pts, s1, s2, lo, mid, d);
      assert TightSide(pts, s1, lo, mid, d, box1[d]);
    }
    GapOpens(pts, s0, s1, s2, lo, mid, hi, f, cutval, box1[f], box2[f]);
  }

  /** The exact bounds of the halves lie on their sides of the cut. */
  lemma GapOpens(pts: seq<Point>, s0: seq<nat>, s1: seq<nat>, s2: seq<nat>, lo: nat, mid: nat, hi: nat,
                 d: nat, cutval: real, a: Interval, b: Interval)
    requires SplitAt(pts, s0, lo, mid, hi, d, cutval)
    requires RangePermuted(s0, s1, lo, mid) && RangePermuted(s1, s2, mid, hi)
    requires TightSide(pts, s1, lo, mid, d, a) && TightSide(pts, s2, mid, hi, d, b)
    ensures a.high <= cutval <= b.low
  {
    PermuteBounds(pts, s0, s1, lo, mid, d, cutval);
    forall j | mid <= j < hi ensures cutval <= Coord(pts, s1, j, d) {
      Outside(s0, s1, lo, mid, j);
      assert Coord(pts, s0, j, d) == Coord(pts, s1, j, d);
    }
    PermuteBounds(pts, s1, s2, mid, hi, d, cutval);
  }

  function LeftPart(box: seq<Interval>, f: nat, cutval: real): seq<Interval>
    requires f < |box|
  {
    box[f := box[f].(high := cutval)]
  }

  function RightPart(box: seq<Interval>, f: nat, cutval: real): seq<Interval>
    requires f < |box|
  {
    box[f := box[f].(low := cutval)]
  }

  lemma Parts(box: seq<Interval>, f: nat, cutval: real)
    requires f < |box|
    ensures LeftPart(box, f, cutval) == box[f := box[f].(high := cutval)]
    ensures RightPart(box, f, cutval) == box[f := box[f].(low := cutval)]
  {
  }

  /**
   * Given the box handed down to it, every inner node cuts more than `leafMax` points at the plane
   * the rules choose for that box, which lies in its gap, and hands each child its part of the box.
   */
  ghost predicate Planned(t: Tree, pts: seq<Point>, ind: seq<nat>, box: seq<Interval>, leafMax: nat) {
    t.Leaf? || (
      var lo, hi, f := First(t), Last(t), t.divfeat;
      && lo + leafMax < hi && f < |box|
      && var cutval := CutValue(pts, ind, lo, hi, box, f);
      && IsCut(pts, ind, lo, hi, box, f, cutval)
      && t.divlow <= cutval <= t.divhigh
      && Planned(t.child1, pts, ind, LeftPart(box, f, cutval), leafMax)
      && Planned(t.child2, pts, ind, RightPart(box, f, cutval), leafMax))
  }

  /** Two arrangements with the same smallest and largest coordinates in `[lo, hi)`. */
  ghost predicate SameExtremes(pts: seq<Point>, s: seq<nat>, t: seq<nat>, lo: nat, hi: nat) {
    forall d: nat, v: real ::
      && (IsMin(pts, s, lo, hi, d, v) ==> IsMin(pts, t, lo, hi, d, v))
      && (IsMax(pts, s, lo, hi, d, v) ==> IsMax(pts, t, lo, hi, d, v))
  }

  /** Rearranging a range changes none of its extremes. */
  lemma PermuteExtremes(pts: seq<Point>, s: seq<nat>, t: seq<nat>, lo: nat, hi: nat)
    requires RangePermuted(s, t, lo, hi)
    ensures SameExtremes(pts, s, t, lo, hi)
  {
    forall d: nat, v: real
      ensures IsMin(pts, s, lo, hi, d, v) ==> IsMin(pts, t, lo, hi, d, v)
      ensures IsMax(pts, s, lo, hi, d, v) ==> IsMax(pts, t, lo, hi, d, v)
    {
      PermuteBounds(pts, s, t, lo, hi, d, v);
      if j :| lo <= j < hi && Coord(pts, s, j, d) == v {
        Symmetric(s, t, lo, hi);
        var i := CameFrom(t, s, lo, hi, j);
        assert Coord(pts, t, i, d) == v;
      }
    }
  }

  lemma {:induction false} ExtremesKept(pts: seq<Point>, s: seq<nat>, t: seq<nat>, lo: nat, hi: nat, d: nat)
    requires lo < hi && SameExtremes(pts, s, t, lo, hi)
    ensures MinOf(pts, s, lo, hi, d) == MinOf(pts, t, lo, hi, d)
    ensures MaxOf(pts, s, lo, hi, d) == MaxOf(pts, t, lo, hi, d)
  {
    hide Coord;
    assert IsMin(pts, t, lo, hi, d, MinOf(pts, s, lo, hi, d));
    assert IsMax(pts, t, lo, hi, d, MaxOf(pts, s, lo, hi, d));
  }

  /** The cutting plane depends on the points of the range only through their extremes. */
  lemma {:induction false} CutKept(pts: seq<Point>, s: seq<nat>, t: seq<nat>, lo: nat, hi: nat, box: seq<Interval>,
        f: nat, cutval: real)
    requires lo < hi && f < |box| && SameExtremes(pts, s, t, lo, hi)
    requires IsCut(pts, s, lo, hi, box, f, cutval)
    ensures IsCut(pts, t, lo, hi, box, f, cutval)
  {
    hide SameExtremes, IsMin, IsMax, MinOf, MaxOf, FirstLargest, LongSides, Clamp;
    forall d: nat ensures Spread(pts, s, lo, hi, d) == Spread(pts, t, lo, hi, d) {
      ExtremesKept(pts, s, t, lo, hi, d);
    }
    assert Spreads(pts, s, lo, hi, |box|) == Spreads(pts, t, lo, hi, |box|);
    ExtremesKept(pts, s, t, lo, hi, f);
  }

  lemma {:induction false} FramePlanned(node: Tree, pts: seq<Point>, dim: nat, s: seq<nat>, t: seq<nat>,
        box: seq<Interval>, leafMax: nat)
    requires WellFormed(node, pts, dim, s, leafMax) && Planned(node, pts, s, box, leafMax)
    requires Agree(s, t, First(node), Last(node))
    ensures Planned(node, pts, t, box, leafMax)
  {
    hide IsCut, IsMin, IsMax, CutValue;
    if node.Node? {
      var lo, hi, f := First(node), Last(node), node.divfeat;
      var cutval := CutValue(pts, s, lo, hi, box, f);
      AgreeExtremes(pts, s, t, lo, hi);
      CutKept(pts, s, t, lo, hi, box, f, cutval);
      CutIsValue(pts, t, lo, hi, box, f, cutval);
      FramePlanned(node.child1, pts, dim, s, t, LeftPart(box, f, cutval), leafMax);
      FramePlanned(node.child2, pts, dim, s, t, RightPart(box, f, cutval), leafMax);
    }
  }

  lemma CutIsValue(pts: seq<Point>, s: seq<nat>, lo: nat, hi: nat, box: seq<Interval>, f: nat, cutval: real)
    requires lo < hi && f < |box| && IsCut(pts, s, lo, hi, box, f, cutval)
    ensures cutval == CutValue(pts, s, lo, hi, box, f)
  {
  }

  lemma AgreeExtremes(pts: seq<Point>, s: seq<nat>, t: seq<nat>, lo: nat, hi: nat)
    requires Agree(s, t, lo, hi) && hi <= |s|
    ensures SameExtremes(pts, s, t, lo, hi)
  {
    forall d: nat, v: real
      ensures IsMin(pts, s, lo, hi, d, v) ==> IsMin(pts, t, lo, hi, d, v)
      ensures IsMax(pts, s, lo, hi, d, v) ==> IsMax(pts, t, lo, hi, d, v)
    {
      FrameMinMax(pts, s, t, lo, hi, d);
    }
  }

  /**
   * The outcome of building over positions `[lo, hi)`, which were `s` and are now `t`, with `box0`
   * handed down and `box` handed back.
   */
  ghost predicate Built(pts: seq<Point>, dim: nat, s: seq<nat>, t: seq<nat>, leafMax: nat,
                        lo: nat, hi: nat, node: Tree, box0: seq<Interval>, box: seq<Interval>) {
    && RangePermuted(s, t, lo, hi)
    && WellFormed(node, pts, dim, t, leafMax) && First(node) == lo && Last(node) == hi
    && |box0| == |box| == dim && TightBox(pts, t, lo, hi, box) && Planned(node, pts, t, box0, leafMax)
  }

  ghost function Merged(a: seq<Interval>, b: seq<Interval>): (m: seq<Interval>)
    requires |a| == |b|
  {
    seq(|a|, d requires 0 <= d < |a| => Interval(Min(a[d].low, b[d].low), Max(a[d].high, b[d].high)))
  }

  lemma LeafBuilt(pts: seq<Point>, dim: nat, s: seq<nat>, leafMax: nat, lo: nat, hi: nat, box0: seq<Interval>,
        box: seq<Interval>)
    requires lo < hi <= |s| && hi - lo <= leafMax && |box0| == |box| == dim && TightBox(pts, s, lo, hi, box)
    ensures Built(pts, dim, s, s, leafMax, lo, hi, Leaf(lo, hi), box0, box)
  {
  }

  lemma JoinBuilt(pts: seq<Point>, dim: nat, s: seq<nat>, s0: seq<nat>, s1: seq<nat>, s2: seq<nat>, leafMax: nat,
                  lo: nat, mid: nat, hi: nat, box0: seq<Interval>, f: nat, cutval: real,
                  c1: Tree, c2: Tree, box1: seq<Interval>, box2: seq<Interval>)
    requires lo < mid < hi && leafMax < hi - lo && f < dim == |box0|
    requires RangePermuted(s, s0, lo, hi) && SplitAt(pts, s0, lo, mid, hi, f, cutval)
    requires IsCut(pts, s, lo, hi, box0, f, cutval)
    requires Built(pts, dim, s0, s1, leafMax, lo, mid, c1, LeftPart(box0, f, cutval), box1)
    requires Built(pts, dim, s1, s2, leafMax, mid, hi, c2, RightPart(box0, f, cutval), box2)
    ensures Built(pts, dim, s, s2, leafMax, lo, hi, Node(f, box1[f].high, box2[f].low, c1, c2), box0,
                  Merged(box1, box2))
  {
    hide IsCut, Planned, RangePermuted;
    JoinHalves(pts, dim, s0, s1, s2, leafMax, lo, mid, hi, f, cutval, c1, c2, box1, box2);
    JoinPermutations(s, s0, s1, s2, lo, mid, hi);
    JoinPlans(pts, dim, s, s1, s2, leafMax, lo, mid, hi, box0, f, cutval, c1, c2, box1[f].high, box2[f].low);
    forall d | 0 <= d < dim ensures TightSide(pts, s2, lo, hi, d, Merged(box1, box2)[d]) {
      TightUnion(pts, s2, lo, mid, hi, d, box1[d], box2[d]);
    }
  }

  lemma JoinPermutations(s: seq<nat>, s0: seq<nat>, s1: seq<nat>, s2: seq<nat>, lo: nat, mid: nat, hi: nat)
    requires RangePermuted(s, s0, lo, hi) && RangePermuted(s0, s1, lo, mid) && RangePermuted(s1, s2, mid, hi)
    ensures RangePermuted(s, s2, lo, hi) && Agree(s1, s2, lo, mid)
  {
    Widen(s0, s1, lo, mid, lo, hi);
    Widen(s1, s2, mid, hi, lo, hi);
    Compose(s, s0, s1, lo, hi);
    Compose(s, s1, s2, lo, hi);
    forall j | lo <= j < mid ensures s1[j] == s2[j] {
      Outside(s1, s2, mid, hi, j);
    }
  }

  /** The plans of the halves make a plan of the whole. */
  lemma JoinPlans(pts: seq<Point>, dim: nat, s: seq<nat>, s1: seq<nat>, s2: seq<nat>, leafMax: nat,
                  lo: nat, mid: nat, hi: nat, box0: seq<Interval>, f: nat, cutval: real,
                  c1: Tree, c2: Tree, divlow: real, divhigh: real)
    requires lo < mid < hi && leafMax < hi - lo && f < |box0|
    requires RangePermuted(s, s2, lo, hi) && Agree(s1, s2, lo, mid)
    requires IsCut(pts, s, lo, hi, box0, f, cutval) && divlow <= cutval <= divhigh
    requires WellFormed(c1, pts, dim, s1, leafMax) && First(c1) == lo && Last(c1) == mid && Last(c2) == hi
    requires Planned(c1, pts, s1, LeftPart(box0, f, cutval), leafMax)
    requires Planned(c2, pts, s2, RightPart(box0, f, cutval), leafMax)
    ensures Planned(Node(f, divlow, divhigh, c1, c2), pts, s2, box0, leafMax)
  {
    hide IsCut, CutValue, RangePermuted;
    PermuteExtremes(pts, s, s2, lo, hi);
    CutKept(pts, s, s2, lo, hi, box0, f, cutval);
    CutIsValue(pts, s2, lo, hi, box0, f, cutval);
    FramePlanned(c1, pts, dim, s1, s2, LeftPart(box0, f, cutval), leafMax);
  }

  /** The smallest box around two boxes, written into `bbox`. */
  method MergeBoxes(dim: nat, bbox: array<Interval>, leftBox: array<Interval>, rightBox: array<Interval>)
    requires bbox.Length == leftBox.Length == rightBox.Length == dim && bbox != leftBox && bbox != rightBox
    modifies bbox
    ensures bbox[..] == Merged(leftBox[..], rightBox[..])
  {
    for i := 0 to dim
      invariant forall d :: 0 <= d < i ==>
        bbox[d] == Interval(Min(leftBox[d].low, rightBox[d].low), Max(leftBox[d].high, rightBox[d].high))
    {
      bbox[i] := Interval(Min(leftBox[i].low, rightBox[i].low), Max(leftBox[i].high, rightBox[i].high));
    }
  }

  /**
   * Builds the tree over positions `[left, right)`, rearranging them in place, and shrinks `bbox`
   * to the smallest box around those points.
   */
  method DivideTree(pts: seq<Point>, dim: nat, vind: array<nat>, leafMax: nat, left: nat, right: nat,
        bbox: array<Interval>)
    returns (node: Tree)
    requires 0 < dim && 0 < leafMax && left < right <= vind.Length
    requires Indexed(pts, dim, vind[..]) && bbox.Length == dim
    modifies vind, bbox
    ensures Indexed(pts, dim, vind[..])
    ensures Built(pts, dim, old(vind[..]), vind[..], leafMax, left, right, node, old(bbox[..]), bbox[..])
    decreases right - left
  {
    hide *;
    ghost var box0 := bbox[..];
    if right - left <= leafMax {
      node := Leaf(left, right);
      ComputeBoundingBox(pts, dim, vind, left, right, bbox);
      LeafBuilt(pts, dim, vind[..], leafMax, left, right, box0, bbox[..]);
    } else {
      ghost var s := vind[..];
      var idx, cutfeat, cutval := MiddleSplit(pts, dim, vind, left, right - left, bbox);
      ghost var s0, mid := vind[..], left + idx;
      Parts(box0, cutfeat, cutval);

      var leftBox := CopyBox(bbox);
      leftBox[cutfeat] := leftBox[cutfeat].(high := cutval);
      assert leftBox[..] == box0[cutfeat := box0[cutfeat].(high := cutval)];
      var child1 := DivideTree(pts, dim, vind, leafMax, left, left + idx, leftBox);
      ghost var s1, box1 := vind[..], leftBox[..];

      var rightBox := CopyBox(bbox);
      rightBox[cutfeat] := rightBox[cutfeat].(low := cutval);
      assert rightBox[..] == box0[cutfeat := box0[cutfeat].(low := cutval)];
      var child2 := DivideTree(pts, dim, vind, leafMax, left + idx, right, rightBox);

      node := Node(cutfeat, leftBox[cutfeat].high, rightBox[cutfeat].low, child1, child2);
      JoinBuilt(pts, dim, s, s0, s1, vind[..], leafMax, left, mid, right, box0, cutfeat, cutval, child1, child2,
                box1, rightBox[..]);
      MergeBoxes(dim, bbox, leftBox, rightBox);
    }
  }
}
