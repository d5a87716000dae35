/**
 * The bounded result set of a k-nearest-neighbour search, kept sorted by
 * in-place insertion, and the stable sort it is an online version of.
 */
module ResultSet {

  datatype Entry = Entry(dist: real, index: nat)

  ghost predicate Sorted(s: seq<Entry>) {
    forall i, j :: 0 <= i < j < |s| ==> s[i].dist <= s[j].dist
  }

  /** Stable insertion: after every entry that is not further away. */
  ghost function Insert(s: seq<Entry>, e: Entry): (t: seq<Entry>)
    ensures |t| == |s| + 1
  {
    if s == [] || s[|s| - 1].dist <= e.dist then s + [e]
    else Insert(s[..|s| - 1], e) + [s[|s| - 1]]
  }

  ghost function Take(s: seq<Entry>, k: nat): (t: seq<Entry>) {
    if |s| <= k then s else s[..k]
  }

  /** The stable sort of a stream of entries by distance. */
  ghost function StableSort(stream: seq<Entry>): (t: seq<Entry>)
    ensures |t| == |stream|
  {
    if stream == [] then []
    else Insert(StableSort(stream[..|stream| - 1]), stream[|stream| - 1])
  }

  /** The entries at one distance, in order. */
  ghost function AtDistance(s: seq<Entry>, d: real): seq<Entry> {
    if s == [] then []
    else AtDistance(s[..|s| - 1], d) + if s[|s| - 1].dist == d then [s[|s| - 1]] else []
  }

  /** Where an insertion lands. */
  ghost predicate LandsAt(s: seq<Entry>, e: Entry, i: nat) {
    && i <= |s|
    && (i == 0 || s[i - 1].dist <= e.dist)
    && (forall j :: i <= j < |s| ==> e.dist < s[j].dist)
  }

  lemma LandsBefore(s: seq<Entry>, e: Entry, i: nat)
    requires LandsAt(s, e, i)
    ensures i <= |s|
    ensures i == |s| ==> s == [] || s[|s| - 1].dist <= e.dist
    ensures i < |s| ==> e.dist < s[|s| - 1].dist && LandsAt(s[..|s| - 1], e, i)
  {
    var p := s[..if s == [] then 0 else |s| - 1];
    assert forall j :: 0 <= j < |p| ==> p[j] == s[j];
  }

  lemma {:induction false} InsertAt(s: seq<Entry>, e: Entry, i: nat)
    requires LandsAt(s, e, i)
    ensures i <= |s| && Insert(s, e) == s[..i] + [e] + s[i..]
  {
    hide LandsAt;
    LandsBefore(s, e, i);
    if i == |s| {
      assert s[..i] == s && s[i..] == [];
    } else {
      var p, last := s[..|s| - 1], s[|s| - 1];
      InsertAt(p, e, i);
      assert s[..i] == p[..i];
      assert s[i..] == p[i..] + [last];
      AppendLast(p[..i] + [e], p[i..], last);
    }
  }

  lemma AppendLast(a: seq<Entry>, b: seq<Entry>, last: Entry)
    ensures a + b + [last] == a + (b + [last])
  {
  }

  /** The landing place of an insertion. */
  ghost function Landing(s: seq<Entry>, e: Entry): (i: nat)
    ensures LandsAt(s, e, i)
  {
    if s == [] || s[|s| - 1].dist <= e.dist then |s| else Landing(s[..|s| - 1], e)
  }

  lemma {:induction false} InsertPermutes(s: seq<Entry>, e: Entry)
    ensures multiset(Insert(s, e)) == multiset(s) + multiset{e}
  {
    var i := Landing(s, e);
    InsertAt(s, e, i);
    var a, b := s[..i], s[i..];
    assert s == a + b;
    assert multiset(a + [e] + b) == multiset(a) + multiset{e} + multiset(b);
  }

  lemma {:induction false} InsertSorted(s: seq<Entry>, e: Entry)
    requires Sorted(s)
    ensures Sorted(Insert(s, e))
  {
    var i := Landing(s, e);
    InsertAt(s, e, i);
    var t := Insert(s, e);
    forall j, k | 0 <= j < k < |t| ensures t[j].dist <= t[k].dist {
      assert t[j] == if j < i then s[j] else if j == i then e else s[j - 1];
      assert t[k] == if k < i then s[k] else if k == i then e else s[k - 1];
    }
  }

  lemma {:induction false} AtDistanceConcat(s: seq<Entry>, t: seq<Entry>, d: real)
    ensures AtDistance(s + t, d) == AtDistance(s, d) + AtDistance(t, d)
  {
    if t == [] {
      assert s + t == s;
    } else {
      var t' := t[..|t| - 1];
      assert (s + t)[..|s + t| - 1] == s + t';
      AtDistanceConcat(s, t', d);
    }
  }

  lemma {:induction false} NoneAtDistance(s: seq<Entry>, d: real)
    requires forall j :: 0 <= j < |s| ==> s[j].dist != d
    ensures AtDistance(s, d) == []
  {
    if s != [] {
      NoneAtDistance(s[..|s| - 1], d);
    }
  }

  lemma {:induction false} InsertStable(s: seq<Entry>, e: Entry, d: real)
    ensures AtDistance(Insert(s, e), d) == AtDistance(s, d) + AtDistance([e], d)
  {
    var i := Landing(s, e);
    hide Insert, AtDistance;
    InsertAt(s, e, i);
    var near, far := s[..i], s[i..];
    forall j | 0 <= j < |far| ensures e.dist < far[j].dist {
      assert far[j] == s[i + j];
    }
    MiddleStable(near, e, far, d);
    assert s == near + far;
  }

  lemma {:induction false} MiddleStable(a: seq<Entry>, e: Entry, b: seq<Entry>, d: real)
    requires forall j :: 0 <= j < |b| ==> e.dist < b[j].dist
    ensures AtDistance(a + [e] + b, d) == AtDistance(a + b, d) + AtDistance([e], d)
  {
    AtDistanceConcat(a, b, d);
    AtDistanceConcat(a + [e], b, d);
    AtDistanceConcat(a, [e], d);
    if d == e.dist {
      NoneAtDistance(b, d);
    } else {
      NoneAtDistance([e], d);
    }
  }

  /**
   * The specification of the stable sort, independent of how it is computed:
   * an ordered rearrangement of the stream in which entries at the same
   * distance keep their order of arrival.
   */
  lemma {:induction false} StableSortIsStableSort(stream: seq<Entry>)
    ensures Sorted(StableSort(stream))
    ensures multiset(StableSort(stream)) == multiset(stream)
    ensures forall d :: AtDistance(StableSort(stream), d) == AtDistance(stream, d)
  {
    if stream != [] {
      var p, e := stream[..|stream| - 1], stream[|stream| - 1];
      StableSortIsStableSort(p);
      InsertSorted(StableSort(p), e);
      InsertPermutes(StableSort(p), e);
      assert stream == p + [e];
      forall d ensures AtDistance(StableSort(stream), d) == AtDistance(stream, d) {
        InsertStable(StableSort(p), e, d);
        AtDistanceConcat(p, [e], d);
      }
    }
  }

  lemma {:induction false} InsertSlot(s: seq<Entry>, e: Entry, i: nat, j: nat)
    requires LandsAt(s, e, i) && j <= |s|
    ensures Insert(s, e)[j] == if j < i then s[j] else if j == i then e else s[j - 1]
  {
    InsertAt(s, e, i);
  }

  lemma LandsInPrefix(s: seq<Entry>, e: Entry, i: nat, k: nat)
    requires Sorted(s) && LandsAt(s, e, i) && k <= |s|
    ensures LandsAt(s[..k], e, if i <= k then i else k)
  {
    if k < i && k != 0 {
      assert s[k - 1].dist <= s[i - 1].dist;
    }
  }

  /** Entries cut off by the capacity never come back. */
  lemma {:induction false} TruncateCommutes(s: seq<Entry>, e: Entry, k: nat)
    requires Sorted(s)
    ensures Take(Insert(Take(s, k), e), k) == Take(Insert(s, e), k)
  {
    hide Insert, LandsAt;
    var i := Landing(s, e);
    if k < |s| {
      var t := s[..k];
      var i' := if i <= k then i else k;
      LandsInPrefix(s, e, i, k);
      var u, v := Insert(t, e), Insert(s, e);
      forall j | 0 <= j < k ensures u[j] == v[j] {
        InsertSlot(t, e, i', j);
        InsertSlot(s, e, i, j);
      }
      assert u[..k] == v[..k];
    }
  }

  /** An insertion into a bounded buffer, read slot by slot. */
  lemma {:induction false} InsertSlots(s: seq<Entry>, e: Entry, i: nat, k: nat)
    requires |s| <= k && LandsAt(s, e, i)
    ensures var t := Take(Insert(s, e), k);
      && |t| == (if |s| < k then |s| + 1 else k)
      && forall j {:trigger t[j]} :: 0 <= j < |t| ==> t[j] == if j < i then s[j] else if j == i then e else s[j - 1]
  {
    InsertAt(s, e, i);
  }

  /** Offering one more entry to a buffer that holds the first `k` of the sorted stream. */
  lemma {:induction false} OfferKeepsPrefix(stream: seq<Entry>, e: Entry, k: nat)
    ensures Take(StableSort(stream + [e]), k) == Take(Insert(Take(StableSort(stream), k), e), k)
  {
    StableSortIsStableSort(stream);
    TruncateCommutes(StableSort(stream), e, k);
    assert (stream + [e])[..|stream|] == stream;
  }

  /** A bounded buffer stays sorted, and its last entry gets no further away. */
  lemma {:induction false} OfferSorted(s: seq<Entry>, e: Entry, k: nat)
    requires |s| <= k && Sorted(s)
    ensures var t := Take(Insert(s, e), k);
      Sorted(t) && |s| <= |t| <= k && (|s| == k && 0 < k ==> t[k - 1].dist <= s[k - 1].dist)
  {
    hide Insert;
    InsertSorted(s, e);
    if |s| == k && 0 < k {
      var i := Landing(s, e);
      InsertSlots(s, e, i, k);
      var t := Take(Insert(s, e), k);
      assert t[k - 1] == if k - 1 < i then s[k - 1] else if k - 1 == i then e else s[k - 2];
    }
  }

  /** Slot by slot, two parallel arrays hold these entries. */
  ghost predicate Hold(dists: seq<real>, indices: seq<nat>, s: seq<Entry>) {
    && |s| <= |dists| && |s| <= |indices|
    && forall j {:trigger s[j]} :: 0 <= j < |s| ==> s[j] == Entry(dists[j], indices[j])
  }

  /** `b` is `a` with its elements from `i` up moved one up and `v` in their place, as far as slot `n`. */
  ghost predicate Shifted<T>(a: seq<T>, b: seq<T>, v: T, i: nat, n: nat) {
    && n <= |a| == |b|
    && forall j {:trigger b[j]} :: 0 <= j < n ==> b[j] == if j < i then a[j] else if j == i then v else a[j - 1]
  }

  /** The arrays after the shift hold what the insertion leaves of the buffer. */
  lemma {:induction false} ShiftedHold(d: seq<real>, x: seq<nat>, d': seq<real>, x': seq<nat>, s: seq<Entry>, e: Entry,
        i: nat, k: nat, n: nat)
    requires Hold(d, x, s) && |s| <= k && LandsAt(s, e, i) && n == if |s| < k then |s| + 1 else k
    requires Shifted(d, d', e.dist, i, n) && Shifted(x, x', e.index, i, n)
    ensures Hold(d', x', Take(Insert(s, e), k)) && |Take(Insert(s, e), k)| == n
  {
    hide Insert, Take;
    InsertSlots(s, e, i, k);
    var t := Take(Insert(s, e), k);
    forall j | 0 <= j < n ensures t[j] == Entry(d'[j], x'[j]) {
      assert t[j] == if j < i then s[j] else if j == i then e else s[j - 1];
      if i < j {
        assert s[j - 1] == Entry(d[j - 1], x[j - 1]);
      }
    }
  }

  /** The result set: two parallel arrays owned by the caller, filled in place. */
  class KNNResultSet {
    const indices: array<nat>
    const dists: array<real>
    const capacity: nat
    const MAX: real          // the largest value of the distance type
    var count: nat
    ghost var offered: seq<Entry>    // every entry offered so far, in order
    ghost var contents: seq<Entry>   // what the two arrays hold

    ghost predicate Valid()
      reads this, indices, dists
    {
      && |contents| == count <= capacity <= indices.Length
      && capacity <= dists.Length
      && (count < capacity ==> dists[capacity - 1] == MAX)
      && Hold(dists[..], indices[..], contents)
      && contents == Take(StableSort(offered), capacity)
    }

    /** Construction followed by `init`. */
    constructor (capacity: nat, indices: array<nat>, dists: array<real>, MAX: real)
      requires capacity <= indices.Length && capacity <= dists.Length
      modifies dists
      ensures Valid() && offered == [] && count == 0
      ensures this.capacity == capacity && this.indices == indices && this.dists == dists && this.MAX == MAX
      ensures forall i :: 0 <= i < dists.Length && i != capacity - 1 ==> dists[i] == old(dists[i])
    {
      this.capacity, this.indices, this.dists, this.MAX := capacity, indices, dists, MAX;
      count, offered, contents := 0, [], [];
      new;
      if capacity != 0 {
        dists[capacity - 1] := MAX;
      }
    }

    /** The array work of an insertion: shift the further entries up, dropping what exceeds the capacity. */
    method Store(dist: real, index: nat) returns (ghost i: nat)
      requires count <= capacity <= indices.Length && capacity <= dists.Length
      modifies this`count, indices, dists
      ensures count == if old(count) < capacity then old(count) + 1 else old(count)
      ensures i <= old(count)
      ensures i == 0 || old(dists[i - 1]) <= dist
      ensures forall j :: i <= j < old(count) ==> dist < old(dists[j])
      ensures forall j {:trigger dists[j]} :: 0 <= j < dists.Length ==>
        dists[j] == if j < i || count <= j then old(dists[j]) else if j == i then dist else old(dists[j - 1])
      ensures forall j {:trigger indices[j]} :: 0 <= j < indices.Length ==>
        indices[j] == if j < i || count <= j then old(indices[j]) else if j == i then index else old(indices[j - 1])
    {
      var at := count;
      while at > 0 && dists[at - 1] > dist
        invariant 0 <= at <= count == old(count)
        invariant forall j :: at <= j < count ==> dist < old(dists[j])
        invariant forall j {:trigger dists[j]} :: 0 <= j < dists.Length ==>
          dists[j] == if at < j <= count && j < capacity then old(dists[j - 1]) else old(dists[j])
        invariant forall j {:trigger indices[j]} :: 0 <= j < indices.Length ==>
          indices[j] == if at < j <= count && j < capacity then old(indices[j - 1]) else old(indices[j])
      {
        if at < capacity {
          dists[at] := dists[at - 1];
          indices[at] := indices[at - 1];
        }
        at := at - 1;
      }
      if at < capacity {
        dists[at] := dist;
        indices[at] := index;
      }
      if count < capacity {
        count := count + 1;
      }
      i := at;
    }

    /** One more entry is offered; the search is always told to go on. */
    method AddPoint(dist: real, index: nat) returns (more: bool)
      requires Valid()
      modifies this`count, this`offered, this`contents, indices, dists
      ensures Valid() && more
      ensures offered == old(offered) + [Entry(dist, index)]
      ensures contents == Take(Insert(old(contents), Entry(dist, index)), capacity)
      ensures forall i :: count <= i < indices.Length ==> indices[i] == old(indices[i])
    {
      hide Insert, Take, StableSort;
      ghost var e := Entry(dist, index);
      ghost var d, x := dists[..], indices[..];
      ghost var i := Store(dist, index);
      ShiftedHold(d, x, dists[..], indices[..], contents, e, i, capacity, count);
      OfferKeepsPrefix(offered, e, capacity);
      contents, offered := Take(Insert(contents, e), capacity), offered + [e];
      more := true;
    }

    /** The k-th smallest distance offered so far, or MAX while there are fewer. */
    method WorstDist() returns (d: real)
      requires Valid() && capacity > 0
      ensures d == if |offered| < capacity then MAX else StableSort(offered)[capacity - 1].dist
      ensures d == if count < capacity then MAX else contents[capacity - 1].dist
    {
      StableSortIsStableSort(offered);
      d := dists[capacity - 1];
      assert count == capacity ==> d == contents[capacity - 1].dist;
    }

    method Size() returns (n: nat)
      requires Valid()
      ensures n == |contents| == if |offered| < capacity then |offered| else capacity
    {
      StableSortIsStableSort(offered);
      n := count;
    }

    method Full() returns (full: bool)
      requires Valid()
      ensures full <==> capacity <= |offered|
      ensures full <==> count == capacity
    {
      StableSortIsStableSort(offered);
      full := count == capacity;
    }
  }
}
