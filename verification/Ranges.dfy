/** Rearrangements of a sub-range of a sequence, the effect of the in-place index shuffling. */
module Ranges {

  /** `t` is `s` with the elements of `[lo, hi)` rearranged and all others in place. */
  ghost predicate RangePermuted<T>(s: seq<T>, t: seq<T>, lo: nat, hi: nat) {
    && lo <= hi <= |s| == |t|
    && s[..lo] == t[..lo]
    && s[hi..] == t[hi..]
    && multiset(s[lo..hi]) == multiset(t[lo..hi])
  }

  lemma SwapIsPermutation<T>(s: seq<T>, lo: nat, hi: nat, i: nat, j: nat)
    requires lo <= i < j < hi <= |s|
    ensures RangePermuted(s, s[i := s[j]][j := s[i]], lo, hi)
  {
    var t := s[i := s[j]][j := s[i]];
    var a, b, c := s[lo..i], s[i + 1..j], s[j + 1..hi];
    assert s[lo..hi] == a + [s[i]] + b + [s[j]] + c;
    assert t[lo..hi] == a + [s[j]] + b + [s[i]] + c;
    assert s[..lo] == t[..lo];
    assert s[hi..] == t[hi..];
  }

  lemma RangeFits<T>(s: seq<T>, t: seq<T>, lo: nat, hi: nat)
    requires RangePermuted(s, t, lo, hi)
    ensures lo <= hi <= |s| == |t|
  {
  }

  lemma Compose<T>(s: seq<T>, t: seq<T>, u: seq<T>, lo: nat, hi: nat)
    requires RangePermuted(s, t, lo, hi) && RangePermuted(t, u, lo, hi)
    ensures RangePermuted(s, u, lo, hi)
  {
  }

  lemma Widen<T>(s: seq<T>, t: seq<T>, lo: nat, hi: nat, lo': nat, hi': nat)
    requires RangePermuted(s, t, lo, hi) && lo' <= lo && hi <= hi' <= |s|
    ensures RangePermuted(s, t, lo', hi')
  {
    assert s[lo'..hi'] == s[lo'..lo] + s[lo..hi] + s[hi..hi'];
    assert t[lo'..hi'] == t[lo'..lo] + t[lo..hi] + t[hi..hi'];
    assert s[lo'..lo] == s[..lo][lo'..] && t[lo'..lo] == t[..lo][lo'..];
    assert s[hi..hi'] == s[hi..][..hi' - hi] && t[hi..hi'] == t[hi..][..hi' - hi];
    assert s[..lo'] == s[..lo][..lo'] && t[..lo'] == t[..lo][..lo'];
    assert s[hi'..] == s[hi..][hi' - hi..] && t[hi'..] == t[hi..][hi' - hi..];
  }

  /** Elements outside the range stay put. */
  lemma Outside<T>(s: seq<T>, t: seq<T>, lo: nat, hi: nat, j: nat)
    requires RangePermuted(s, t, lo, hi) && j < |s| && (j < lo || hi <= j)
    ensures s[j] == t[j]
  {
    if j < lo {
      assert s[j] == s[..lo][j] && t[j] == t[..lo][j];
    } else {
      assert s[j] == s[hi..][j - hi] && t[j] == t[hi..][j - hi];
    }
  }

  /** Every element of the rearranged range was somewhere in that range before. */
  lemma CameFrom<T>(s: seq<T>, t: seq<T>, lo: nat, hi: nat, j: nat) returns (i: nat)
    requires RangePermuted(s, t, lo, hi) && lo <= j < hi
    ensures lo <= i < hi && s[i] == t[j]
  {
    assert t[j] == t[lo..hi][j - lo];
    assert t[j] in multiset(t[lo..hi]);
    assert t[j] in s[lo..hi];
    var k :| 0 <= k < hi - lo && s[lo..hi][k] == t[j];
    i := lo + k;
  }

  /** Swapping the two sides of the rearrangement. */
  lemma Symmetric<T>(s: seq<T>, t: seq<T>, lo: nat, hi: nat)
    requires RangePermuted(s, t, lo, hi)
    ensures RangePermuted(t, s, lo, hi)
  {
  }

  ghost predicate Distinct<T>(s: seq<T>) {
    forall i, j :: 0 <= i < j < |s| ==> s[i] != s[j]
  }

  lemma {:induction false} DistinctIffSingletons<T>(s: seq<T>)
    ensures Distinct(s) <==> forall x :: x in multiset(s) ==> multiset(s)[x] == 1
  {
    if s != [] {
      var m := |s| - 1;
      var p, y := s[..m], s[m];
      DistinctIffSingletons(p);
      assert s == p + [y];
      assert Distinct(s) <==> Distinct(p) && y !in p;
      assert y !in p <==> multiset(s)[y] == 1;
      assert forall x :: x != y ==> multiset(s)[x] == multiset(p)[x];
      if y !in p {
        assert forall x :: x in multiset(p) ==> x != y && x in multiset(s);
      }
    }
  }

  /** A rearrangement of distinct elements is distinct. */
  lemma KeepsDistinct<T>(s: seq<T>, t: seq<T>)
    requires multiset(s) == multiset(t) && Distinct(s)
    ensures Distinct(t)
  {
    DistinctIffSingletons(s);
    DistinctIffSingletons(t);
  }
}
