/**
 * The arithmetic of the logarithmic method: with n points stored, tree i holds 2^i of them when
 * bit i of n is set, and adding a point is incrementing a binary counter.
 */
module BinaryCounter {

  function Pow2(n: nat): (r: nat)
    ensures r > 0
  {
    if n == 0 then 1 else 2 * Pow2(n - 1)
  }

  /** Bit `i` of `n`. */
  predicate Bit(n: nat, i: nat) {
    if i == 0 then n % 2 == 1 else Bit(n / 2, i - 1)
  }

  /** `pos` is the least significant unset bit of `n`. */
  ghost predicate LowestZero(n: nat, pos: nat) {
    !Bit(n, pos) && forall i :: 0 <= i < pos ==> Bit(n, i)
  }

  lemma {:induction false} LowestZeroHalf(n: nat, pos: nat)
    requires n % 2 == 1
    ensures LowestZero(n, pos + 1) <==> LowestZero(n / 2, pos)
  {
    if LowestZero(n, pos + 1) {
      forall i | 0 <= i < pos ensures Bit(n / 2, i) {
        assert Bit(n, i + 1);
      }
    }
    if LowestZero(n / 2, pos) {
      forall i | 0 <= i < pos + 1 ensures Bit(n, i) {
        assert i == 0 || Bit(n / 2, i - 1);
      }
    }
  }

  /** Position of the least significant unset bit, by shifting. */
  method First0Bit(num: nat) returns (pos: nat)
    ensures LowestZero(num, pos)
  {
    pos := 0;
    var n := num;
    while n % 2 == 1
      invariant forall k: nat :: LowestZero(n, k) ==> LowestZero(num, pos + k)
      decreases n
    {
      forall k: nat | LowestZero(n / 2, k) ensures LowestZero(num, pos + 1 + k) {
        LowestZeroHalf(n, k);
        assert LowestZero(n, k + 1);
      }
      n := n / 2;
      pos := pos + 1;
    }
    assert LowestZero(n, 0);
  }

  /** The tree that holds point `p` when `n` points are stored: the highest bit in which they differ. */
  function TreeOf(n: nat, p: nat): nat
    requires p < n
  {
    if p / 2 == n / 2 then 0 else 1 + TreeOf(n / 2, p / 2)
  }

  /** Incrementing clears the low ones and sets the lowest zero. */
  lemma {:induction false} IncrementBits(n: nat, pos: nat, i: nat)
    requires LowestZero(n, pos)
    ensures Bit(n + 1, i) <==> i == pos || (pos < i && Bit(n, i))
  {
    if pos == 0 {
      assert (n + 1) / 2 == n / 2;
    } else {
      assert Bit(n, 0);
      assert (n + 1) / 2 == n / 2 + 1;
      LowestZeroHalf(n, pos - 1);
      if i > 0 {
        IncrementBits(n / 2, pos - 1, i - 1);
      }
    }
  }

  /** A point is held by a tree whose bit is set. */
  lemma {:induction false} HeldBySetBit(n: nat, p: nat)
    requires p < n
    ensures Bit(n, TreeOf(n, p))
  {
    if p / 2 != n / 2 {
      HeldBySetBit(n / 2, p / 2);
    }
  }

  /** Adding a point moves the points of all trees below the lowest zero into that tree. */
  lemma {:induction false} IncrementTree(n: nat, pos: nat, p: nat)
    requires LowestZero(n, pos) && p <= n
    ensures TreeOf(n + 1, p) == if p == n || TreeOf(n, p) < pos then pos else TreeOf(n, p)
    ensures p < n ==> TreeOf(n, p) != pos
  {
    if p < n {
      HeldBySetBit(n, p);
    }
    if pos == 0 {
      assert (n + 1) / 2 == n / 2;
    } else {
      assert Bit(n, 0);
      assert (n + 1) / 2 == n / 2 + 1;
      LowestZeroHalf(n, pos - 1);
      IncrementTree(n / 2, pos - 1, p / 2);
    }
  }

  /** The points moved by an addition are the last ones stored. */
  lemma {:induction false} MovedAreLast(n: nat, pos: nat, p: nat)
    requires LowestZero(n, pos) && p < n
    ensures TreeOf(n, p) < pos <==> n + 1 <= p + Pow2(pos)
  {
    if pos != 0 {
      assert Bit(n, 0);
      LowestZeroHalf(n, pos - 1);
      if p / 2 != n / 2 {
        MovedAreLast(n / 2, pos - 1, p / 2);
      }
    }
  }

  lemma {:induction false} BitBound(n: nat, i: nat)
    requires Bit(n, i)
    ensures Pow2(i) <= n
  {
    if i > 0 {
      BitBound(n / 2, i - 1);
    }
  }

  /** The lowest zero stays below `t` exactly until the counter is all ones. */
  lemma {:induction false} LowestZeroBelow(n: nat, pos: nat, t: nat)
    requires LowestZero(n, pos) && n < Pow2(t)
    ensures pos <= t && (pos < t <==> n + 1 < Pow2(t))
  {
    if pos == 0 {
    } else {
      assert Bit(n, 0);
      LowestZeroHalf(n, pos - 1);
      LowestZeroBelow(n / 2, pos - 1, t - 1);
    }
  }

  /** As points are added, a point only ever moves to higher trees. */
  lemma {:induction false} TreesGrow(n: nat, m: nat, p: nat)
    requires p < n <= m
    ensures TreeOf(n, p) <= TreeOf(m, p)
  {
    if p / 2 != n / 2 {
      TreesGrow(n / 2, m / 2, p / 2);
    }
  }

  /** A point stays in its tree until the counter carries past that tree's bit. */
  lemma {:induction false} StaysUntilCarry(n: nat, m: nat, p: nat)
    requires p < n <= m
    ensures TreeOf(m, p) == TreeOf(n, p) <==> m / Pow2(TreeOf(n, p) + 1) == p / Pow2(TreeOf(n, p) + 1)
  {
    var t := TreeOf(n, p);
    if p / 2 == n / 2 {
      assert Pow2(1) == 2;
    } else {
      TreesGrow(n, m, p);
      StaysUntilCarry(n / 2, m / 2, p / 2);
      HalveTwice(m, Pow2(t));
      HalveTwice(p, Pow2(t));
    }
  }

  lemma HalveTwice(x: nat, k: nat)
    requires 0 < k
    ensures x / (2 * k) == x / 2 / k
  {
    var q, r := x / 2 / k, x / 2 % k;
    assert x / 2 == k * q + r;
    assert x == (2 * k) * q + (2 * r + x % 2);
    DivUnique(x, 2 * k, q, 2 * r + x % 2);
  }

  lemma DivUnique(x: nat, d: nat, q: nat, r: nat)
    requires 0 < d && x == d * q + r && r < d
    ensures x / d == q
  {
    var q', r' := x / d, x % d;
    assert d * (q' - q) == r - r';
    MultipleIsLarge(d, q' - q);
    MultipleIsLarge(d, q - q');
  }

  lemma MultipleIsLarge(d: nat, k: int)
    requires 0 < d
    ensures 1 <= k ==> d <= d * k
  {
    if 1 <= k {
      assert 0 <= d * (k - 1);
    }
  }

  /** The number of trees set up for a maximum number of points: its binary logarithm, rounded down. */
  function Log2(m: nat): (t: nat)
    requires 0 < m
    ensures Pow2(t) <= m < Pow2(t + 1)
  {
    if m < 2 then assert Pow2(1) == 2; 0 else 1 + Log2(m / 2)
  }

  /** What truncating a floating-point logarithm can give: just below a power of two it may have been rounded up. */
  predicate Truncated(t: nat, m: nat)
    requires 0 < m
  {
    t == Log2(m) || t == Log2(m) + 1
  }
}
