/** The little non-linear arithmetic the proofs need, one small fact at a time. */
module Arith {
  lemma MulSign(d: int, m: int)
    requires m > 0
    ensures d >= 1 ==> d * m >= m
    ensures d >= 0 ==> d * m >= 0
    ensures d <= -1 ==> d * m <= -m
  {
  }

  lemma DivNonNegative(x: int, m: int)
    requires x >= 0 && m > 0
    ensures x / m >= 0
  {
  }

  lemma DivLess(x: int, m: int, t: int)
    requires m > 0 && x < t * m
    ensures x / m < t
  {
    var q := x / m;
    assert x == q * m + x % m;
    assert (q - t) * m == q * m - t * m < 0;
    MulSign(q - t, m);
  }

  /** Quotient and remainder are unique. */
  lemma DivModUnique(x: int, m: int, q: int, r: int)
    requires 0 <= r < m && x == q * m + r
    ensures x % m == r && x / m == q
  {
    var d := x / m - q;
    assert d * m == r - x % m by {
      assert x == (x / m) * m + x % m;
      assert d * m == (x / m) * m - q * m;
    }
    MulSign(d, m);
  }

  lemma ModPredecessor(k: int, m: int)
    requires k > 0 && m > 0
    ensures (k - 1) % m == if k % m == 0 then m - 1 else k % m - 1
  {
    var q := k / m;
    assert k == q * m + k % m;
    if k % m == 0 {
      assert k - 1 == (q - 1) * m + (m - 1);
      DivModUnique(k - 1, m, q - 1, m - 1);
    } else {
      DivModUnique(k - 1, m, q, k % m - 1);
    }
  }

  /** Adding a multiple of `m` does not change the remainder. */
  lemma ModShift(k: int, d: int, m: int)
    requires m > 0 && d % m == 0
    ensures (k + d) % m == k % m
  {
    var q := k / m + d / m;
    assert k + d == q * m + k % m by {
      assert k == (k / m) * m + k % m;
      assert d == (d / m) * m;
      assert q * m == (k / m) * m + (d / m) * m;
    }
    DivModUnique(k + d, m, q, k % m);
  }

  /** Reducing early does not change the final remainder. */
  lemma ModAdd(a: int, b: int, m: int)
    requires m > 0
    ensures (a % m + b) % m == (a + b) % m
  {
    var d := (a / m) * m;
    DivModUnique(d, m, a / m, 0);
    ModShift(a % m + b, d, m);
  }
}
