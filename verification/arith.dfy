/** Facts about Euclidean division shared by the display and BCD proofs. */
module Arith {

  /** Euclidean remainder is unique: a value m * q + r with 0 <= r < m leaves r. */
  lemma ModUnique(n: int, m: int, q: int, r: int)
    requires m > 0 && 0 <= r < m && n == m * q + r
    ensures n % m == r && n / m == q
  {
    var q', r' := n / m, n % m;
    assert m * (q' - q) == r - r';
    if q' != q {
      MulAtLeast(m, q' - q);
    }
  }

  /** A nonzero multiple of a positive m is at least m in size. */
  lemma {:induction false} MulAtLeast(m: int, d: int)
    requires m > 0 && d != 0
    ensures m * d >= m || m * d <= -m
    decreases if d > 0 then d else -d
  {
    if d > 1 {
      MulAtLeast(m, d - 1);
      assert m * d == m * (d - 1) + m;
    } else if d < -1 {
      MulAtLeast(m, d + 1);
      assert m * d == m * (d + 1) - m;
    }
  }
}
