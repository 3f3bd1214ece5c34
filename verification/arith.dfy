/** Small facts about integer multiplication, division and remainder that
    the solver does not find by itself; used to reason about row-major
    positions `row * width + column`. */
module Arith {

  lemma MulMono(a: int, b: int, m: nat)
    requires a <= b
    ensures a * m <= b * m
  {
    assert b * m - a * m == (b - a) * m;
  }

  /** A product of two naturals is positive exactly when both are. */
  lemma MulPositive(a: nat, b: nat)
    ensures a * b > 0 <==> a > 0 && b > 0
  {
    if a > 0 && b > 0 {
      MulMono(1, a, b);
    }
  }

  /** One more copy of `x` in a product. */
  lemma MulSucc(m: int, x: int)
    ensures m * x + x == (m + 1) * x
  {
  }

  /** `i * m + j` stays below `n * m` for `i < n` and `0 <= j < m`. */
  lemma MulStrictBound(i: int, j: int, m: nat, n: int)
    requires i < n && 0 <= j < m
    ensures i * m + j < n * m
  {
    MulMono(i + 1, n, m);
    assert (i + 1) * m == i * m + m;
  }

  /** Euclidean division is the unique quotient and remainder. */
  lemma DivModUnique(k: int, m: int, q: int, r: int)
    requires m > 0 && 0 <= r < m && k == q * m + r
    ensures k / m == q && k % m == r
  {
    var q', r' := k / m, k % m;
    assert k == q' * m + r' && 0 <= r' < m;
    if q' != q {
      if q' < q {
        MulMono(q' + 1, q, m);
      } else {
        MulMono(q + 1, q', m);
      }
    }
  }

  /** A position below `n * m` lies in one of the first `n` rows of width `m`. */
  lemma DivBound(k: int, m: int, n: int)
    requires m > 0 && 0 <= k < n * m
    ensures 0 <= k / m < n && 0 <= k % m < m
    ensures k == (k / m) * m + k % m
  {
    if k / m >= n {
      MulMono(n, k / m, m);
    }
  }
}
