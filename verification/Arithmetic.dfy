/** Facts about products, quotients and remainders that the solver does not find by itself. */
module Arithmetic {

  lemma MulMonotone(j: int, k: int, w: nat)
    requires j <= k
    ensures j * w <= k * w
  {
  }

  // the quotient is the only q with q * n <= x < q * n + n
  lemma QuotientUnique(x: int, q: int, n: nat)
    requires n > 0 && q * n <= x < q * n + n
    ensures x / n == q
  {
    var p := x / n;
    assert p * n <= x < p * n + n;
    if p < q {
      MulMonotone(p + 1, q, n);
    } else if q < p {
      MulMonotone(q + 1, p, n);
    }
  }

  lemma DivMonotone(x: int, y: int, n: nat)
    requires n > 0 && x <= y
    ensures x / n <= y / n
  {
    var q, r := x / n, y / n;
    assert q * n <= x && y < r * n + n;
    if r < q {
      MulMonotone(r + 1, q, n);
    }
  }

  lemma RemainderUnique(x: int, q: int, r: nat, n: nat)
    requires r < n && x == q * n + r
    ensures x % n == r
  {
    QuotientUnique(x, q, n);
  }

  lemma Distribute(n: nat, size: nat)
    ensures (n + 1) * size == n * size + size
  {
  }
}
