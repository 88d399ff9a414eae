/** The few facts about products and quotients that the solver does not find by itself. */
module Arithmetic {

  lemma TimesTen(x: int, y: int)
    ensures x * (10 * y) == 10 * (x * y)
  {
  }

  lemma MulAtLeast(x: int, m: nat)
    requires x >= 1
    ensures x * m >= m
  {
    assert (x - 1) * m >= 0;
  }

  lemma DivUnique(n: int, q: int, r: int, m: nat)
    requires m > 0 && n == q * m + r && 0 <= r < m
    ensures n / m == q && n % m == r
  {
    var q', r' := n / m, n % m;
    assert n == q' * m + r';
    Distribute(q, q', m);
    Distribute(q', q, m);
    if q' < q {
      MulAtLeast(q - q', m);
    } else if q < q' {
      MulAtLeast(q' - q, m);
    }
  }

  lemma Distribute(a: int, b: int, m: int)
    ensures (a - b) * m == a * m - b * m
  {
  }

  lemma QuotientBounds(n: int, m: nat)
    requires m > 0
    ensures n / m * m <= n < n / m * m + m
  {
  }

  /** Quotients by one divisor follow the order of multiples. */
  lemma QuotientAtLeast(n: int, q: int, m: nat)
    requires m > 0
    ensures q * m <= n <==> q <= n / m
  {
    var k := n / m;
    QuotientBounds(n, m);
    Distribute(k, q, m);
    Distribute(q, k, m);
    if q <= k {
      assert (k - q) * m >= 0;
    } else {
      MulAtLeast(q - k, m);
    }
  }

  lemma Associate(x: int, y: int, z: int)
    ensures x * (y * z) == (x * y) * z
  {
  }

  lemma MulOrder(a: int, b: int, r: nat)
    requires r > 0
    ensures a * r <= b * r <==> a <= b
  {
    Distribute(a, b, r);
    Distribute(b, a, r);
    if a <= b {
      assert (b - a) * r >= 0;
    } else {
      MulAtLeast(a - b, r);
    }
  }

  lemma Euclid(n: int, m: nat)
    requires m > 0
    ensures n == n / m * m + n % m && 0 <= n % m < m
  {
  }

  lemma DistributeSum(a: int, b: int, m: int)
    ensures (a + b) * m == a * m + b * m
  {
  }

  lemma QuotientIs(n: int, q: int, m: nat)
    requires m > 0
    ensures q * m <= n < q * m + m <==> n / m == q
  {
    QuotientAtLeast(n, q, m);
    QuotientAtLeast(n, q + 1, m);
    DistributeSum(q, 1, m);
  }

  lemma NestedDiv(n: int, a: nat, b: nat)
    requires a > 0 && b > 0 && a * b > 0
    ensures n / a / b == n / (a * b)
  {
    var q := n / a / b;
    QuotientIs(n / a, q, b);
    QuotientAtLeast(n, q * b, a);
    QuotientAtLeast(n, q * b + b, a);
    DistributeSum(q * b, b, a);
    Associate(q, b, a);
    assert b * a == a * b;
    QuotientIs(n, q, a * b);
  }
}
