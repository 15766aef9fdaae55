/** The few facts of multiplication and division that the solver does not find by itself. */
module Arithmetic {
  lemma FactorOrder(k: int, n: int, m: nat)
    ensures k <= n ==> k * m <= n * m
  {
    assert (n - k) * m == n * m - k * m;
  }

  /** A multiple of m nearer to zero than m. */
  lemma Small(d: int, m: nat)
    requires m >= 1 && 0 - m < d * m < m
    ensures d == 0
  {
    FactorOrder(1, d, m);
    FactorOrder(d, -1, m);
  }

  lemma Cancel(a: int, b: int, m: nat)
    requires m >= 1
    ensures a * m == b * m <==> a == b
  {
    assert (a - b) * m == a * m - b * m;
    if a * m == b * m {
      Small(a - b, m);
    }
  }

  lemma Scaled(p2: int, p: int, x: int)
    requires p2 == 2 * p
    ensures p2 * x == 2 * (p * x) && x * p2 == 2 * (x * p)
  {
  }

  lemma Quotient(a: nat, m: nat, q: nat, r: nat)
    requires m >= 1 && a == q * m + r && r < m
    ensures a / m == q
  {
    var e := a / m;
    assert a == e * m + a % m;
    assert (e - q) * m == e * m - q * m;
    Small(e - q, m);
  }

  lemma Halving(a: nat, m: nat)
    requires m >= 1
    ensures a / (2 * m) == a / 2 / m
  {
    var q, r := a / 2 / m, a / 2 % m;
    var qm := q * m;
    assert a / 2 == qm + r;
    assert q * (2 * m) == 2 * qm;
    Quotient(a, 2 * m, q, 2 * r + a % 2);
  }

  lemma Doubling(x: nat, p: nat)
    requires p >= 1
    ensures x / (2 * p) == x / p / 2
  {
    var q, r := x / p, x % p;
    var h, b := q / 2, q % 2;
    assert q * p == (2 * h + b) * p == h * (2 * p) + b * p;
    assert b * p == if b == 1 then p else 0;
    Quotient(x, 2 * p, h, b * p + r);
  }

  lemma QuotientBound(n: nat, m: nat, d: int)
    requires m >= 1 && n * m <= d
    ensures n <= d / m
  {
    var q := d / m;
    assert d < (q + 1) * m by {
      assert d == q * m + d % m && (q + 1) * m == q * m + m;
    }
    FactorOrder(q + 1, n, m);
  }
}
