/** Integer facts the solver should not have to rediscover inside larger proofs. */
module Arith {
  lemma MulAssoc(a: int, b: int, c: int)
    ensures a * (b * c) == (a * b) * c
  {
  }

  lemma MulSwap(a: int, b: int, c: int)
    ensures a * (b * c) == b * (a * c)
  {
  }

  lemma MulMono(x: int, y: int, z: int)
    requires 0 <= x && 0 <= y <= z
    ensures 0 <= x * y <= x * z
  {
  }

  /** Quotient and remainder are determined by the division equation. */
  lemma ModUnique(a: int, m: int, q: int, r: int)
    requires a == r + q * m && 0 <= r < m
    ensures a % m == r && a / m == q
  {
    if a / m < q {
      MulMono(m, a / m, q - 1);
    } else if a / m > q {
      MulMono(m, q + 1, a / m);
    }
  }

  lemma DivModOf(n: int, m: int, hi: int, lo: int)
    requires n == lo + m * hi && 0 <= lo < m
    ensures n / m == hi && n % m == lo
  {
    ModUnique(n, m, hi, lo);
  }

  lemma SameRemainder(a: int, b: int, q: int, m: int)
    requires m > 0 && a == b + q * m
    ensures a % m == b % m
  {
    ModUnique(a, m, b / m + q, b % m);
  }

  /** Two numbers below m that agree modulo m are the same number. */
  lemma SameResidue(a: int, b: int, m: int, j: int)
    requires 0 <= a < m && 0 <= b < m
    requires a - b == j * m
    ensures a == b
  {
    if j >= 1 {
      MulMono(m, 1, j);
    } else if j <= -1 {
      MulMono(m, 1, -j);
    }
  }

  lemma DivBound(x: int, p: int)
    requires x >= 0 && p >= 1
    ensures 0 <= x / p <= x
  {
    var q := x / p;
    assert x == p * q + x % p;
    assert q >= 0;
    MulMono(q, 1, p);
  }

  lemma DivSmall(x: int, p: int, q: int)
    requires 0 <= x < p * q && p > 0
    ensures 0 <= x / p < q
  {
    if x / p >= q {
      MulMono(p, q, x / p);
    }
  }

  lemma DivDiv(n: int, p: int, q: int)
    requires n >= 0 && p > 0 && q > 0
    ensures p * q > 0 && n / (p * q) == (n / p) / q
  {
    var m := n / p;
    var r := p * (m % q) + n % p;
    assert n == (m / q) * (p * q) + r by {
      assert n == p * m + n % p && m == q * (m / q) + m % q;
      assert p * (q * (m / q)) == (m / q) * (p * q);
    }
    MulMono(p, m % q + 1, q);
    ModUnique(n, p * q, m / q, r);
  }
}
