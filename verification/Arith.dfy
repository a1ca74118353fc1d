/** Integer facts the solver does not find by itself, each small enough to be called where it is needed. */
module Arith {

  lemma MulNonneg(x: int, y: int)
    requires 0 <= x && 0 <= y
    ensures 0 <= x * y
  {
  }

  lemma MulMono(x: int, y: int, k: int)
    requires x <= y && 0 <= k
    ensures x * k <= y * k
  {
    MulNonneg(y - x, k);
  }

  lemma MulStrict(x: int, y: int, k: int)
    requires x < y && 0 < k
    ensures x * k < y * k
  {
    MulMono(x + 1, y, k);
  }

  lemma MulCancel(x: int, y: int, k: int)
    requires k > 0 && x * k < y * k
    ensures x < y
  {
    if x >= y {
      MulMono(y, x, k);
    }
  }

  lemma MulBound(x: int, y: int, a: int, b: int)
    requires 0 <= x <= a && 0 <= y <= b
    ensures 0 <= x * y <= a * b
  {
    MulNonneg(x, y);
    MulMono(x, a, y);
    MulMono(y, b, a);
  }

  lemma Distribute(r: int, d: int, e: int)
    ensures r * (d + e) == r * d + r * e
    ensures r * (d - e) == r * d - r * e
  {
  }

  lemma Assoc(x: int, y: int, z: int)
    ensures x * y * z == x * (y * z)
  {
  }

  lemma DivMod(n: int, d: int)
    requires 0 < d
    ensures n == n / d * d + n % d && 0 <= n % d < d
  {
  }

  /** A quotient and remainder are determined by their defining equation. */
  lemma DivModUnique(n: int, d: int, q: int, r: int)
    requires d > 0 && n == q * d + r && 0 <= r < d
    ensures n / d == q && n % d == r
  {
    DivModPairUnique(d, n / d, n % d, q, r);
  }

  lemma DivModPairUnique(d: int, q: int, r: int, q': int, r': int)
    requires d > 0 && q * d + r == q' * d + r' && 0 <= r < d && 0 <= r' < d
    ensures q == q' && r == r'
  {
    if q < q' {
      MulMono(q + 1, q', d);
    } else if q' < q {
      MulMono(q' + 1, q, d);
    }
  }

  lemma DivLower(y: int, p: int, k: int)
    requires 0 < p && k * p <= y
    ensures k <= y / p
  {
    DivMod(y, p);
    if y / p + 1 <= k {
      MulMono(y / p + 1, k, p);
    }
  }

  lemma DivMono(x: int, y: int, d: int)
    requires x <= y && 0 < d
    ensures x / d <= y / d
  {
    DivMod(x, d);
    DivLower(y, d, x / d);
  }
}
