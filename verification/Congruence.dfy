/** Congruence of integers. */
module Congruence {
  import opened Powers
  import opened Divisors

  predicate Cong(a: int, b: int, m: int) {
    Divides(m, a - b)
  }

  lemma CongSame(a: int, m: int)
    ensures Cong(a, a, m)
  {
    DividesByFactor(m, 0, 0);
  }

  lemma CongSym(a: int, b: int, m: int)
    requires Cong(a, b, m)
    ensures Cong(b, a, m)
  {
    DividesCombination(m, a - b, a - b, -1, 0);
  }

  lemma CongTrans(a: int, b: int, c: int, m: int)
    requires Cong(a, b, m) && Cong(b, c, m)
    ensures Cong(a, c, m)
  {
    DividesCombination(m, a - b, b - c, 1, 1);
  }

  lemma CongAdd(a: int, b: int, c: int, d: int, m: int)
    requires Cong(a, b, m) && Cong(c, d, m)
    ensures Cong(a + c, b + d, m) && Cong(a - c, b - d, m)
  {
    DividesCombination(m, a - b, c - d, 1, 1);
    DividesCombination(m, a - b, c - d, 1, -1);
  }

  lemma ProductDifference(a: int, b: int, c: int, d: int)
    ensures c * (a - b) + b * (c - d) == a * c - b * d
  {
  }

  lemma CongMul(a: int, b: int, c: int, d: int, m: int)
    requires Cong(a, b, m) && Cong(c, d, m)
    ensures Cong(a * c, b * d, m)
  {
    DividesCombination(m, a - b, c - d, c, b);
    ProductDifference(a, b, c, d);
  }

  /** Numbers that differ by a multiple of d are congruent modulo every divisor of d. */
  lemma CongReduced(x: int, q: int, d: int, r: int, m: int)
    requires x == q * d + r && Divides(m, d)
    ensures Cong(r, x, m)
  {
    DividesCombination(m, d, d, -q, 0);
  }

  lemma {:induction false} CongPow(a: int, b: int, n: nat, m: int)
    requires Cong(a, b, m)
    ensures Cong(Pow(a, n), Pow(b, n), m)
  {
    if n == 0 {
      CongSame(1, m);
    } else {
      CongPow(a, b, n - 1, m);
      PowStep(a, n - 1);
      PowStep(b, n - 1);
      CongMul(a, b, Pow(a, n - 1), Pow(b, n - 1), m);
    }
  }
}
