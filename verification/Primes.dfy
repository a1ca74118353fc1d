/** Primes: Euclid's lemma, Fermat's little theorem, and square roots of one. */
module Primes {
  import opened Arith
  import opened Powers
  import opened Divisors
  import opened Congruence

  ghost predicate IsPrime(p: int) {
    1 < p && forall d: int :: 1 < d < p ==> !Divides(d, p)
  }

  /** A prime divides a factor of every product it divides. */
  lemma EuclidLemma(p: int, a: int, b: int)
    requires IsPrime(p) && Divides(p, a * b)
    ensures Divides(p, a) || Divides(p, b)
  {
    var m := if a < 0 then -a else a;
    var g := Gcd(p, m);
    GcdIsGcd(p, m);
    DividesBound(g, p);
    if g == 1 {
      if a < 0 {
        assert m * b == -(a * b);
        DividesCombination(p, a * b, a * b, -1, 0);
      }
      CoprimeDivides(p, m, b);
    } else {
      assert g == p;
      DividesCombination(p, m, m, if a < 0 then -1 else 1, 0);
    }
  }

  // --- binomial coefficients ---

  function Choose(n: nat, k: nat): nat {
    if k == 0 then 1
    else if n == 0 then 0
    else Choose(n - 1, k - 1) + Choose(n - 1, k)
  }

  lemma {:induction false} ChooseAbove(n: nat, k: nat)
    requires n < k
    ensures Choose(n, k) == 0
  {
    if n > 0 {
      ChooseAbove(n - 1, k - 1);
      ChooseAbove(n - 1, k);
    }
  }

  lemma {:induction false} ChooseAll(n: nat)
    ensures Choose(n, n) == 1
  {
    if n > 0 {
      ChooseAll(n - 1);
      ChooseAbove(n - 1, n);
    }
  }

  /** k C(n, k) = n C(n-1, k-1). */
  lemma {:induction false} Absorption(n: nat, k: nat)
    requires 1 <= n && 1 <= k
    ensures k * Choose(n, k) == n * Choose(n - 1, k - 1)
  {
    if n == 1 {
      if k > 1 {
        ChooseAbove(1, k);
      }
    } else if k > 1 {
      Absorption(n - 1, k);
      Absorption(n - 1, k - 1);
      AbsorptionStep(n, k, Choose(n - 1, k), Choose(n - 1, k - 1), Choose(n - 2, k - 1), Choose(n - 2, k - 2));
    } else {
      Absorption(n - 1, 1);
    }
  }

  lemma AbsorptionStep(n: int, k: int, a: int, b: int, c: int, d: int)
    requires k * a == (n - 1) * c && (k - 1) * b == (n - 1) * d && b == d + c
    ensures k * (b + a) == n * b
  {
  }

  /** The sum of C(n, i) a^i for i below k. */
  function BinomialSum(a: int, n: nat, k: nat): int {
    if k == 0 then 0 else BinomialSum(a, n, k - 1) + Choose(n, k - 1) * Pow(a, k - 1)
  }

  lemma {:induction false} PascalSum(a: int, n: nat, k: nat)
    ensures BinomialSum(a, n + 1, k + 1) == BinomialSum(a, n, k + 1) + a * BinomialSum(a, n, k)
  {
    if k > 0 {
      PascalSum(a, n, k - 1);
      PowStep(a, k - 1);
      PascalTerm(a, Choose(n, k - 1), Choose(n, k), Pow(a, k - 1), BinomialSum(a, n, k - 1));
    }
  }

  lemma PascalTerm(a: int, c: int, d: int, p: int, s: int)
    ensures (c + d) * (a * p) == d * (a * p) + a * (c * p)
    ensures a * (s + c * p) == a * s + a * (c * p)
  {
    Distribute(a * p, c, d);
    Assoc(c, a, p);
    Assoc(a, c, p);
  }

  lemma RowAbove(a: int, n: nat)
    ensures BinomialSum(a, n + 1, n + 2) == BinomialSum(a, n, n + 1) + a * BinomialSum(a, n, n + 1)
  {
    PascalSum(a, n, n + 1);
    ChooseAbove(n, n + 1);
  }

  lemma PlusOne(a: int, s: int)
    ensures (a + 1) * s == s + a * s
  {
  }

  /** The binomial theorem for (a + 1)^n. */
  lemma {:induction false} Binomial(a: int, n: nat)
    ensures Pow(a + 1, n) == BinomialSum(a, n, n + 1)
  {
    if n == 0 {
      PowStep(a, 0);
      PowStep(a + 1, 0);
      assert BinomialSum(a, 0, 0) == 0;
    } else {
      Binomial(a, n - 1);
      PowStep(a + 1, n - 1);
      RowAbove(a, n - 1);
      PlusOne(a, BinomialSum(a, n - 1, n));
    }
  }

  // --- Fermat ---

  lemma ChoosePrime(p: nat, k: nat)
    requires IsPrime(p) && 0 < k < p
    ensures Divides(p, Choose(p, k))
  {
    Absorption(p, k);
    DividesMultiple(p, Choose(p - 1, k - 1));
    EuclidLemma(p, k, Choose(p, k));
    if Divides(p, k) {
      DividesBound(p, k);
    }
  }

  lemma {:induction false} MiddleVanishes(a: int, p: nat, k: nat)
    requires IsPrime(p) && 1 <= k <= p
    ensures Cong(BinomialSum(a, p, k), 1, p)
  {
    if k == 1 {
      PowStep(a, 0);
      assert BinomialSum(a, p, 0) == 0;
      CongSame(1, p);
    } else {
      MiddleVanishes(a, p, k - 1);
      ChoosePrime(p, k - 1);
      var c := Choose(p, k - 1);
      DividesCombination(p, BinomialSum(a, p, k - 1) - 1, c, 1, Pow(a, k - 1));
    }
  }

  lemma LastTerm(a: int, n: nat)
    ensures Pow(a + 1, n) == BinomialSum(a, n, n) + Pow(a, n)
  {
    Binomial(a, n);
    ChooseAll(n);
  }

  lemma {:induction false} FermatNat(a: nat, p: nat)
    requires IsPrime(p)
    ensures Cong(Pow(a, p), a, p)
  {
    if a == 0 {
      PowStep(0, p - 1);
      CongSame(0, p);
    } else {
      FermatNat(a - 1, p);
      LastTerm(a - 1, p);
      MiddleVanishes(a - 1, p, p);
      CongAdd(BinomialSum(a - 1, p, p), 1, Pow(a - 1, p), a - 1, p);
    }
  }

  lemma CongMod(a: int, m: int)
    requires 0 < m
    ensures Cong(a, a % m, m)
  {
    DivMod(a, m);
    DividesByFactor(m, a - a % m, a / m);
  }

  /** Fermat's little theorem. */
  lemma Fermat(a: int, p: int)
    requires IsPrime(p) && !Divides(p, a)
    ensures Cong(Pow(a, p - 1), 1, p)
  {
    var r := a % p;
    DivMod(a, p);
    CongMod(a, p);
    CongPow(a, r, p, p);
    FermatNat(r, p);
    CongSym(a, r, p);
    CongTrans(Pow(a, p), Pow(r, p), r, p);
    CongTrans(Pow(a, p), r, a, p);
    PowStep(a, p - 1);
    Distribute(a, Pow(a, p - 1), 1);
    EuclidLemma(p, a, Pow(a, p - 1) - 1);
  }

  /** Modulo a prime, one has no square roots but 1 and -1. */
  lemma SquareRootsOfOne(s: int, p: int)
    requires IsPrime(p) && Cong(s * s, 1, p)
    ensures Cong(s, 1, p) || Cong(s, -1, p)
  {
    assert s * s - 1 == (s - 1) * (s + 1);
    EuclidLemma(p, s - 1, s + 1);
  }
}
