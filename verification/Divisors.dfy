/** Divisibility and the greatest common divisor. */
module Divisors {
  import opened Arith
  import opened Powers

  predicate Divides(d: int, n: int) {
    if d == 0 then n == 0 else n % d == 0
  }

  lemma Cofactor(d: int, n: int) returns (k: int)
    requires Divides(d, n)
    ensures n == k * d
  {
    k := if d == 0 then 0 else n / d;
  }

  lemma DividesByFactor(d: int, n: int, k: int)
    requires n == k * d
    ensures Divides(d, n)
  {
    if d > 0 {
      DivModUnique(n, d, k, 0);
    } else if d < 0 {
      ZeroRemainder(n % d, -d, n / d - k);
    }
  }

  lemma ZeroRemainder(r: int, d: int, k: int)
    requires 0 <= r < d && r == k * d
    ensures r == 0
  {
    DivModPairUnique(d, k, 0, 0, r);
  }

  lemma DividesCombination(d: int, a: int, b: int, x: int, y: int)
    requires Divides(d, a) && Divides(d, b)
    ensures Divides(d, x * a + y * b)
  {
    var j := Cofactor(d, a);
    var k := Cofactor(d, b);
    assert x * (j * d) + y * (k * d) == (x * j + y * k) * d;
    DividesByFactor(d, x * a + y * b, x * j + y * k);
  }

  lemma DividesBound(d: int, n: int)
    requires Divides(d, n) && 0 < n && 0 <= d
    ensures 0 < d <= n
  {
    var k := Cofactor(d, n);
    if k <= 0 {
      MulMono(k, 0, d);
    } else {
      MulMono(1, k, d);
    }
  }

  lemma MutualDivisors(a: int, b: int)
    requires 0 <= a && 0 <= b && Divides(a, b) && Divides(b, a)
    ensures a == b
  {
    if a > 0 {
      DividesBound(b, a);
    }
    if b > 0 {
      DividesBound(a, b);
    }
  }

  /** g is the non-negative common divisor of a and b that every common divisor divides. */
  ghost predicate IsGcd(g: int, a: int, b: int) {
    && 0 <= g && Divides(g, a) && Divides(g, b)
    && forall c: int :: Divides(c, a) && Divides(c, b) ==> Divides(c, g)
  }

  lemma IsGcdUnique(g: int, h: int, a: int, b: int)
    requires IsGcd(g, a, b) && IsGcd(h, a, b)
    ensures g == h
  {
    MutualDivisors(g, h);
  }

  /** A common divisor that is a combination of a and b is their greatest common divisor. */
  lemma BezoutIsGcd(g: int, a: int, b: int, s: int, t: int)
    requires 0 <= g && Divides(g, a) && Divides(g, b) && s * a + t * b == g
    ensures IsGcd(g, a, b)
  {
    forall c: int | Divides(c, a) && Divides(c, b) ensures Divides(c, g) {
      DividesCombination(c, a, b, s, t);
    }
  }

  /** Euclid's algorithm, as the definition. */
  function Gcd(a: nat, b: nat): nat
    decreases b
  {
    if b == 0 then a else Gcd(b, a % b)
  }

  lemma {:induction false} Bezout(a: nat, b: nat) returns (s: int, t: int)
    ensures s * a + t * b == Gcd(a, b)
    ensures Divides(Gcd(a, b), a) && Divides(Gcd(a, b), b)
    decreases b
  {
    if b == 0 {
      s, t := 1, 0;
      DividesByFactor(a, a, 1);
      DividesByFactor(a, 0, 0);
    } else {
      var s', t' := Bezout(b, a % b);
      var g := Gcd(b, a % b);
      DivMod(a, b);
      s, t := t', s' - t' * (a / b);
      assert s' * b + t' * (a - a / b * b) == s * a + t * b;
      DividesCombination(g, b, a % b, a / b, 1);
    }
  }

  lemma GcdIsGcd(a: nat, b: nat)
    ensures IsGcd(Gcd(a, b), a, b)
  {
    var s, t := Bezout(a, b);
    BezoutIsGcd(Gcd(a, b), a, b, s, t);
  }

  lemma GcdUnique(g: int, a: nat, b: nat)
    requires IsGcd(g, a, b)
    ensures g == Gcd(a, b)
  {
    GcdIsGcd(a, b);
    IsGcdUnique(g, Gcd(a, b), a, b);
  }

  // Two pairs with the same common divisors have the same gcd.
  lemma SameDivisors(a: nat, b: nat, a': nat, b': nat)
    requires forall c: int :: Divides(c, a) && Divides(c, b) <==> Divides(c, a') && Divides(c, b')
    ensures Gcd(a, b) == Gcd(a', b')
  {
    GcdIsGcd(a, b);
    GcdUnique(Gcd(a, b), a', b');
  }

  lemma GcdSwap(a: nat, b: nat)
    ensures Gcd(a, b) == Gcd(b, a)
  {
    SameDivisors(a, b, b, a);
  }

  lemma GcdShift(a: nat, b: nat, k: int)
    requires 0 <= a - k * b
    ensures Gcd(a - k * b, b) == Gcd(a, b)
  {
    forall c: int ensures Divides(c, a) && Divides(c, b) <==> Divides(c, a - k * b) && Divides(c, b) {
      if Divides(c, b) {
        if Divides(c, a) {
          DividesCombination(c, a, b, 1, -k);
        }
        if Divides(c, a - k * b) {
          DividesCombination(c, a - k * b, b, 1, k);
        }
      }
    }
    SameDivisors(a, b, a - k * b, b);
  }

  lemma OddCofactor(c: int, n: int)
    requires Divides(c, n) && n % 2 == 1
    ensures c % 2 == 1
  {
    var k := Cofactor(c, n);
    if c % 2 == 0 {
      EvenFactor(k, c / 2);
    }
  }

  lemma EvenFactor(k: int, h: int)
    ensures k * (2 * h) % 2 == 0
  {
    assert k * (2 * h) == 2 * (k * h);
  }

  lemma OddProduct(x: int, y: int, h: int, i: int)
    requires x == 2 * h + 1 && y == 2 * i + 1
    ensures x * y % 2 == 1
  {
    ProductOfOdds(h, i);
  }

  lemma HalfCofactor(c: int, k: int, a: int)
    requires c % 2 == 1 && 2 * a == k * c
    ensures a == k / 2 * c
  {
    if k % 2 == 1 {
      OddProduct(k, c, k / 2, c / 2);
    }
    assert k == 2 * (k / 2);
    Assoc(2, k / 2, c);
  }

  // An odd divisor of 2a divides a.
  lemma HalveDividend(c: int, a: int)
    requires c % 2 == 1 && Divides(c, 2 * a)
    ensures Divides(c, a)
  {
    var k := Cofactor(c, 2 * a);
    HalfCofactor(c, k, a);
    DividesByFactor(c, a, k / 2);
  }

  lemma GcdHalve(a: nat, b: nat)
    requires b % 2 == 1
    ensures Gcd(2 * a, b) == Gcd(a, b)
  {
    forall c: int ensures Divides(c, 2 * a) && Divides(c, b) <==> Divides(c, a) && Divides(c, b) {
      if Divides(c, b) {
        OddCofactor(c, b);
        if Divides(c, 2 * a) {
          HalveDividend(c, a);
        }
        if Divides(c, a) {
          DividesCombination(c, a, a, 2, 0);
        }
      }
    }
    SameDivisors(2 * a, b, a, b);
  }

  lemma {:induction false} GcdOdd(a: nat, b: nat, k: nat)
    requires b % 2 == 1
    ensures 0 <= a * Pow2(k) && Gcd(a * Pow2(k), b) == Gcd(a, b)
  {
    PowPositive(2, k);
    MulNonneg(a, Pow2(k));
    if k == 0 {
      PowStep(2, 0);
    } else {
      PowStep(2, k - 1);
      PowPositive(2, k - 1);
      MulNonneg(a, Pow2(k - 1));
      GcdOdd(a, b, k - 1);
      GcdHalve(a * Pow2(k - 1), b);
      assert a * Pow2(k) == 2 * (a * Pow2(k - 1));
    }
  }

  lemma ScaledCombination(s: int, a: int, t: int, b: int, k: int)
    ensures s * (a * k) + t * (b * k) == (s * a + t * b) * k
  {
    Assoc(s, a, k);
    Assoc(t, b, k);
  }

  lemma DividesScaled(g: int, a: int, k: int)
    requires Divides(g, a)
    ensures Divides(g * k, a * k)
  {
    var x := Cofactor(g, a);
    Assoc(x, g, k);
    DividesByFactor(g * k, a * k, x);
  }

  lemma GcdScale(a: nat, b: nat, k: nat)
    ensures 0 <= a * k && 0 <= b * k && Gcd(a * k, b * k) == Gcd(a, b) * k
  {
    var g := Gcd(a, b);
    MulNonneg(a, k);
    MulNonneg(b, k);
    MulNonneg(g, k);
    var s, t := Bezout(a, b);
    DividesScaled(g, a, k);
    DividesScaled(g, b, k);
    ScaledCombination(s, a, t, b, k);
    BezoutIsGcd(g * k, a * k, b * k, s, t);
    GcdUnique(g * k, a * k, b * k);
  }

  lemma GcdShiftedBy(a: nat, b: nat, i: nat, k: nat)
    requires a % 2 == 1
    ensures 0 <= a * Pow2(i) && 0 <= b * Pow2(k + i)
    ensures Gcd(a * Pow2(i), b * Pow2(k + i)) == Gcd(a, b) * Pow2(i)
  {
    PowAdd(2, k, i);
    PowPositive(2, i);
    Assoc(b, Pow2(k), Pow2(i));
    GcdOdd(b, a, k);
    GcdSwap(a, b);
    GcdSwap(a, b * Pow2(k));
    GcdScale(a, b * Pow2(k), Pow2(i));
  }

  /** Odd parts carry the odd part of the gcd; the smaller power of two is its even part. */
  lemma GcdOfShifted(a: nat, b: nat, i: nat, j: nat)
    requires a % 2 == 1 && b % 2 == 1
    ensures 0 <= a * Pow2(i) && 0 <= b * Pow2(j)
    ensures Gcd(a * Pow2(i), b * Pow2(j)) == Gcd(a, b) * Pow2(if i < j then i else j)
  {
    if i <= j {
      GcdShiftedBy(a, b, i, j - i);
    } else {
      GcdShiftedBy(b, a, j, i - j);
      GcdSwap(a * Pow2(i), b * Pow2(j));
      GcdSwap(a, b);
    }
  }

  lemma UnitCombination(s: int, d: int, t: int, a: int, b: int)
    requires s * d + t * a == 1
    ensures s * (d * b) + t * (a * b) == b
  {
    ScaledCombination(s, d, t, a, b);
  }

  lemma DividesMultiple(d: int, b: int)
    ensures Divides(d, d * b)
  {
    DividesByFactor(d, d * b, b);
  }

  /** A divisor of a product that is coprime to one factor divides the other. */
  lemma CoprimeDivides(d: nat, a: nat, b: int)
    requires Gcd(d, a) == 1 && Divides(d, a * b)
    ensures Divides(d, b)
  {
    var s, t := Bezout(d, a);
    UnitCombination(s, d, t, a, b);
    var x, y := d * b, a * b;
    DividesMultiple(d, b);
    CombinedDivides(d, x, y, s, t, b);
  }

  lemma CombinedDivides(d: int, x: int, y: int, s: int, t: int, b: int)
    requires Divides(d, x) && Divides(d, y) && s * x + t * y == b
    ensures Divides(d, b)
  {
    DividesCombination(d, x, y, s, t);
  }
}
