/** Powers, and powers of two in particular. */
module Powers {
  import opened Arith

  function PowRec(x: int, n: nat): int {
    if n == 0 then 1 else x * PowRec(x, n - 1)
  }

  /** x^n. The recursion sits one call below, so that Pow(x, n) is a plain term in products. */
  function Pow(x: int, n: nat): int {
    PowRec(x, n)
  }

  function Pow2(n: nat): int {
    Pow(2, n)
  }

  lemma PowStep(x: int, n: nat)
    ensures Pow(x, 0) == 1 && Pow(x, 1) == x
    ensures Pow(x, n + 1) == x * Pow(x, n)
  {
  }

  lemma {:induction false} PowPositive(x: int, n: nat)
    requires 0 < x
    ensures 0 < Pow(x, n)
  {
    if n > 0 {
      PowPositive(x, n - 1);
      PowStep(x, n - 1);
      MulStrict(0, Pow(x, n - 1), x);
    }
  }

  lemma {:induction false} PowAdd(x: int, m: nat, n: nat)
    ensures Pow(x, m + n) == Pow(x, m) * Pow(x, n)
  {
    if m > 0 {
      PowAdd(x, m - 1, n);
      PowStep(x, m - 1);
      PowStep(x, m - 1 + n);
      Assoc(x, Pow(x, m - 1), Pow(x, n));
    }
  }

  lemma {:induction false} PowMono(x: int, m: nat, n: nat)
    requires 1 < x && m <= n
    ensures Pow(x, m) <= Pow(x, n)
    ensures m < n ==> Pow(x, m) < Pow(x, n)
  {
    if m < n {
      PowMono(x, m, n - 1);
      PowPositive(x, n - 1);
      PowStep(x, n - 1);
      MulStrict(1, x, Pow(x, n - 1));
    }
  }

  lemma Pow2Values()
    ensures Pow2(0) == 1 && Pow2(1) == 2 && Pow2(8) == 256 && Pow2(32) == 0x1_0000_0000
    ensures Pow2(63) == 0x8000_0000_0000_0000 && Pow2(64) == 0x1_0000_0000_0000_0000
  {
    assert PowRec(2, 8) == 256;
    PowAdd(2, 8, 8);
    PowAdd(2, 16, 16);
    PowAdd(2, 32, 32);
    PowStep(2, 63);
  }

  /** The only divisors of a power of two are powers of two. */
  lemma {:induction false} DivisorOfPow2(x: int, y: int, n: nat) returns (i: nat)
    requires 0 < x && x * y == Pow2(n)
    ensures x == Pow2(i)
    decreases n, x
  {
    if n == 0 {
      if y <= 0 {
        MulMono(y, 0, x);
      } else {
        MulMono(1, y, x);
      }
      i := 0;
    } else {
      PowStep(2, n - 1);
      if x % 2 == 0 {
        Assoc(2, x / 2, y);
        i := DivisorOfPow2(x / 2, y, n - 1);
        PowStep(2, i);
        i := i + 1;
      } else {
        OddTimes(x, y);
        Assoc(2, y / 2, x);
        i := DivisorOfPow2(x, y / 2, n - 1);
      }
    }
  }

  lemma OddTimes(x: int, y: int)
    requires x % 2 == 1 && x * y % 2 == 0
    ensures y % 2 == 0
  {
    if y % 2 == 1 {
      ProductOfOdds(x / 2, y / 2);
    }
  }

  lemma ProductOfOdds(a: int, b: int)
    ensures (2 * a + 1) * (2 * b + 1) % 2 == 1
  {
    var h := 2 * (a * b) + a + b;
    assert (2 * a + 1) * (2 * b + 1) == 2 * h + 1;
  }

  lemma DivByProduct(x: int, a: int, b: int)
    requires 0 < a && 0 < b
    ensures 0 < a * b && x / (a * b) == x / a / b
    ensures x % (a * b) == x % a + a * (x / a % b)
  {
    MulStrict(0, a, b);
    var q, r := x / a, x % a;
    DivMod(x, a);
    DivMod(q, b);
    MulMono(q % b, b - 1, a);
    MulNonneg(q % b, a);
    Assoc(q / b, b, a);
    DivModUnique(x, a * b, q / b, r + a * (q % b));
  }

  lemma {:induction false} PowOfPower(x: int, k: nat, z: nat)
    ensures 0 <= k * z && Pow(Pow(x, k), z) == Pow(x, k * z)
  {
    MulNonneg(k, z);
    if z == 0 {
      PowStep(Pow(x, k), 0);
      PowStep(x, 0);
    } else {
      MulNonneg(k, z - 1);
      Distribute(k, z, 1);
      PowOfPower(x, k, z - 1);
      PowStep(Pow(x, k), z - 1);
      PowAdd(x, k, k * (z - 1));
      assert k * z == k + k * (z - 1);
    }
  }

  // --- powers of non-negative numbers ---

  lemma {:induction false} PowNonneg(x: nat, n: nat)
    ensures 0 <= Pow(x, n)
  {
    if n > 0 {
      PowNonneg(x, n - 1);
      PowStep(x, n - 1);
      MulNonneg(x, Pow(x, n - 1));
    }
  }

  lemma {:induction false} PowMonoBase(x: nat, y: nat, n: nat)
    requires x <= y
    ensures Pow(x, n) <= Pow(y, n)
    ensures x < y && 0 < n ==> Pow(x, n) < Pow(y, n)
  {
    if n > 0 {
      PowMonoBase(x, y, n - 1);
      PowNonneg(x, n - 1);
      PowStep(x, n - 1);
      PowStep(y, n - 1);
      MulMono(Pow(x, n - 1), Pow(y, n - 1), x);
      if x < y {
        PowPositive(y, n - 1);
        MulStrict(x, y, Pow(y, n - 1));
      }
    }
  }

  /** x is the integer part of the z-th root of y. */
  predicate FloorRoot(x: int, y: int, z: nat) {
    0 <= x && Pow(x, z) <= y < Pow(x + 1, z)
  }

  lemma FloorRootUnique(x: int, x': int, y: int, z: nat)
    requires FloorRoot(x, y, z) && FloorRoot(x', y, z)
    ensures x == x'
  {
    if x < x' {
      PowMonoBase(x + 1, x', z);
    } else if x' < x {
      PowMonoBase(x' + 1, x, z);
    }
  }

  lemma {:induction false} FloorRootExists(y: nat, z: nat) returns (x: nat)
    requires 1 <= z
    ensures FloorRoot(x, y, z)
  {
    if y == 0 {
      x := 0;
      PowStep(0, z - 1);
      PowPositive(1, z);
    } else {
      x := FloorRootExists(y - 1, z);
      if Pow(x + 1, z) <= y {
        x := x + 1;
        PowMonoBase(x, x + 1, z);
      }
    }
  }

  lemma FloorRootIsThere(y: nat, z: nat)
    requires 1 <= z
    ensures exists x: nat :: FloorRoot(x, y, z)
  {
    var x := FloorRootExists(y, z);
  }
}
