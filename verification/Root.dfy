/** Integer roots by Newton's method from above. */
module Root {
  import opened Arith
  import opened Powers
  import opened Limbs
  import opened LimbSeqs
  import opened Bits
  import opened Mpn
  import opened Mpzs
  import opened MpzDiv
  import opened MpzDiv2exp
  import opened MpzUi
  import opened MpnStr
  import opened GcdBinary
  import opened GcdExtended
  import opened PowMod
  import opened MpzSize

  // --- the Newton step ---

  lemma SquareOfDifference(x: int, R: int)
    ensures (x - R) * (x - R) == x * x - 2 * (x * R) + R * R
  {
  }

  lemma Products(z: int, p: int, x: int, y: int)
    ensures z * p * (x * y) == z * (x * (y * p))
  {
    Assoc(z, p, x * y);
    assert p * (x * y) == x * (y * p);
  }

  lemma SquareTimes(q: int, a: int, b: int, c: int)
    ensures q * (a - 2 * b + c) == q * a - 2 * (q * b) + q * c
  {
  }

  lemma Regroup(z: int, R: int, x: int, p: int)
    ensures z * (x * (R * p)) == z * R * (x * p)
    ensures z * (R * (R * p)) == z * R * (R * p)
  {
    assert x * (R * p) == R * (x * p);
    Assoc(z, R, x * p);
    Assoc(z, R, R * p);
  }

  lemma TimesMean(R: int, a: int, k: int, y: int, z: int, w: int)
    ensures R * (a + k * y - z * R * w) == R * a + k * (R * y) - z * R * (R * w)
  {
    Distribute(R, a + k * y, z * R * w);
    Distribute(R, a, k * y);
    assert R * (k * y) == k * (R * y);
    assert R * (z * R * w) == z * R * (R * w);
  }

  lemma MeanStep(R: int, x: int, z: int, a: int, p: int, f: int)
    requires f == a + (z - 1) * (x * p) - z * R * p
    ensures R * a + z * (x * (x * p)) - (z + 1) * (R * (x * p)) == R * f + z * p * ((x - R) * (x - R))
  {
    SquareOfDifference(x, R);
    SquareTimes(z * p, x * x, x * R, R * R);
    Products(z, p, x, x);
    Products(z, p, x, R);
    Products(z, p, R, R);
    Regroup(z, R, x, p);
    TimesMean(R, a, z - 1, x * p, z, p);
    var m, n := R * (x * p), z * R * (R * p);
    assert z * R * (x * p) == z * m by {
      Assoc(z, R, x * p);
    }
    Distribute(m, z, 1);
  }

  /** The inequality of arithmetic and geometric means for one R and z - 1 times x. */
  lemma {:induction false} Mean(R: nat, x: nat, z: nat)
    requires 1 <= z
    ensures 0 <= Pow(R, z) + (z - 1) * Pow(x, z) - z * R * Pow(x, z - 1)
  {
    if z == 1 {
      PowStep(R, 0);
      PowStep(x, 0);
    } else {
      var k := z - 1;
      Mean(R, x, k);
      var a, p := Pow(R, k), Pow(x, k - 1);
      var f := a + (k - 1) * (x * p) - k * R * p;
      PowStep(R, k);
      PowStep(x, k);
      PowStep(x, k - 1);
      MeanStep(R, x, k, a, p, f);
      Assoc(z, R, x * p);
      PowNonneg(x, k - 1);
      MulNonneg(k, p);
      SquareNonneg(x - R);
      MulNonneg(k * p, (x - R) * (x - R));
      MulNonneg(R, f);
    }
  }

  lemma SquareNonneg(x: int)
    ensures 0 <= x * x
  {
  }

  function NewtonStep(y: int, x: int, z: nat): int
    requires 1 <= z && Pow(x, z - 1) != 0
  {
    (y / Pow(x, z - 1) + x * (z - 1)) / z
  }

  lemma DivUpper(y: int, p: int, k: int)
    requires 0 < p && k <= y / p
    ensures k * p <= y
  {
    DivMod(y, p);
    MulMono(k, y / p, p);
  }

  lemma MeanToQuotient(z: int, R: int, x: int, p: int, y: int, a: int)
    requires 0 <= a + (z - 1) * (x * p) - z * R * p && a <= y
    ensures (z * R - x * (z - 1)) * p <= y
  {
    assert x * (z - 1) * p == (z - 1) * (x * p);
    Distribute(p, z * R, x * (z - 1));
  }

  /** A step never falls below the root. */
  lemma NewtonAbove(y: int, x: int, z: nat, R: int)
    requires FloorRoot(R, y, z) && 0 < x && 1 <= z
    ensures Pow(x, z - 1) > 0 && R <= NewtonStep(y, x, z)
  {
    PowPositive(x, z - 1);
    PowStep(x, z - 1);
    Mean(R, x, z);
    MeanToQuotient(z, R, x, Pow(x, z - 1), y, Pow(R, z));
    DivLower(y, Pow(x, z - 1), z * R - x * (z - 1));
    DivLower(y / Pow(x, z - 1) + x * (z - 1), z, R);
  }

  /** The step stops decreasing only at the root. */
  lemma NewtonStops(y: int, x: int, z: nat, R: int)
    requires FloorRoot(R, y, z) && R <= x && 0 < x && 1 <= z
    requires Pow(x, z - 1) > 0 && x <= NewtonStep(y, x, z)
    ensures x == R
  {
    var p := Pow(x, z - 1);
    DivUpper(y / p + x * (z - 1), z, x);
    Distribute(x, z, 1);
    DivUpper(y, p, x);
    PowStep(x, z - 1);
    if R + 1 <= x {
      PowMonoBase(R + 1, x, z);
    }
  }

  // --- the start ---

  lemma EnoughBits(bits: nat, z: nat)
    requires 1 <= z
    ensures 0 <= bits / z && bits < (bits / z + 1) * z
  {
    DivMod(bits, z);
    DivNonneg(bits, z);
    Distribute(z, bits / z, 1);
  }

  /** The first guess is above the root. */
  lemma StartAbove(y: int, bits: nat, z: nat, R: int)
    requires 1 <= z && FloorRoot(R, y, z) && y < Pow2(bits)
    ensures 0 <= bits / z && 0 < Pow2(bits / z + 1) && R <= Pow2(bits / z + 1)
  {
    EnoughBits(bits, z);
    var k := bits / z + 1;
    PowPositive(2, k);
    PowOfPower(2, k, z);
    PowMono(2, bits, k * z);
    if Pow2(k) < R {
      PowMonoBase(Pow2(k), R, z);
    }
  }

  // --- the steps on numbers ---

  function Signed(neg: bool, x: int): int {
    if neg then -x else x
  }

  lemma {:induction false} EvenPow(x: int, n: nat)
    requires n % 2 == 0
    ensures Pow(-x, n) == Pow(x, n)
  {
    if n > 0 {
      EvenPow(x, n - 2);
      PowStep(x, n - 2);
      PowStep(x, n - 1);
      PowStep(-x, n - 2);
      PowStep(-x, n - 1);
      SquareOfNegative(x, Pow(x, n - 2));
    }
  }

  lemma SquareOfNegative(x: int, p: int)
    ensures (-x) * ((-x) * p) == x * (x * p)
  {
    assert (-x) * p == -(x * p);
  }

  lemma SignedPow(neg: bool, x: int, n: nat)
    requires neg ==> n % 2 == 0
    ensures Pow(Signed(neg, x), n) == Pow(x, n)
  {
    if neg {
      EvenPow(x, n);
    }
  }

  lemma SignedTrunc(neg: bool, n: int, d: int, q: int, r: int)
    requires IsDivision(Signed(neg, n), d, Trunc, q, r) && 0 <= n && 0 < d
    ensures q == Signed(neg, n / d) && 0 <= n / d
  {
    DivMod(n, d);
    DivNonneg(n, d);
    SignedDivision(Signed(neg, n), d, n, d, n / d, n % d);
    DivisionUnique(Signed(neg, n), d, Trunc, q, r, Signed(neg, n / d), Signed(neg, n % d));
  }

  lemma SqrtNewton(y: int, x: int, z: nat, R: int)
    requires z == 2 && FloorRoot(R, y, z) && R <= x && 0 < x
    ensures var t := (y / x + x) / 2; R <= t && (x <= t ==> x == R)
  {
    PowStep(x, 0);
    NewtonAbove(y, x, z, R);
    if x <= NewtonStep(y, x, z) {
      NewtonStops(y, x, z, R);
    }
  }

  // x' = (y/x + x) / 2
  method SqrtStep(t: Mpz, u: Mpz, y: Mpz, ghost Y: int, ghost x: int)
    requires Separate(t, u) && y.Valid() && t != y && t.d != y.d && u != y
    requires y.Value() == Y > 0 && u.Value() == x > 0
    modifies t, t.d
    ensures t.Valid() && t.Value() == (Y / x + x) / 2 && (t.d == old(t.d) || fresh(t.d))
  {
    Signs(u);
    PowStep(2, 0);
    var _, q, r := DivQrMpz(t, null, y, u, Trunc, Y, x);
    TruncOfPositive(Y, x, q, r);
    t.Add(t, u);
    ghost var n := t.Value();
    q, r := DivQ2exp(t, t, 1, Trunc, n);
    TruncOfPositive(n, 2, q, r);
  }

  // y / x^(z-1)
  method RootQuotient(t: Mpz, u: Mpz, y: Mpz, z: Limb, ghost neg: bool, ghost Y: int, ghost x: int)
    requires Separate(t, u) && Separate(t, y) && u.Valid()
    requires 1 <= z && (neg ==> z % 2 == 1) && 0 <= Y && 0 < x
    requires y.Value() == Signed(neg, Y) && u.Value() == Signed(neg, x)
    modifies t, t.d
    ensures Pow(x, z - 1) > 0 && t.Valid() && t.Value() == Signed(neg, Y / Pow(x, z - 1)) && 0 <= Y / Pow(x, z - 1)
    ensures t.d == old(t.d) || fresh(t.d)
  {
    PowPositive(x, z - 1);
    SignedPow(neg, x, z - 1);
    PowUi(t, u, z - 1);
    Signs(t);
    ghost var p, s := Pow(x, z - 1), y.Value();
    var _, q, r := DivQrMpz(t, null, y, t, Trunc, s, p);
    SignedTrunc(neg, Y, p, q, r);
  }

  lemma SignedSum(neg: bool, a: int, x: int, k: int)
    requires 0 <= a && 0 < x && 0 <= k
    ensures Signed(neg, a) + Signed(neg, x) * k == Signed(neg, a + x * k) && 0 <= a + x * k
  {
    MulNonneg(x, k);
    assert -x * k == -(x * k);
  }

  // (a + x*(z-1)) / z
  method RootAverage(t: Mpz, u: Mpz, v: Mpz, z: Limb, ghost neg: bool, ghost a: int, ghost x: int)
    requires Separate(t, u) && Separate(t, v) && Separate(u, v) && 1 <= z && 0 <= a && 0 < x
    requires t.Value() == Signed(neg, a) && u.Value() == Signed(neg, x)
    modifies t, t.d, v
    ensures t.Valid() && t.Value() == Signed(neg, (a + x * (z - 1)) / z)
    ensures (t.d == old(t.d) || fresh(t.d)) && v.Valid() && (v.d == old(v.d) || fresh(v.d)) && t.d != v.d
  {
    SignedSum(neg, a, x, z - 1);
    ghost var n := a + x * (z - 1);
    MulUi(v, u, z - 1);
    t.Add(t, v);
    assert t.Value() == Signed(neg, n);
    var ret, q, r := DivQrUi(t, null, t, z, Trunc, Signed(neg, n));
    SignedTrunc(neg, n, z, q, r);
  }

  // x' = (y/x^(z-1) + x*(z-1)) / z
  method RootStep(t: Mpz, u: Mpz, v: Mpz, y: Mpz, z: Limb, ghost neg: bool, ghost Y: int, ghost x: int)
    requires Separate(t, u) && Separate(t, v) && Separate(u, v) && Separate(t, y) && Separate(v, y) && u != y
    requires 1 <= z && (neg ==> z % 2 == 1) && 0 <= Y && 0 < x
    requires y.Value() == Signed(neg, Y) && u.Value() == Signed(neg, x)
    modifies t, t.d, v
    ensures Pow(x, z - 1) > 0 && t.Valid() && t.Value() == Signed(neg, NewtonStep(Y, x, z))
    ensures (t.d == old(t.d) || fresh(t.d)) && v.Valid() && (v.d == old(v.d) || fresh(v.d)) && t.d != v.d
  {
    RootQuotient(t, u, y, z, neg, Y, x);
    RootAverage(t, u, v, z, neg, Y / Pow(x, z - 1), x);
  }

  // --- the loops ---

  lemma RootPositive(R: int, y: int, z: nat)
    requires FloorRoot(R, y, z) && 1 <= y
    ensures 1 <= R
  {
    PowOfProduct(1, 1, z);
  }

  // Neither number shares its limbs with y.
  ghost predicate ApartFrom(t: Mpz, u: Mpz, y: Mpz)
    reads t, u, y, t.d, u.d, y.d
  {
    Separate(t, u) && Separate(t, y) && Separate(u, y)
  }

  // One turn of the square root loop.
  method SqrtTurn(t: Mpz, u: Mpz, y: Mpz, ghost Y: int, ghost z: nat, ghost R: int) returns (done: bool)
    requires ApartFrom(t, u, y) && y.Value() == Y && z == 2 && FloorRoot(R, Y, z) && 1 <= R <= t.Value() && 1 <= Y
    modifies t, t.d, u, u.d
    ensures ApartFrom(t, u, y)
    ensures if done then u.Value() == R else R <= t.Value() < old(t.Value())
    ensures u.d == old(t.d) && (t.d == old(u.d) || fresh(t.d))
  {
    u.Swap(t);
    ghost var x := u.Value();
    SqrtNewton(Y, x, z, R);
    SqrtStep(t, u, y, Y, x);
    var c := t.CmpAbs(u);
    done := c >= 0;
  }

  /** Newton's method for the square root, from a guess in t that is not below it. */
  method SqrtLoop(t: Mpz, u: Mpz, y: Mpz, ghost Y: int, ghost z: nat, ghost R: int)
    requires ApartFrom(t, u, y) && y.Value() == Y && z == 2 && FloorRoot(R, Y, z) && 1 <= R <= t.Value() && 1 <= Y
    modifies t, t.d, u, u.d
    ensures ApartFrom(t, u, y) && u.Value() == R
    ensures u.d == old(u.d) || u.d == old(t.d) || fresh(u.d)
    ensures t.d == old(u.d) || t.d == old(t.d) || fresh(t.d)
  {
    var done := false;
    while !done
      invariant ApartFrom(t, u, y) && y.Value() == Y
      invariant if done then u.Value() == R else R <= t.Value()
      invariant u.d == old(u.d) || u.d == old(t.d) || fresh(u.d)
      invariant t.d == old(u.d) || t.d == old(t.d) || fresh(t.d)
      decreases !done, t.Value()
    {
      done := SqrtTurn(t, u, y, Y, z, R);
    }
  }

  /** t is a guess, with the sign of y, that is not below the root. */
  ghost predicate Guess(t: Mpz, neg: bool, R: int)
    reads t, t.d
    requires t.Valid()
  {
    R <= AbsInt(t.Value()) && t.Value() == Signed(neg, AbsInt(t.Value()))
  }

  // One turn of the general loop.
  method RootTurn(t: Mpz, u: Mpz, v: Mpz, y: Mpz, z: Limb, ghost neg: bool, ghost Y: int, ghost R: int)
    returns (done: bool)
    requires ApartFrom(t, u, y) && ApartFrom(t, v, y) && Separate(u, v)
    requires 1 <= z && (neg ==> z % 2 == 1) && y.Value() == Signed(neg, Y) && FloorRoot(R, Y, z)
    requires 0 <= Y && 1 <= R && Guess(t, neg, R)
    modifies t, t.d, u, u.d, v
    ensures ApartFrom(t, u, y) && ApartFrom(t, v, y) && Separate(u, v)
    ensures if done then u.Value() == Signed(neg, R) else Guess(t, neg, R) && AbsInt(t.Value()) < AbsInt(old(t.Value()))
    ensures u.d == old(t.d) && (t.d == old(u.d) || fresh(t.d)) && (v.d == old(v.d) || fresh(v.d))
  {
    u.Swap(t);
    ghost var x := AbsInt(u.Value());
    RootStep(t, u, v, y, z, neg, Y, x);
    NewtonAbove(Y, x, z, R);
    var c := t.CmpAbs(u);
    done := c >= 0;
    if done {
      NewtonStops(Y, x, z, R);
    }
  }

  /** Newton's method for any root, on the magnitude of a guess that has the sign of y. */
  method RootLoop(t: Mpz, u: Mpz, v: Mpz, y: Mpz, z: Limb, ghost neg: bool, ghost Y: int, ghost R: int)
    requires ApartFrom(t, u, y) && ApartFrom(t, v, y) && Separate(u, v)
    requires 1 <= z && (neg ==> z % 2 == 1) && y.Value() == Signed(neg, Y) && FloorRoot(R, Y, z)
    requires 0 <= Y && 1 <= R && Guess(t, neg, R)
    modifies t, t.d, u, u.d, v
    ensures ApartFrom(t, u, y) && u.Value() == Signed(neg, R)
    ensures u.d == old(u.d) || u.d == old(t.d) || fresh(u.d)
    ensures t.d == old(u.d) || t.d == old(t.d) || fresh(t.d)
  {
    var done := false;
    while !done
      invariant ApartFrom(t, u, y) && ApartFrom(t, v, y) && Separate(u, v) && y.Value() == Signed(neg, Y)
      invariant if done then u.Value() == Signed(neg, R) else Guess(t, neg, R)
      invariant u.d == old(u.d) || u.d == old(t.d) || fresh(u.d)
      invariant t.d == old(u.d) || t.d == old(t.d) || fresh(t.d)
      invariant v.d == old(v.d) || fresh(v.d)
      decreases !done, AbsInt(t.Value())
    {
      done := RootTurn(t, u, v, y, z, neg, Y, R);
    }
  }

  // --- root and remainder ---

  /** x is the z-th root of y rounded toward zero and r the remainder y - x^z. */
  ghost predicate RootAndRemainder(x: int, r: int, y: int, z: nat) {
    FloorRoot(AbsInt(x), AbsInt(y), z) && x == Signed(y < 0, AbsInt(x)) && r == y - Pow(x, z)
  }

  lemma TrivialRoot(y: int, z: nat)
    requires -1 <= y <= 1 && 1 <= z && (y < 0 ==> z % 2 == 1)
    ensures RootAndRemainder(y, 0, y, z)
  {
    PowOfProduct(1, 1, z);
    PowStep(0, z - 1);
    PowMonoBase(1, 2, z);
    if y == -1 {
      EvenPow(1, z - 1);
      PowOfProduct(1, 1, z - 1);
      PowStep(-1, z - 1);
    }
  }

  // A power of two above the root, with the sign of y.
  method FirstGuess(t: Mpz, y: Mpz, z: Limb, neg: bool, ghost Y: int, ghost R: int)
    requires Separate(t, y) && t.size == 0 && Y == AbsInt(y.Value()) > 0 && 1 <= z && FloorRoot(R, Y, z)
    modifies t, t.d
    ensures t.Valid() && Guess(t, neg && z != 2, R) && (t.d == old(t.d) || fresh(t.d))
  {
    var bits := SizeInBase(y, 2);
    StartAbove(Y, bits, z, R);
    SetPower(t, bits / z + 1);
    if z != 2 && neg {
      t.Neg(t);
    }
  }

  // The loop, from the guess down to the root.
  method FindRoot(y: Mpz, z: Limb, neg: bool, ghost Y: int, ghost R: int) returns (u: Mpz, t: Mpz)
    requires y.Valid() && neg == (y.Value() < 0) && Y == AbsInt(y.Value()) > 0
    requires 1 <= z && (neg ==> z % 2 == 1) && FloorRoot(R, Y, z)
    ensures fresh(u) && fresh(u.d) && fresh(t) && fresh(t.d) && Separate(t, u)
    ensures u.Value() == Signed(neg, R)
  {
    RootPositive(R, Y, z);
    u := new Mpz.Init();
    t := new Mpz.Init();
    Signs(t);
    FirstGuess(t, y, z, neg, Y, R);
    if z == 2 {
      SqrtLoop(t, u, y, Y, z, R);
    } else {
      var v := new Mpz.Init();
      RootLoop(t, u, v, y, z, neg, Y, R);
    }
  }

  // The remainder y - u^z, then the root is swapped in.
  method DeliverRoot(x: Mpz?, r: Mpz?, y: Mpz, z: Limb, u: Mpz, t: Mpz)
    requires Output(x, y, y) && Output(r, y, y) && (x != null && r != null ==> x != r && x.d != r.d)
    requires Separate(t, u) && Separate(t, y) && Separate(u, y) && x !in {u, t} && r !in {u, t}
    requires (x != null ==> x.d != u.d && x.d != t.d) && (r != null ==> r.d != u.d && r.d != t.d)
    modifies x, r, if r != null then {r.d} else {}, u, t
    ensures x != null ==> x.Valid() && x.Value() == old(u.Value()) && x.d == old(u.d)
    ensures r != null ==> r.Valid() && r.Value() == old(y.Value()) - Pow(old(u.Value()), z)
    ensures r != null ==> r.d == old(r.d) || fresh(r.d)
  {
    if r != null {
      PowUi(t, u, z);
      r.Sub(y, t);
    }
    if x != null {
      x.Swap(u);
    }
  }

  // mpz_rootrem for a number that is its own root.
  method RootOfSmall(x: Mpz?, r: Mpz?, y: Mpz)
    requires y.Valid() && Output(x, y, y) && Output(r, y, y) && (x != null && r != null ==> x != r && x.d != r.d)
    modifies x, r, if x != null then {x.d} else {}
    ensures x != null ==> x.Valid() && x.Value() == old(y.Value()) && (x.d == old(x.d) || fresh(x.d))
    ensures r != null ==> r.Valid() && r.Value() == 0 && r.d == old(r.d)
  {
    ValEmpty();
    if x != null {
      x.Set(y);
    }
    if r != null {
      r.size := 0;
    }
  }

  /** mpz_rootrem: the root of y and what is left, either of them optional. An even root of a negative number and
      the zeroth root are fatal in the library. */
  method RootRem(x: Mpz?, r: Mpz?, y: Mpz, z: Limb) returns (ghost xv: int, ghost rv: int)
    requires y.Valid() && Output(x, y, y) && Output(r, y, y) && (x != null && r != null ==> x != r && x.d != r.d)
    requires 1 <= z && (y.Value() < 0 ==> z % 2 == 1)
    modifies x, r, if x != null then {x.d} else {}, if r != null then {r.d} else {}
    ensures RootAndRemainder(xv, rv, old(y.Value()), z)
    ensures x != null ==> x.Valid() && x.Value() == xv && (x.d == old(x.d) || fresh(x.d))
    ensures r != null ==> r.Valid() && r.Value() == rv && (r.d == old(r.d) || fresh(r.d))
  {
    Signs(y);
    ghost var Y := AbsInt(y.Value());
    var neg := y.size < 0;
    var c := CmpAbsUi(y, 1);
    if c <= 0 {
      TrivialRoot(y.Value(), z);
      xv, rv := y.Value(), 0;
      RootOfSmall(x, r, y);
    } else {
      ghost var R := FloorRootExists(Y, z);
      xv, rv := Signed(neg, R), y.Value() - Pow(Signed(neg, R), z);
      var u, t := FindRoot(y, z, neg, Y, R);
      DeliverRoot(x, r, y, z, u, t);
    }
  }

  lemma PowMagnitude(k: int, z: nat)
    requires 1 <= z
    ensures Pow(k, z) == if k < 0 && z % 2 == 1 then -Pow(-k, z) else Pow(AbsInt(k), z)
    ensures 0 <= Pow(AbsInt(k), z) && AbsInt(Pow(k, z)) == Pow(AbsInt(k), z)
  {
    PowNonneg(AbsInt(k), z);
    if k < 0 {
      if z % 2 == 0 {
        EvenPow(k, z);
      } else {
        EvenPow(k, z - 1);
        PowStep(k, z - 1);
        PowStep(-k, z - 1);
      }
    }
  }

  /** Nothing is left exactly for perfect powers. */
  lemma ExactRoot(x: int, r: int, y: int, z: nat)
    requires RootAndRemainder(x, r, y, z) && 1 <= z && (y < 0 ==> z % 2 == 1)
    ensures r == 0 <==> exists k: int :: Pow(k, z) == y
  {
    if k: int :| Pow(k, z) == y {
      PowMagnitude(k, z);
      PowMagnitude(x, z);
      PowMonoBase(AbsInt(k), AbsInt(k) + 1, z);
      FloorRootUnique(AbsInt(k), AbsInt(x), AbsInt(y), z);
    }
  }

  /** mpz_root: whether y is a perfect z-th power; the root is optional. */
  method RootExact(x: Mpz?, y: Mpz, z: Limb) returns (exact: bool, ghost xv: int)
    requires y.Valid() && Output(x, y, y) && 1 <= z && (y.Value() < 0 ==> z % 2 == 1)
    modifies x, if x != null then {x.d} else {}
    ensures exact == exists k: int :: Pow(k, z) == old(y.Value())
    ensures RootAndRemainder(xv, old(y.Value()) - Pow(xv, z), old(y.Value()), z)
    ensures x != null ==> x.Valid() && x.Value() == xv && (x.d == old(x.d) || fresh(x.d))
  {
    var r := new Mpz.Init();
    ghost var v, rv := y.Value(), 0;
    xv, rv := RootRem(x, r, y, z);
    ExactRoot(xv, rv, v, z);
    Signs(r);
    exact := r.size == 0;
  }
}
