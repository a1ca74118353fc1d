/** The strong probable prime test. */
module MillerRabin {
  import opened Powers
  import opened Divisors
  import opened Congruence
  import opened Primes
  import opened Limbs
  import opened Mpn
  import opened Mpzs
  import opened MpzUi
  import opened GcdBinary
  import opened PowMod

  // --- repeated squaring ---

  function SquaresRec(x: int, i: nat): int {
    if i == 0 then x else SquaresRec(x, i - 1) * SquaresRec(x, i - 1)
  }

  /** x squared i times. */
  function Squares(x: int, i: nat): int {
    SquaresRec(x, i)
  }

  lemma SquaresStep(x: int, i: nat)
    ensures Squares(x, 0) == x && Squares(x, i + 1) == Squares(x, i) * Squares(x, i)
  {
  }

  lemma {:induction false} SquaresIsPower(x: int, i: nat)
    ensures 0 <= Pow2(i) && Squares(x, i) == Pow(x, Pow2(i))
  {
    PowPositive(2, i);
    if i == 0 {
      PowStep(2, 0);
      PowStep(x, 0);
    } else {
      SquaresIsPower(x, i - 1);
      SquaresStep(x, i - 1);
      PowStep(2, i - 1);
      PowDouble(x, Pow2(i - 1));
    }
  }

  lemma FullPower(b: int, q: nat, k: nat, e: nat)
    requires e == Pow2(k) * q
    ensures Squares(Pow(b, q), k) == Pow(b, e)
  {
    SquaresIsPower(Pow(b, q), k);
    PowOfPower(b, q, Pow2(k));
  }

  lemma SquareOfUnit(s: int, c: int, n: int)
    requires 0 <= c <= 1 && Cong(s, c, n)
    ensures Cong(s * s, c, n)
  {
    CongMul(s, c, s, c, n);
  }

  // Once a square is one or zero, all later ones are.
  lemma {:induction false} SquaresOfUnit(x: int, i: nat, j: nat, c: int, n: int)
    requires i <= j && 0 <= c <= 1 && Cong(Squares(x, i), c, n)
    ensures Cong(Squares(x, j), c, n)
  {
    if i < j {
      SquaresOfUnit(x, i, j - 1, c, n);
      SquaresStep(x, j - 1);
      SquareOfUnit(Squares(x, j - 1), c, n);
    }
  }

  lemma NotMinusOne(x: int, c: int, n: int)
    requires 2 < n && 0 <= c <= 1 && Cong(x, c, n)
    ensures !Cong(x, -1, n)
  {
    if Cong(x, -1, n) {
      CongSym(x, c, n);
      CongTrans(c, x, -1, n);
      DividesBound(n, c + 1);
    }
  }

  /** n passes the strong test for base b, where n - 1 = 2^k q: b^q is one, or one of the k numbers b^(2^i q) is -1. */
  ghost predicate StrongProbablePrime(n: int, b: int, q: nat, k: nat) {
    || Cong(Pow(b, q), 1, n)
    || exists i: nat :: i < k && Cong(Squares(Pow(b, q), i), -1, n)
  }

  lemma RootOfSquare(p: int, s: int, t: int)
    requires IsPrime(p) && t == s * s && Cong(t, 1, p)
    ensures Cong(s, 1, p) || Cong(s, -1, p)
  {
    SquareRootsOfOne(s, p);
  }

  // If a square is one modulo a prime, the last number before that is one or minus one.
  lemma {:induction false} RootsDown(p: int, x: int, i: nat)
    requires IsPrime(p) && Cong(Squares(x, i), 1, p)
    ensures Cong(x, 1, p) || exists j: nat :: j < i && Cong(Squares(x, j), -1, p)
  {
    if i > 0 {
      SquaresStep(x, i - 1);
      RootOfSquare(p, Squares(x, i - 1), Squares(x, i));
      if !Cong(Squares(x, i - 1), -1, p) {
        RootsDown(p, x, i - 1);
      }
    }
  }

  /** Every prime passes for every base that it does not divide. */
  lemma PrimePasses(p: int, b: int, q: nat, k: nat)
    requires IsPrime(p) && !Divides(p, b) && p - 1 == Pow2(k) * q
    ensures StrongProbablePrime(p, b, q, k)
  {
    Fermat(b, p);
    FullPower(b, q, k, p - 1);
    RootsDown(p, Pow(b, q), k);
  }

  // --- the test ---

  lemma ResidueIs(y: int, x: int, c: int, n: int)
    requires 0 <= y < n && 0 <= c < n && Cong(y, x, n)
    ensures y == c <==> Cong(x, c, n)
  {
    CongSym(y, x, n);
    if Cong(x, c, n) {
      CongTrans(y, x, c, n);
      if y > c {
        DividesBound(n, y - c);
      } else if y < c {
        CongSym(y, c, n);
        DividesBound(n, c - y);
      }
    }
  }

  lemma MinusOne(x: int, n: int)
    ensures Cong(x, n - 1, n) <==> Cong(x, -1, n)
  {
    DividesByFactor(n, n, 1);
    if Cong(x, n - 1, n) {
      CongAdd(n - 1, -1, 0, 0, n);
      DividesCombination(n, x - (n - 1), n, 1, 1);
    }
    if Cong(x, -1, n) {
      DividesCombination(n, x + 1, n, 1, -1);
    }
  }

  /** y is the residue of x: what the comparisons with 1 and n - 1 mean. */
  lemma Comparisons(y: int, x: int, n: int)
    requires 2 < n && 0 <= y < n && Cong(y, x, n)
    ensures y == 1 <==> Cong(x, 1, n)
    ensures y == 0 <==> Cong(x, 0, n)
    ensures y == n - 1 <==> Cong(x, -1, n)
  {
    ResidueIs(y, x, 0, n);
    ResidueIs(y, x, 1, n);
    ResidueIs(y, x, n - 1, n);
    MinusOne(x, n);
  }

  /** mpz_powm_ui. */
  method PowmUi(r: Mpz, b: Mpz, e: Limb, m: Mpz)
    requires r.Valid() && b.Valid() && m.Valid() && r.Apart(b) && r.Apart(m) && m.Value() != 0
    modifies r, r.d
    ensures r.Valid() && ModularPower(r.Value(), old(b.Value()), e, AbsInt(old(m.Value())))
    ensures r.d == old(r.d) || fresh(r.d)
  {
    var ee := new Mpz.Init();
    ee.SetUi(e);
    Powm(r, b, ee, m);
  }

  // One squaring modulo n.
  method SquareMod(y: Mpz, n: Mpz, ghost x: int, ghost N: int)
    requires Separate(y, n) && N == n.Value() > 2 && Cong(y.Value(), x, N)
    modifies y, y.d
    ensures y.Valid() && 0 <= y.Value() < N && Cong(y.Value(), x * x, N) && (y.d == old(y.d) || fresh(y.d))
  {
    ghost var v := y.Value();
    PowmUi(y, y, 2, n);
    SquareIs(v);
    CongMul(v, x, v, x, N);
    CongTrans(y.Value(), v * v, x * x, N);
  }

  lemma SquareIs(v: int)
    ensures Pow(v, 2) == v * v
  {
    PowStep(v, 1);
  }

  // After a one or a zero there is no minus one any more.
  lemma NeverMinusOne(x: int, i: nat, k: nat, c: int, n: int)
    requires 2 < n && 0 <= c <= 1 && Cong(Squares(x, i), c, n)
    ensures forall j: nat :: i <= j < k ==> !Cong(Squares(x, j), -1, n)
  {
    forall j: nat | i <= j < k ensures !Cong(Squares(x, j), -1, n) {
      SquaresOfUnit(x, i, j, c, n);
      NotMinusOne(Squares(x, j), c, n);
    }
  }

  /** No number before the i-th square of x is minus one. */
  ghost predicate NoMinusOneBefore(x: int, i: nat, n: int) {
    forall j: nat :: j < i ==> !Cong(Squares(x, j), -1, n)
  }

  /** The squarings: whether one of the squares from the second to the last of k numbers is minus one. */
  method SquareUp(n: Mpz, nm1: Mpz, y: Mpz, k: nat, ghost x: int, ghost N: int) returns (found: bool)
    requires Separate(y, n) && Separate(y, nm1) && N == n.Value() > 2 && nm1.Value() == N - 1 && 0 < k
    requires 0 <= y.Value() < N && Cong(y.Value(), x, N) && !Cong(x, -1, N)
    modifies y, y.d
    ensures found == exists i: nat :: i < k && Cong(Squares(x, i), -1, N)
    ensures y.Valid() && (y.d == old(y.d) || fresh(y.d))
  {
    var j := k;
    ghost var i: nat := 0;
    SquaresStep(x, 0);
    while j - 1 > 0
      invariant 0 < j && i == k - j
      invariant Separate(y, n) && Separate(y, nm1) && N == n.Value() && nm1.Value() == N - 1
      invariant Cong(y.Value(), Squares(x, i), N) && NoMinusOneBefore(x, i + 1, N)
      invariant y.d == old(y.d) || fresh(y.d)
    {
      j := j - 1;
      SquaresStep(x, i);
      SquareMod(y, n, Squares(x, i), N);
      i := i + 1;
      Comparisons(y.Value(), Squares(x, i), N);
      var c := y.Cmp(nm1);
      if c == 0 {
        return true;
      }
      c := CmpUi(y, 1);
      if c <= 0 {
        NeverMinusOne(x, i, k, y.Value(), N);
        return false;
      }
    }
    found := false;
  }

  /** gmp_millerrabin: the strong test for the base in y; n - 1 = 2^k q is in nm1. It never rejects a prime. */
  method StrongTest(n: Mpz, nm1: Mpz, y: Mpz, q: Mpz, k: nat) returns (probable: bool)
    requires Separate(y, n) && Separate(y, nm1) && Separate(y, q)
    requires n.Value() > 2 && nm1.Value() == n.Value() - 1 && q.Value() > 0 && 0 < k
    modifies y, y.d
    ensures probable == StrongProbablePrime(old(n.Value()), old(y.Value()), old(q.Value()), k)
    ensures IsPrime(old(n.Value())) && old(n.Value()) - 1 == Pow2(k) * old(q.Value())
            && !Divides(old(n.Value()), old(y.Value()))
            ==> probable
  {
    ghost var N, b, e := n.Value(), y.Value(), q.Value();
    ghost var x := Pow(b, e);
    if IsPrime(N) && N - 1 == Pow2(k) * e && !Divides(N, b) {
      PrimePasses(N, b, e, k);
    }
    Powm(y, y, q, n);
    Comparisons(y.Value(), x, N);
    var c := CmpUi(y, 1);
    if c == 0 {
      return true;
    }
    c := y.Cmp(nm1);
    if c == 0 {
      SquaresStep(x, 0);
      assert Cong(Squares(x, 0), -1, N);
      return true;
    }
    probable := SquareUp(n, nm1, y, k, x, N);
  }
}
