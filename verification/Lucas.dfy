/** Lucas sequences with P = 1 modulo an odd number. */
module Lucas {
  import opened Arith
  import opened Powers
  import opened Divisors
  import opened Congruence
  import opened Limbs
  import opened Bits
  import opened Mpn
  import opened Mpzs
  import opened MpzDiv
  import opened MpzBits
  import opened MpzUi
  import opened GcdBinary
  import opened GcdExtended
  import opened Root
  import opened MpzSize

  // --- the sequences ---

  function URec(Q: int, k: nat): int {
    if k == 0 then 0 else if k == 1 then 1 else URec(Q, k - 1) - Q * URec(Q, k - 2)
  }

  function VRec(Q: int, k: nat): int {
    if k == 0 then 2 else if k == 1 then 1 else VRec(Q, k - 1) - Q * VRec(Q, k - 2)
  }

  /** U_k with P = 1. */
  function U(Q: int, k: nat): int {
    URec(Q, k)
  }

  /** V_k with P = 1. */
  function V(Q: int, k: nat): int {
    VRec(Q, k)
  }

  lemma Recurrence(Q: int, k: nat)
    ensures U(Q, 0) == 0 && U(Q, 1) == 1 && V(Q, 0) == 2 && V(Q, 1) == 1
    ensures U(Q, k + 2) == U(Q, k + 1) - Q * U(Q, k)
    ensures V(Q, k + 2) == V(Q, k + 1) - Q * V(Q, k)
  {
  }

  /** V_k = 2 U_{k+1} - U_k. */
  lemma {:induction false} VFromU(Q: int, k: nat)
    ensures V(Q, k) == 2 * U(Q, k + 1) - U(Q, k)
  {
    Recurrence(Q, 0);
    if k >= 2 {
      VFromU(Q, k - 1);
      VFromU(Q, k - 2);
      Recurrence(Q, k - 2);
      Recurrence(Q, k - 1);
      Linear(Q, 2, U(Q, k - 1), U(Q, k - 2));
    }
  }

  lemma Linear(Q: int, c: int, x: int, y: int)
    ensures Q * (c * x - y) == c * (Q * x) - Q * y
  {
    Distribute(Q, c * x, y);
    Assoc(Q, c, x);
  }

  /** U_{m+n+1} = U_{m+1} U_{n+1} - Q U_m U_n. */
  lemma {:induction false} Addition(Q: int, m: nat, n: nat)
    ensures U(Q, m + n + 1) == U(Q, m + 1) * U(Q, n + 1) - Q * (U(Q, m) * U(Q, n))
  {
    Recurrence(Q, 0);
    if n == 1 {
      Recurrence(Q, m);
    } else if n >= 2 {
      Addition(Q, m, n - 1);
      Addition(Q, m, n - 2);
      Recurrence(Q, m + n - 1);
      Recurrence(Q, n - 1);
      Recurrence(Q, n - 2);
      AdditionStep(Q, U(Q, m + 1), U(Q, m), U(Q, n), U(Q, n - 1), U(Q, n - 2));
    }
  }

  lemma AdditionStep(Q: int, a: int, b: int, x: int, y: int, z: int)
    requires x == y - Q * z
    ensures a * x - Q * (b * y) - Q * (a * y - Q * (b * z)) == a * (x - Q * y) - Q * (b * x)
  {
    assert b * x == b * y - Q * (b * z) by {
      assert b * (Q * z) == Q * (b * z);
    }
    assert a * (x - Q * y) == a * x - Q * (a * y);
  }

  /** U_{k+1}^2 - U_k U_{k+1} + Q U_k^2 = Q^k. */
  lemma {:induction false} Cassini(Q: int, k: nat)
    ensures U(Q, k + 1) * U(Q, k + 1) - U(Q, k) * U(Q, k + 1) + Q * (U(Q, k) * U(Q, k)) == Pow(Q, k)
  {
    Recurrence(Q, 0);
    if k == 0 {
      PowStep(Q, 0);
    } else {
      Cassini(Q, k - 1);
      PowStep(Q, k - 1);
      Recurrence(Q, k - 1);
      CassiniStep(Q, U(Q, k), U(Q, k - 1));
    }
  }

  lemma CassiniStep(Q: int, x: int, y: int)
    ensures (x - Q * y) * (x - Q * y) - x * (x - Q * y) + Q * (x * x) == Q * (x * x - y * x + Q * (y * y))
  {
    var z := Q * y;
    assert (x - z) * (x - z) - x * (x - z) == z * z - z * x;
    assert z * z == Q * (Q * (y * y));
    assert z * x == Q * (y * x);
  }

  lemma DoubleAlgebra(Q: int, x: int, y: int, z: int, p: int)
    requires p == y * y - x * y + Q * (x * x) && Q * z == x - y
    ensures y * x - Q * (x * z) == x * (2 * y - x)
    ensures 2 * (y * y - Q * (x * x)) - x * (2 * y - x) == (2 * y - x) * (2 * y - x) - 2 * p
  {
    assert Q * (x * z) == x * (x - y);
    assert (2 * y - x) * (2 * y - x) == 4 * (y * y) - 4 * (x * y) + x * x;
  }

  /** U_{2k} = U_k V_k and V_{2k} = V_k^2 - 2 Q^k. */
  lemma Doubling(Q: int, k: nat)
    requires 1 <= k
    ensures U(Q, 2 * k) == U(Q, k) * V(Q, k)
    ensures V(Q, 2 * k) == V(Q, k) * V(Q, k) - 2 * Pow(Q, k)
  {
    VFromU(Q, k);
    VFromU(Q, 2 * k);
    Addition(Q, k, k);
    Addition(Q, k, k - 1);
    Recurrence(Q, k - 1);
    Cassini(Q, k);
    DoubleAlgebra(Q, U(Q, k), U(Q, k + 1), U(Q, k - 1), Pow(Q, k));
  }

  /** 2 U_{k+1} = U_k + V_k and V_{k+1} = U_{k+1} - 2 Q U_k. */
  lemma NextTerm(Q: int, k: nat)
    ensures 2 * U(Q, k + 1) == U(Q, k) + V(Q, k)
    ensures V(Q, k + 1) == U(Q, k + 1) - 2 * Q * U(Q, k)
  {
    VFromU(Q, k);
    VFromU(Q, k + 1);
    Recurrence(Q, k);
  }

  // --- the sequences modulo N ---

  /** u, v and q are U_k, V_k and Q^k modulo N. */
  ghost predicate Terms(u: int, v: int, q: int, Q: int, k: nat, N: int) {
    Cong(u, U(Q, k), N) && Cong(v, V(Q, k), N) && Cong(q, Pow(Q, k), N)
  }

  lemma DoubleTerms(u: int, v: int, q: int, Q: int, k: nat, N: int, q': int, w: int)
    requires 1 <= k && Terms(u, v, q, Q, k, N) && Cong(q', q, N) && Cong(w, v * v - 2 * q', N)
    ensures Terms(u * v, w, q' * q', Q, 2 * k, N)
  {
    var a, b, p := U(Q, k), V(Q, k), Pow(Q, k);
    Doubling(Q, k);
    PowAdd(Q, k, k);
    CongTrans(q', q, p, N);
    CongMul(u, a, v, b, N);
    CongMul(v, b, v, b, N);
    CongMul(q', p, q', p, N);
    CongAdd(q', p, q', p, N);
    CongAdd(v * v, b * b, q' + q', p + p, N);
    CongTrans(w, v * v - 2 * q', b * b - 2 * p, N);
  }

  lemma HalfModOdd(h: int, x: int, y: int, N: int)
    requires N % 2 == 1 && Cong(2 * h, x, N) && Cong(x, 2 * y, N)
    ensures Cong(h, y, N)
  {
    CongTrans(2 * h, x, 2 * y, N);
    HalveDividend(N, h - y);
  }

  lemma NextU(u: int, v: int, Q: int, k: nat, N: int, h: int)
    requires N % 2 == 1 && Cong(u, U(Q, k), N) && Cong(v, V(Q, k), N)
    requires 2 * h == u + v || 2 * h == u + v + N
    ensures Cong(h, U(Q, k + 1), N)
  {
    NextTerm(Q, k);
    CongAdd(u, U(Q, k), v, V(Q, k), N);
    DividesByFactor(N, 2 * h - (u + v), if 2 * h == u + v then 0 else 1);
    HalfModOdd(h, u + v, U(Q, k + 1), N);
  }

  lemma NextV(u: int, Q: int, k: nat, N: int, h: int, c: int)
    requires Cong(u, U(Q, k), N) && Cong(h, U(Q, k + 1), N) && c == -2 * Q
    ensures Cong(h + u * c, V(Q, k + 1), N)
  {
    NextTerm(Q, k);
    CongSame(c, N);
    CongMul(u, U(Q, k), c, c, N);
    CongAdd(h, U(Q, k + 1), u * c, U(Q, k) * c, N);
    Commuted(U(Q, k), c, Q);
  }

  lemma Commuted(x: int, c: int, Q: int)
    requires c == -2 * Q
    ensures x * c == -(2 * Q * x)
  {
  }

  lemma NextPower(q: int, Q: int, k: nat, N: int)
    requires Cong(q, Pow(Q, k), N)
    ensures Cong(q * Q, Pow(Q, k + 1), N)
  {
    PowStep(Q, k);
    CongSame(Q, N);
    CongMul(q, Pow(Q, k), Q, Q, N);
  }

  lemma ReduceU(u: int, u': int, v: int, q: int, Q: int, k: nat, N: int)
    requires Terms(u, v, q, Q, k, N) && Cong(u', u, N)
    ensures Terms(u', v, q, Q, k, N)
  {
    CongTrans(u', u, U(Q, k), N);
  }

  // --- the ladder ---

  lemma CongOfDivision(x: int, n: int, mode: RoundMode, q: int, r: int)
    requires IsDivision(x, n, mode, q, r)
    ensures Cong(r, x, n)
  {
    DividesByFactor(n, n, 1);
    CongReduced(x, q, n, r, n);
  }

  /** The remainder of r by n, of either sign. */
  method ReduceModulo(r: Mpz, n: Mpz, mode: RoundMode, ghost x: int, ghost N: int)
    requires Separate(r, n) && x == r.Value() && N == n.Value() > 0
    modifies r, r.d
    ensures r.Valid() && Cong(r.Value(), x, N) && AbsInt(r.Value()) < N && (r.d == old(r.d) || fresh(r.d))
  {
    Signs(n);
    var _, q, m := DivQrMpz(null, r, r, n, mode, x, N);
    CongOfDivision(x, N, mode, q, m);
  }

  /** mpz_submul_ui by two. */
  method SubMulUi(r: Mpz, u: Mpz, v: Limb)
    requires Separate(r, u)
    modifies r, r.d
    ensures r.Valid() && r.Value() == old(r.Value()) - u.Value() * v && (r.d == old(r.d) || fresh(r.d))
  {
    var t := new Mpz.Init();
    MulUi(t, u, v);
    r.Sub(r, t);
  }

  // V^2 - 2 Q^k, reduced.
  method DoubleV(v: Mpz, qk: Mpz, n: Mpz, ghost x: int, ghost q: int, ghost N: int)
    requires Separate(v, qk) && Separate(v, n) && x == v.Value() && q == qk.Value() && N == n.Value() > 0
    modifies v, v.d
    ensures v.Valid() && Cong(v.Value(), x * x - 2 * q, N) && (v.d == old(v.d) || fresh(v.d))
  {
    v.Mul(v, v);
    ghost var s := v.Value();
    SubMulUi(v, qk, 2);
    ReduceModulo(v, n, Trunc, s - q * 2, N);
  }

  /** gmp_lucas_step_k_2k: from k to 2k. */
  method StepDouble(v: Mpz, qk: Mpz, n: Mpz, ghost x: int, ghost q: int, ghost N: int) returns (ghost q': int)
    requires Separate(v, qk) && Separate(v, n) && Separate(qk, n) && x == v.Value() && q == qk.Value()
             && N == n.Value() > 0
    modifies v, v.d, qk, qk.d
    ensures v.Valid() && qk.Valid() && v.d != qk.d
    ensures Cong(q', q, N) && Cong(v.Value(), x * x - 2 * q', N) && qk.Value() == q' * q'
    ensures (v.d == old(v.d) || fresh(v.d)) && (qk.d == old(qk.d) || fresh(qk.d))
  {
    ReduceModulo(qk, n, Floor, q, N);
    q' := qk.Value();
    DoubleV(v, qk, n, x, q', N);
    qk.Mul(qk, qk);
  }

  /** mpz_mul_si. */
  method MulSi(r: Mpz, u: Mpz, v: int)
    requires r.Valid() && u.Valid() && r.Apart(u) && -HIGHBIT <= v < HIGHBIT
    modifies r, r.d
    ensures r.Valid() && r.Value() == old(u.Value()) * v && (r.d == old(r.d) || fresh(r.d))
  {
    if v < 0 {
      ghost var x := u.Value();
      assert x * -v == -(x * v);
      MulUi(r, u, -v);
      r.Neg(r);
    } else {
      MulUi(r, u, v);
    }
  }

  lemma EvenSum(x: int, y: int)
    requires x % 2 == 1 && y % 2 == 1
    ensures (x + y) % 2 == 0
  {
  }

  // U / 2, made even by the odd modulus.
  method HalfOf(u: Mpz, n: Mpz, ghost x: int, ghost N: int)
    requires Separate(u, n) && x == u.Value() && N == n.Value() && N % 2 == 1
    modifies u, u.d
    ensures u.Valid() && (u.d == old(u.d) || fresh(u.d))
    ensures 2 * u.Value() == x || 2 * u.Value() == x + N
  {
    var odd := OddP(u);
    ghost var y := x;
    if odd {
      EvenSum(x, N);
      u.Add(u, n);
      y := x + N;
    }
    Halve(u, y);
  }

  // U_{k+1} in u and the old U_k in v.
  method StepNextU(u: Mpz, v: Mpz, n: Mpz, Q: int, ghost k: nat, ghost N: int)
    requires ApartFrom(u, v, n) && N == n.Value() && N % 2 == 1
    requires Cong(u.Value(), U(Q, k), N) && Cong(v.Value(), V(Q, k), N)
    modifies u, v, v.d
    ensures ApartFrom(u, v, n) && Cong(u.Value(), U(Q, k + 1), N) && v.Value() == old(u.Value())
    ensures (u.d == old(v.d) || fresh(u.d)) && v.d == old(u.d)
  {
    ghost var x, y := u.Value(), v.Value();
    u.Swap(v);
    u.Add(u, v);
    HalfOf(u, n, x + y, N);
    NextU(x, y, Q, k, N, u.Value());
  }

  // V_{k+1} in v, which held U_k.
  method StepNextV(u: Mpz, v: Mpz, n: Mpz, Q: int, ghost k: nat, ghost N: int)
    requires ApartFrom(u, v, n) && N == n.Value() > 0 && -HIGHBIT <= -2 * Q < HIGHBIT
    requires Cong(v.Value(), U(Q, k), N) && Cong(u.Value(), U(Q, k + 1), N)
    modifies v, v.d
    ensures ApartFrom(u, v, n) && Cong(v.Value(), V(Q, k + 1), N)
    ensures v.d == old(v.d) || fresh(v.d)
  {
    ghost var x, h, c := v.Value(), u.Value(), -2 * Q;
    NextV(x, Q, k, N, h, c);
    MulSi(v, v, -2 * Q);
    v.Add(u, v);
    ReduceModulo(v, n, Trunc, h + x * c, N);
    CongTrans(v.Value(), h + x * c, V(Q, k + 1), N);
  }

  /** From k to k + 1. */
  method StepNext(u: Mpz, v: Mpz, qk: Mpz, n: Mpz, Q: int, ghost k: nat, ghost N: int)
    requires ApartFrom(u, v, n) && Separate(qk, u) && Separate(qk, v) && Separate(qk, n)
    requires N == n.Value() > 0 && N % 2 == 1 && -HIGHBIT <= Q < HIGHBIT && -HIGHBIT <= -2 * Q < HIGHBIT
    requires Terms(u.Value(), v.Value(), qk.Value(), Q, k, N)
    modifies u, u.d, v, v.d, qk, qk.d
    ensures ApartFrom(u, v, n) && qk.Valid() && qk.d != u.d && qk.d != v.d && qk.d != n.d
    ensures Terms(u.Value(), v.Value(), qk.Value(), Q, k + 1, N)
    ensures u.d == old(v.d) || fresh(u.d)
    ensures (v.d == old(u.d) || fresh(v.d)) && (qk.d == old(qk.d) || fresh(qk.d))
  {
    NextPower(qk.Value(), Q, k, N);
    MulSi(qk, qk, Q);
    StepNextU(u, v, n, Q, k, N);
    StepNextV(u, v, n, Q, k, N);
  }

  /** Q and -2 Q fit a machine word. */
  predicate Admissible(Q: int) {
    -(HIGHBIT / 2 - 1) <= Q <= HIGHBIT / 2
  }

  /** Separate numbers that hold U_k, V_k and Q^k modulo the odd n. */
  ghost predicate Ladder(u: Mpz, v: Mpz, qk: Mpz, n: Mpz, Q: int, k: nat, N: int)
    reads u, v, qk, n, u.d, v.d, qk.d, n.d
  {
    && ApartFrom(u, v, n) && Separate(qk, u) && Separate(qk, v) && Separate(qk, n)
    && N == n.Value() && 4 < N && N % 2 == 1 && Terms(u.Value(), v.Value(), qk.Value(), Q, k, N)
  }

  // From k to 2k.
  method TurnDouble(u: Mpz, v: Mpz, qk: Mpz, n: Mpz, ghost Q: int, ghost k: nat, ghost N: int)
    requires Ladder(u, v, qk, n, Q, k, N) && 1 <= k
    modifies u, u.d, v, v.d, qk, qk.d
    ensures Ladder(u, v, qk, n, Q, 2 * k, N)
    ensures (u.d == old(u.d) || fresh(u.d)) && (v.d == old(v.d) || fresh(v.d)) && (qk.d == old(qk.d) || fresh(qk.d))
  {
    ghost var x, y, q := u.Value(), v.Value(), qk.Value();
    u.Mul(u, v);
    ghost var q' := StepDouble(v, qk, n, y, q, N);
    DoubleTerms(x, y, q, Q, k, N, q', v.Value());
  }

  // From k to k' = k + 1 if the bit asks for it.
  method TurnNext(u: Mpz, v: Mpz, qk: Mpz, n: Mpz, Q: int, next: bool, ghost k: nat, ghost k': nat, ghost N: nat)
    requires Ladder(u, v, qk, n, Q, k, N) && Admissible(Q) && k' == if next then k + 1 else k
    modifies u, u.d, v, v.d, qk, qk.d
    ensures Ladder(u, v, qk, n, Q, k', N) && AbsInt(u.Value()) < N
    ensures u.d == old(u.d) || u.d == old(v.d) || fresh(u.d)
    ensures v.d == old(u.d) || v.d == old(v.d) || fresh(v.d)
    ensures qk.d == old(qk.d) || fresh(qk.d)
  {
    if next {
      StepNext(u, v, qk, n, Q, k, N);
    }
    ghost var x := u.Value();
    ReduceModulo(u, n, Trunc, x, N);
    ReduceU(x, u.Value(), v.Value(), qk.Value(), Q, k', N);
  }

  /** One turn of the ladder: from k to 2k or 2k + 1. */
  method Turn(u: Mpz, v: Mpz, qk: Mpz, n: Mpz, Q: int, next: bool, ghost k: nat, ghost k': nat, ghost N: nat)
    requires Ladder(u, v, qk, n, Q, k, N) && Admissible(Q) && 1 <= k && k' == if next then 2 * k + 1 else 2 * k
    modifies u, u.d, v, v.d, qk, qk.d
    ensures Ladder(u, v, qk, n, Q, k', N) && AbsInt(u.Value()) < N
    ensures u.d == old(u.d) || u.d == old(v.d) || fresh(u.d)
    ensures v.d == old(u.d) || v.d == old(v.d) || fresh(v.d)
    ensures qk.d == old(qk.d) || fresh(qk.d)
  {
    TurnDouble(u, v, qk, n, Q, k, N);
    TurnNext(u, v, qk, n, Q, next, 2 * k, k', N);
  }

  /** (n >> b0) | 1 */
  function OddIndex(n: nat, b0: nat): (k: nat)
    ensures k % 2 == 1 && (k == ShiftedDown(n, b0) || k == ShiftedDown(n, b0) + 1)
  {
    var h := ShiftedDown(n, b0);
    if h % 2 == 0 then h + 1 else h
  }

  /** n >> b */
  function ShiftedDown(n: nat, b: nat): nat {
    PowPositive(2, b);
    DivNonneg(n, Pow2(b));
    n / Pow2(b)
  }

  /** The index reached with bit bs: the bits of n from bs on, the last one forced at b0. */
  function LadderIndex(n: nat, b0: nat, bs: nat): nat {
    if bs == b0 then OddIndex(n, b0) else ShiftedDown(n, bs)
  }

  lemma ShiftedStep(n: nat, b: nat)
    ensures ShiftedDown(n, b) == 2 * ShiftedDown(n, b + 1) + if Bit(n, b) then 1 else 0
  {
    BitIs(n, b);
    PowStep(2, b);
    DivByProduct(n, Pow2(b), 2);
    DivMod(n / Pow2(b), 2);
  }

  lemma LadderStep(n: nat, b0: nat, bs: nat)
    requires b0 <= bs
    ensures var k := LadderIndex(n, b0, bs + 1);
            LadderIndex(n, b0, bs) == if bs == b0 || Bit(n, bs) then 2 * k + 1 else 2 * k
  {
    ShiftedStep(n, bs);
  }

  lemma LadderStart(n: nat, bits: nat, b0: nat)
    requires 1 <= bits && Pow2(bits - 1) <= n < Pow2(bits)
    ensures LadderIndex(n, b0, bits - 1) == 1 && (bits - 1 < b0 ==> OddIndex(n, b0) == 1)
  {
    PowPositive(2, bits - 1);
    PowStep(2, bits - 1);
    DivModUnique(n, Pow2(bits - 1), 1, n - Pow2(bits - 1));
    if bits <= b0 {
      PowMono(2, bits, b0);
      DivModUnique(n, Pow2(b0), 0, n);
    }
  }

  lemma ZeroResidue(u: int, a: int, N: int)
    requires AbsInt(u) < N && Cong(u, a, N)
    ensures u == 0 <==> Divides(N, a)
  {
    if u == 0 {
      CongSym(u, a, N);
    } else if Divides(N, a) {
      DividesCombination(N, u - a, a, 1, 1);
      DividesCombination(N, u, u, -1, 0);
      DividesBound(N, AbsInt(u));
    }
  }

  lemma FirstTerms(Q: int, N: int)
    ensures Terms(1, 1, Q, Q, 1, N)
  {
    Recurrence(Q, 0);
    PowStep(Q, 0);
    CongSame(1, N);
    CongSame(Q, N);
  }

  // Whether to add one is told by bit bs of n, or by having reached b0.
  method TakeBit(u: Mpz, v: Mpz, qk: Mpz, n: Mpz, Q: int, b0: nat, bs: nat, ghost k: nat, ghost k': nat, ghost N: nat)
    requires Ladder(u, v, qk, n, Q, k, N) && Admissible(Q) && 1 <= k
    requires k' == if bs == b0 || Bit(N, bs) then 2 * k + 1 else 2 * k
    modifies u, u.d, v, v.d, qk, qk.d
    ensures Ladder(u, v, qk, n, Q, k', N) && AbsInt(u.Value()) < N
    ensures u.d == old(u.d) || u.d == old(v.d) || fresh(u.d)
    ensures v.d == old(u.d) || v.d == old(v.d) || fresh(v.d)
    ensures qk.d == old(qk.d) || fresh(qk.d)
  {
    var bit := TstBit(n, bs);
    Turn(u, v, qk, n, Q, b0 == bs || bit, k, k', N);
  }

  // The ladder from k = 1 down the bits of n.
  method RunLadder(u: Mpz, v: Mpz, qk: Mpz, n: Mpz, Q: int, b0: nat, ghost N: nat)
    requires Ladder(u, v, qk, n, Q, 1, N) && Admissible(Q) && 0 < b0 && u.Value() == 1
    modifies u, u.d, v, v.d, qk, qk.d
    ensures Ladder(u, v, qk, n, Q, OddIndex(N, b0), N) && AbsInt(u.Value()) < N
    ensures v.d == old(u.d) || v.d == old(v.d) || fresh(v.d)
    ensures qk.d == old(qk.d) || fresh(qk.d)
  {
    var bits := SizeInBase(n, 2);
    LadderStart(N, bits, b0);
    ghost var k: nat := 1;
    var bs: nat := bits - 1;
    while bs - 1 >= b0
      invariant Ladder(u, v, qk, n, Q, k, N) && AbsInt(u.Value()) < N
      invariant 1 <= k == LadderIndex(N, b0, bs) && (bs < b0 ==> bs == bits - 1)
      invariant u.d == old(u.d) || u.d == old(v.d) || fresh(u.d)
      invariant v.d == old(u.d) || v.d == old(v.d) || fresh(v.d)
      invariant qk.d == old(qk.d) || fresh(qk.d)
    {
      bs := bs - 1;
      ghost var k' := LadderIndex(N, b0, bs);
      LadderStep(N, b0, bs);
      TakeBit(u, v, qk, n, Q, b0, bs, k, k', N);
      k := k';
    }
  }

  // U, V and Q^k for k = 1.
  method StartLadder(v: Mpz, qk: Mpz, Q: int, n: Mpz, ghost N: nat) returns (u: Mpz)
    requires Separate(v, qk) && Separate(v, n) && Separate(qk, n)
    requires Admissible(Q) && N == n.Value() > 4 && N % 2 == 1
    modifies v, v.d, qk, qk.d
    ensures fresh(u) && fresh(u.d) && Ladder(u, v, qk, n, Q, 1, N) && u.Value() == 1
    ensures (v.d == old(v.d) || fresh(v.d)) && (qk.d == old(qk.d) || fresh(qk.d))
  {
    u := new Mpz.Init();
    u.SetUi(1);
    v.SetUi(1);
    SetSi(qk, Q);
    FirstTerms(Q, N);
  }

  /** gmp_lucas_mod: V = V_k and Qk = Q^k modulo n for k = (n >> b0) | 1; tells whether n divides U_k. */
  method LucasMod(v: Mpz, qk: Mpz, Q: int, b0: nat, n: Mpz) returns (zero: bool)
    requires Separate(v, qk) && Separate(v, n) && Separate(qk, n)
    requires 0 < b0 && Admissible(Q) && n.Value() > 4 && n.Value() % 2 == 1
    modifies v, v.d, qk, qk.d
    ensures v.Valid() && qk.Valid()
    ensures var N, k := old(n.Value()), OddIndex(old(n.Value()), b0);
            && zero == Divides(N, U(Q, k))
            && Cong(v.Value(), V(Q, k), N) && Cong(qk.Value(), Pow(Q, k), N)
    ensures (v.d == old(v.d) || fresh(v.d)) && (qk.d == old(qk.d) || fresh(qk.d))
  {
    ghost var N: nat := n.Value();
    var u := StartLadder(v, qk, Q, n, N);
    RunLadder(u, v, qk, n, Q, b0, N);
    ZeroResidue(u.Value(), U(Q, OddIndex(N, b0)), N);
    Signs(u);
    zero := u.size == 0;
  }
}
