/** Powers by repeated squaring, plain and modular. */
module PowMod {
  import opened Arith
  import opened Powers
  import opened Divisors
  import opened Congruence
  import opened Limbs
  import opened LimbSeqs
  import opened Bits
  import opened Mpn
  import opened MpnDivQr
  import opened Mpzs
  import opened MpzDiv
  import opened GcdBinary
  import opened GcdExtended

  // --- the bits of the exponent ---

  /** x & 2^k is non-zero exactly if bit k of x is set. */
  lemma {:induction false} AndWithPower(x: nat, k: nat)
    ensures 0 <= Pow2(k) && (Bitwise(And, x, Pow2(k)) != 0) == Bit(x, k)
  {
    PowPositive(2, k);
    BitwiseUnfold(And, x, Pow2(k));
    if k == 0 {
      PowStep(2, 0);
      AndWithZero(x / 2);
      BitHalf(x, 0);
    } else {
      PowStep(2, k - 1);
      PowPositive(2, k - 1);
      AndWithPower(x / 2, k - 1);
      BitHalf(x, k - 1);
    }
  }

  /** The top bits of e down to bit k, as a number. */
  function TopBits(e: Limb, k: nat): int {
    Shr(e, k)
  }

  lemma TopBitsStep(e: Limb, k: nat)
    requires k < LIMB_BITS
    ensures TopBits(e, k) == 2 * TopBits(e, k + 1) + if Bit(e, k) then 1 else 0
    ensures TopBits(e, 0) == e && TopBits(e, LIMB_BITS) == 0
  {
    BitIs(e, k);
    PowStep(2, k);
    DivByProduct(e, Pow2(k), 2);
    DivMod(e / Pow2(k), 2);
    PowStep(2, 0);
    Pow2Values();
    DivModUnique(e, B, 0, e);
  }

  lemma PowDouble(x: int, n: nat)
    ensures Pow(x, 2 * n) == Pow(x, n) * Pow(x, n)
    ensures Pow(x, 2 * n + 1) == Pow(x, n) * Pow(x, n) * x
  {
    PowAdd(x, n, n);
    PowStep(x, 2 * n);
  }

  /** The bit that a loop from the top of a limb looks at with k bits to go; zero when none are left. */
  function Mask(k: nat): Limb
    requires k <= LIMB_BITS
  {
    if k == 0 then 0 else Shl(1, k - 1)
  }

  lemma MaskBit(e: Limb, k: nat)
    requires 1 <= k <= LIMB_BITS
    ensures Mask(k) > 0 && Shr(Mask(k), 1) == Mask(k - 1)
    ensures (Bitwise(And, e, Mask(k)) != 0) == Bit(e, k - 1)
  {
    OneShifted(k - 1);
    AndWithPower(e, k - 1);
    PowStep(2, 0);
    if k > 1 {
      OneShifted(k - 2);
      PowStep(2, k - 2);
    }
  }

  lemma TopMask()
    ensures Mask(LIMB_BITS) == HIGHBIT
  {
    OneShifted(LIMB_BITS - 1);
    Pow2Values();
  }

  lemma PowerByBit(x: int, e: Limb, k: nat)
    requires 1 <= k <= LIMB_BITS
    ensures TopBits(e, k) >= 0 && TopBits(e, k - 1) >= 0
    ensures var p := Pow(x, TopBits(e, k));
            Pow(x, TopBits(e, k - 1)) == if Bit(e, k - 1) then p * p * x else p * p
  {
    TopBitsStep(e, k - 1);
    PowDouble(x, TopBits(e, k));
  }

  /** Square, and multiply if the bit of e is set. */
  method SquareMultiply(tr: Mpz, b: Mpz, e: Limb, bit: Limb, ghost k: nat, ghost x: int)
    requires Separate(tr, b) && 1 <= k <= LIMB_BITS && bit == Mask(k) && x == b.Value()
    requires TopBits(e, k) >= 0 && tr.Value() == Pow(x, TopBits(e, k))
    modifies tr
    ensures tr.Valid() && (tr.d == old(tr.d) || fresh(tr.d))
    ensures TopBits(e, k - 1) >= 0 && tr.Value() == Pow(x, TopBits(e, k - 1))
  {
    MaskBit(e, k);
    PowerByBit(x, e, k);
    tr.Mul(tr, tr);
    if Bitwise(And, e, bit) != 0 {
      tr.Mul(tr, b);
    }
  }

  /** mpz_pow_ui: b^e. */
  method PowUi(r: Mpz, b: Mpz, e: Limb)
    requires r.Valid() && b.Valid()
    modifies r
    ensures r.Valid() && r.Value() == Pow(old(b.Value()), e) && fresh(r.d)
  {
    ghost var x := b.Value();
    var tr := new Mpz.Init();
    tr.SetUi(1);
    var bit: Limb := HIGHBIT;
    ghost var k: nat := LIMB_BITS;
    TopMask();
    TopBitsStep(e, LIMB_BITS - 1);
    PowStep(x, 0);
    while bit > 0
      invariant k <= LIMB_BITS && bit == Mask(k)
      invariant fresh(tr) && fresh(tr.d) && Separate(tr, b) && b.Value() == x && unchanged(r)
      invariant TopBits(e, k) >= 0 && tr.Value() == Pow(x, TopBits(e, k))
      decreases k
    {
      SquareMultiply(tr, b, e, bit, k, x);
      MaskBit(e, k);
      bit := Shr(bit, 1);
      k := k - 1;
    }
    if k > 0 {
      MaskBit(e, k);
    }
    TopBitsStep(e, 0);
    r.Swap(tr);
  }

  // --- the modulus ---

  lemma ShiftedBelow(inv: DivInverse, D: seq<Limb>)
    requires InverseOf(inv, D)
    ensures 0 <= Val(D) * Pow2(inv.shift) < Place(|D|)
  {
    var n, e := |D|, inv.d1 * B + inv.d0;
    PlaceStep(0);
    PlaceStep(1);
    ValBound(D);
    PowPositive(2, inv.shift);
    MulNonneg(Val(D), Pow2(inv.shift));
    if n > 1 {
      PlaceStep(n - 2);
      PlaceStep(n - 1);
      MulMono(e + 1, B * B, Place(n - 2));
      Distribute(Place(n - 2), e, 1);
    }
  }

  lemma NoCarryOut(v: int, ret: int, p: int, x: int)
    requires v + ret * p == x && 0 <= v && x < p && 0 <= ret && 0 < p
    ensures ret == 0 && v == x
  {
    if ret >= 1 {
      MulMono(1, ret, p);
    }
  }

  /** The limbs and the reciprocal divide by d, which needs no further shift. */
  ghost predicate Normal(mp: array<Limb>, mn: nat, inv: DivInverse, d: int)
    reads mp
  {
    && mn <= mp.Length && Prepared(inv, mp, mn, d) && Val(mp[..mn]) == d && 0 < d
  }

  // The divisor's limbs shifted up until the top bit is set.
  method ShiftModulus(dp: array<Limb>, mn: nat, inv: DivInverse, ghost M: int) returns (mp: array<Limb>)
    requires 1 <= mn <= dp.Length && InverseOf(inv, dp[..mn]) && M == Val(dp[..mn])
    ensures (mp == dp || fresh(mp)) && mn <= mp.Length && Val(mp[..mn]) == M * Pow2(inv.shift)
  {
    ghost var D := dp[..mn];
    ShiftedBelow(inv, D);
    PowStep(2, 0);
    mp := dp;
    if inv.shift > 0 {
      mp := new Limb[mn];
      var ret := Lshift(mp, 0, dp, mn, inv.shift);
      assert mp[0..0 + mn] == mp[..mn];
      ValBound(mp[..mn]);
      PlaceStep(mn);
      NoCarryOut(Val(mp[..mn]), ret, Place(mn), M * Pow2(inv.shift));
    }
  }

  lemma PreparedTwice(inv: DivInverse, D: seq<Limb>, mp: array<Limb>, mn: nat, M: int)
    requires |D| == mn && InverseOf(inv, D) && M == Val(D) && 0 < M
    requires mn <= mp.Length && Val(mp[..mn]) == M * Pow2(inv.shift)
    ensures Prepared(inv, mp, mn, M) && Normal(mp, mn, inv.(shift := 0), M * Pow2(inv.shift))
  {
    PowStep(2, 0);
    PlaceStep(0);
    PowPositive(2, inv.shift);
    MulStrict(0, M, Pow2(inv.shift));
    if mn > 2 {
      TopLimbsMatch(inv, D, mp[..mn]);
    }
  }

  /** The modulus shifted up until its top bit is set, with the reciprocal of that, and the shift. */
  method PrepareModulus(m: Mpz, ghost M: int) returns (mp: array<Limb>, inv: DivInverse, shift: nat, ghost d: int)
    requires m.Valid() && m.size != 0 && M == m.Magnitude()
    ensures (mp == m.d || fresh(mp)) && inv.shift == 0
    ensures d == M * Pow2(shift) && Divides(M, d)
    ensures Normal(mp, AbsInt(m.size), inv, d)
    ensures Prepared(inv.(shift := shift), mp, AbsInt(m.size), M)
  {
    var mn := AbsInt(m.size);
    ghost var D := m.d[..mn];
    Signs(m);
    var minv := DivQrInvert(m.d, mn);
    shift := minv.shift;
    mp := ShiftModulus(m.d, mn, minv, M);
    PreparedTwice(minv, D, mp, mn, M);
    DividesMultiple(M, Pow2(shift));
    d := M * Pow2(shift);
    inv := minv.(shift := 0);
  }

  /** Reduces a number of at least mn limbs in place. */
  method Reduce(tr: Mpz, mp: array<Limb>, mn: nat, inv: DivInverse, ghost d: int) returns (ghost q: int)
    requires tr.Valid() && mn <= tr.size && Prepared(inv, mp, mn, d) && tr.d != mp
    modifies tr, tr.d
    ensures tr.Valid() && tr.d == old(tr.d) && old(tr.Value()) == q * d + tr.Value() && 0 <= tr.Value() < d
  {
    ghost var Q := DivQrPreinv(null, tr.d, tr.size, mp, mn, inv, d);
    q := Val(Q);
    ValBound(tr.d[..mn]);
    tr.size := NormalizedSize(tr.d, mn);
  }

  lemma NormalTop(mp: array<Limb>, mn: nat, inv: DivInverse, d: int)
    requires Normal(mp, mn, inv, d) && inv.shift == 0
    ensures 1 <= mn && HIGHBIT <= mp[mn - 1]
  {
    PowStep(2, 0);
    PlaceStep(0);
    TopOne(mp[..mn]);
    if mn == 1 {
      ValEmpty();
      assert mp[..mn][..0] == [];
    } else if mn == 2 {
      PairOf(mp[..mn]);
      DivModPairUnique(B, mp[1], mp[0], inv.d1, inv.d0);
    }
  }

  lemma CongNegated(v: int, x: int, d: int, m: int)
    requires Cong(v, x, m) && Divides(m, d)
    ensures Cong(d - v, -x, m)
  {
    DividesCombination(m, d, v - x, 1, -1);
  }

  lemma DifferenceBelow(r: int, cy: int, p: int, d: int, v: int)
    requires r - cy * p == d - v && 0 <= v < d && 0 <= r < p && 0 <= cy
    ensures cy == 0 && r == d - v
  {
    if cy >= 1 {
      MulMono(1, cy, p);
    }
  }

  // |b| reduced into the low limbs of base, of which bn count.
  method ReduceMagnitude(base: Mpz, b: Mpz, mp: array<Limb>, mn: nat, inv: DivInverse, ghost d: int, ghost m: int)
    returns (bn: nat, ghost v: int)
    requires base.Valid() && b.Valid() && base != b && base.d != b.d && base.d != mp
    requires Normal(mp, mn, inv, d) && inv.shift == 0 && Divides(m, d)
    modifies base, base.d
    ensures base.d == old(base.d) || fresh(base.d)
    ensures 0 <= base.size <= base.alloc <= base.d.Length && bn <= mn && bn <= base.alloc
    ensures v == Val(base.d[..bn]) && 0 <= v < d && Cong(v, AbsInt(b.Value()), m)
  {
    base.Abs(b);
    Signs(base);
    bn := base.size;
    ghost var x := base.Value();
    NormalTop(mp, mn, inv, d);
    if bn >= mn {
      ghost var Q := DivQrPreinv(null, base.d, base.size, mp, mn, inv, d);
      bn := mn;
      v := Val(base.d[..bn]);
      CongReduced(x, Val(Q), d, v, m);
    } else {
      v := x;
      LongerIsLarger(base.d[..bn], mp[..mn]);
      CongSame(x, m);
    }
    ValBound(base.d[..bn]);
  }

  // d - v in place of v.
  method NegateBase(base: Mpz, bn: nat, mp: array<Limb>, mn: nat, ghost d: int, ghost v: int)
    requires 0 <= base.size <= base.alloc <= base.d.Length && bn <= mn <= mp.Length && bn <= base.alloc && base.d != mp
    requires v == Val(base.d[..bn]) && 0 <= v < d && d == Val(mp[..mn])
    modifies base, base.d
    ensures base.d == old(base.d) || fresh(base.d)
    ensures mn <= base.alloc <= base.d.Length && Val(base.d[..mn]) == d - v
  {
    ghost var low := base.d[..bn];
    base.Realloc(mn);
    assert base.d[..bn] == low;
    var cy := Mpn.Sub(base.d, mp, mn, base.d, bn);
    ValBound(base.d[..mn]);
    DifferenceBelow(Val(base.d[..mn]), cy, Place(mn), d, v);
  }

  /** The base reduced into 0 ..= d, congruent to b; a multiple of d that is negative or zero may be held as d. */
  method ReduceBase(base: Mpz, b: Mpz, mp: array<Limb>, mn: nat, inv: DivInverse, ghost d: int, ghost m: int)
    requires base.Valid() && b.Valid() && base != b && base.d != b.d && base.d != mp
    requires Normal(mp, mn, inv, d) && inv.shift == 0 && Divides(m, d)
    modifies base, base.d
    ensures base.Valid() && (base.d == old(base.d) || fresh(base.d))
    ensures 0 <= base.Value() <= d && Cong(base.Value(), b.Value(), m)
  {
    Signs(b);
    var bn, v := ReduceMagnitude(base, b, mp, mn, inv, d, m);
    ghost var r := v;
    if b.size < 0 {
      CongNegated(v, AbsInt(b.Value()), d, m);
      NegateBase(base, bn, mp, mn, d, v);
      bn := mn;
      r := d - v;
    }
    base.size := NormalizedSize(base.d, bn);
    assert base.Value() == r;
  }

  // --- the exponentiation ---

  /** The exponent so far: X from the limbs above, then the top bits of w down to bit k. */
  function Exponent(X: nat, w: Limb, k: nat): (n: nat)
    requires k <= LIMB_BITS
  {
    PowPositive(2, LIMB_BITS - k);
    MulNonneg(X, Pow2(LIMB_BITS - k));
    X * Pow2(LIMB_BITS - k) + TopBits(w, k)
  }

  lemma ExponentStep(X: nat, w: Limb, k: nat)
    requires 1 <= k <= LIMB_BITS
    ensures Exponent(X, w, k - 1) == 2 * Exponent(X, w, k) + if Bit(w, k - 1) then 1 else 0
  {
    TopBitsStep(w, k - 1);
    PowStep(2, LIMB_BITS - k);
    assert X * (2 * Pow2(LIMB_BITS - k)) == 2 * (X * Pow2(LIMB_BITS - k));
  }

  lemma ExponentEnds(X: nat, w: Limb)
    ensures Exponent(X, w, LIMB_BITS) == X && Exponent(X, w, 0) == w + B * X
  {
    TopBitsStep(w, 0);
    PowStep(2, 0);
    Pow2Values();
  }

  lemma CongSquare(t: int, x: int, n: nat, b: int, m: int)
    requires Cong(t, Pow(x, n), m) && Cong(b, x, m)
    ensures Cong(t * t, Pow(x, 2 * n), m) && Cong(t * t * b, Pow(x, 2 * n + 1), m)
  {
    PowDouble(x, n);
    CongMul(t, Pow(x, n), t, Pow(x, n), m);
    CongMul(t * t, Pow(x, n) * Pow(x, n), b, x, m);
  }

  /** tr holds x^n modulo m, not necessarily reduced. */
  ghost predicate Powered(tr: Mpz, x: int, n: nat, m: int)
    reads tr, tr.d
  {
    tr.Valid() && 0 <= tr.Value() && Cong(tr.Value(), Pow(x, n), m)
  }

  method SquareMultiplyMod(tr: Mpz, base: Mpz, w: Limb, bit: Limb, ghost k: nat, ghost X: nat, ghost x: int,
                           ghost m: int)
    requires Separate(tr, base) && 1 <= k <= LIMB_BITS && bit == Mask(k)
    requires Powered(tr, x, Exponent(X, w, k), m) && 0 <= base.Value() && Cong(base.Value(), x, m)
    modifies tr
    ensures Powered(tr, x, Exponent(X, w, k - 1), m)
    ensures tr.d == old(tr.d) || fresh(tr.d)
  {
    MaskBit(w, k);
    ExponentStep(X, w, k);
    ghost var t, b := tr.Value(), base.Value();
    CongSquare(t, x, Exponent(X, w, k), b, m);
    MulNonneg(t, t);
    MulNonneg(t * t, b);
    tr.Mul(tr, tr);
    if Bitwise(And, w, bit) != 0 {
      tr.Mul(tr, base);
    }
  }

  /** Reduces only when the number has outgrown the modulus. */
  method ReduceIfLong(tr: Mpz, mp: array<Limb>, mn: nat, inv: DivInverse, ghost d: int, ghost x: int, ghost n: nat,
                      ghost m: int)
    requires Powered(tr, x, n, m) && Prepared(inv, mp, mn, d) && tr.d != mp && Divides(m, d)
    modifies tr, tr.d
    ensures Powered(tr, x, n, m) && tr.d == old(tr.d)
  {
    if tr.size > mn {
      ghost var t := tr.Value();
      ghost var q := Reduce(tr, mp, mn, inv, d);
      CongReduced(t, q, d, tr.Value(), m);
      CongTrans(tr.Value(), t, Pow(x, n), m);
    }
  }

  /** The bits of one limb of the exponent. */
  method PowerLimb(tr: Mpz, base: Mpz, w: Limb, mp: array<Limb>, mn: nat, inv: DivInverse,
                   ghost d: int, ghost X: nat, ghost x: int, ghost m: int)
    requires Separate(tr, base) && Powered(tr, x, X, m) && 0 <= base.Value() && Cong(base.Value(), x, m)
    requires Prepared(inv, mp, mn, d) && tr.d != mp && Divides(m, d)
    modifies tr, tr.d
    ensures Powered(tr, x, w + B * X, m)
    ensures tr.d == old(tr.d) || fresh(tr.d)
  {
    var bit: Limb := HIGHBIT;
    ghost var k: nat := LIMB_BITS;
    TopMask();
    ExponentEnds(X, w);
    while bit > 0
      invariant k <= LIMB_BITS && bit == Mask(k)
      invariant Separate(tr, base) && base.Value() == old(base.Value()) && tr.d != mp && Prepared(inv, mp, mn, d)
      invariant Powered(tr, x, Exponent(X, w, k), m)
      invariant tr.d == old(tr.d) || fresh(tr.d)
      decreases k
    {
      SquareMultiplyMod(tr, base, w, bit, k, X, x, m);
      ReduceIfLong(tr, mp, mn, inv, d, x, Exponent(X, w, k - 1), m);
      MaskBit(w, k);
      bit := Shr(bit, 1);
      k := k - 1;
    }
    if k > 0 {
      MaskBit(w, k);
    }
  }

  /** All limbs of the exponent from the top. */
  method PowerLimbs(tr: Mpz, base: Mpz, e: array<Limb>, en: nat, mp: array<Limb>, mn: nat, inv: DivInverse,
                    ghost d: int, ghost x: int, ghost m: int)
    requires Separate(tr, base) && Powered(tr, x, 0, m) && 0 <= base.Value() && Cong(base.Value(), x, m)
    requires Prepared(inv, mp, mn, d) && tr.d != mp && Divides(m, d) && en <= e.Length && tr.d != e
    modifies tr, tr.d
    ensures 0 <= Val(e[..en]) && Powered(tr, x, Val(e[..en]), m)
    ensures tr.d == old(tr.d) || fresh(tr.d)
  {
    ghost var E := e[..en];
    ValEmpty();
    ValBound(E);
    assert E[en..] == [];
    for i := en downto 0
      invariant Separate(tr, base) && base.Value() == old(base.Value()) && tr.d != mp && Prepared(inv, mp, mn, d)
      invariant e[..en] == E && tr.d != e
      invariant 0 <= Val(E[i..]) && Powered(tr, x, Val(E[i..]), m)
      invariant tr.d == old(tr.d) || fresh(tr.d)
    {
      ghost var X := Val(E[i + 1..]);
      assert E[i..][1..] == E[i + 1..];
      ValCons(E[i..]);
      PowerLimb(tr, base, e[i], mp, mn, inv, d, X, x, m);
      ValBound(E[i..]);
    }
    assert E[0..] == E;
  }

  lemma DividesByMagnitude(m: int, y: int)
    requires Divides(m, y)
    ensures Divides(AbsInt(m), y)
  {
    var k := Cofactor(m, y);
    DividesByFactor(AbsInt(m), y, if m < 0 then -k else k);
  }

  /** The base reduced, or its inverse for a negative exponent; x is the number that gets raised. */
  method ChooseBase(b: Mpz, e: Mpz, m: Mpz, mp: array<Limb>, mn: nat, inv: DivInverse, ghost d: int, ghost M: int)
    returns (base: Mpz, ghost x: int)
    requires b.Valid() && e.Valid() && m.Valid() && M == AbsInt(m.Value()) && e.size != 0
    requires e.size < 0 ==> b.Value() != 0 && M > 1 && Gcd(AbsInt(b.Value()), M) == 1
    requires Normal(mp, mn, inv, d) && inv.shift == 0 && Divides(M, d)
    ensures fresh(base) && fresh(base.d) && base.Valid()
    ensures 0 <= base.Value() && Cong(base.Value(), x, M)
    ensures if e.size < 0 then Cong(x * b.Value(), 1, M) else x == b.Value()
  {
    base := new Mpz.Init();
    if e.size < 0 {
      var ok := InvertMpz(base, b, m);
      assert ok;
      x := base.Value();
      CongSame(x, M);
      DividesByMagnitude(m.Value(), x * b.Value() - 1);
    } else {
      x := b.Value();
      ReduceBase(base, b, mp, mn, inv, d, M);
    }
  }

  /** The last reduction, by the modulus itself. */
  method FinalReduction(tr: Mpz, m: Mpz, mp: array<Limb>, mn: nat, inv: DivInverse, ghost M: int, ghost x: int,
                        ghost n: nat)
    requires Powered(tr, x, n, M) && m.Valid() && tr != m && tr.d != m.d && tr.d != mp
    requires M == AbsInt(m.Value()) && mn == AbsInt(m.size) && 0 < M && Prepared(inv, mp, mn, M)
    modifies tr, tr.d
    ensures Powered(tr, x, n, M) && tr.d == old(tr.d) && tr.Value() < M
  {
    Signs(tr);
    Signs(m);
    if tr.size >= mn {
      ghost var t := tr.Value();
      ghost var q := Reduce(tr, mp, mn, inv, M);
      DividesByFactor(M, M, 1);
      CongReduced(t, q, M, tr.Value(), M);
      CongTrans(tr.Value(), t, Pow(x, n), M);
    } else {
      LongerIsLarger(tr.d[..tr.size], m.d[..mn]);
    }
  }

  lemma {:induction false} PowOfProduct(x: int, y: int, n: nat)
    ensures Pow(x * y, n) == Pow(x, n) * Pow(y, n) && Pow(1, n) == 1
  {
    PowStep(x, 0);
    if n > 0 {
      PowOfProduct(x, y, n - 1);
      PowStep(x, n - 1);
      PowStep(y, n - 1);
      PowStep(x * y, n - 1);
      PowStep(1, n - 1);
      Shuffle(x, y, Pow(x, n - 1), Pow(y, n - 1));
    }
  }

  lemma Shuffle(x: int, y: int, p: int, q: int)
    ensures x * y * (p * q) == x * p * (y * q)
  {
    assert x * y * p == x * p * y;
  }

  // A power of an inverse is an inverse of the power.
  lemma PowerOfInverse(x: int, b: int, r: int, n: nat, m: int)
    requires Cong(r, Pow(x, n), m) && Cong(x * b, 1, m)
    ensures Cong(r * Pow(b, n), 1, m)
  {
    CongSame(Pow(b, n), m);
    CongMul(r, Pow(x, n), Pow(b, n), Pow(b, n), m);
    PowOfProduct(x, b, n);
    PowOfProduct(1, 1, n);
    CongPow(x * b, 1, n, m);
    CongTrans(r * Pow(b, n), Pow(x * b, n), 1, m);
  }

  /** What mpz_powm returns for base b, exponent e and a modulus of magnitude m. */
  ghost predicate ModularPower(r: int, b: int, e: int, m: int) {
    if e == 0 then r == 1
    else 0 <= r < m && if e > 0 then Cong(r, Pow(b, e), m) else Cong(r * Pow(b, -e), 1, m)
  }

  /** The power of the base, reduced by the modulus. */
  method RaiseBase(base: Mpz, e: Mpz, m: Mpz, mp: array<Limb>, mn: nat, inv: DivInverse, shift: nat,
                   ghost d: int, ghost x: int, ghost M: int) returns (tr: Mpz)
    requires base.Valid() && 0 <= base.Value() && Cong(base.Value(), x, M)
    requires e.Valid() && m.Valid() && M == AbsInt(m.Value()) > 0 && mn == AbsInt(m.size)
    requires Prepared(inv, mp, mn, d) && Prepared(inv.(shift := shift), mp, mn, M) && Divides(M, d)
    ensures fresh(tr) && fresh(tr.d) && Powered(tr, x, AbsInt(e.Value()), M) && tr.Value() < M
  {
    Signs(e);
    tr := new Mpz.Init();
    tr.SetUi(1);
    PowStep(x, 0);
    CongSame(1, M);
    PowerLimbs(tr, base, e.d, AbsInt(e.size), mp, mn, inv, d, x, M);
    FinalReduction(tr, m, mp, mn, inv.(shift := shift), M, x, AbsInt(e.Value()));
  }

  // The exponent is not zero.
  method PowmNonzero(b: Mpz, e: Mpz, m: Mpz, ghost x: int, ghost y: int, ghost M: int) returns (tr: Mpz)
    requires b.Valid() && e.Valid() && m.Valid() && x == b.Value() && y == e.Value() != 0 && M == AbsInt(m.Value()) > 0
    requires y < 0 ==> x != 0 && M > 1 && Gcd(AbsInt(x), M) == 1
    ensures fresh(tr) && fresh(tr.d) && tr.Valid() && ModularPower(tr.Value(), x, y, M)
  {
    Signs(e);
    Signs(m);
    var mn := AbsInt(m.size);
    var mp, inv, shift, d := PrepareModulus(m, M);
    var base;
    ghost var z;
    base, z := ChooseBase(b, e, m, mp, mn, inv, d, M);
    tr := RaiseBase(base, e, m, mp, mn, inv, shift, d, z, M);
    if y < 0 {
      PowerOfInverse(z, x, tr.Value(), -y, M);
    }
  }

  /** mpz_powm: b^e modulo |m|. A zero modulus, and a negative exponent of a base without inverse, are fatal in the
      library; for exponent zero the result is 1 whatever the modulus. */
  method Powm(r: Mpz, b: Mpz, e: Mpz, m: Mpz)
    requires r.Valid() && b.Valid() && e.Valid() && m.Valid() && r.Apart(b) && r.Apart(e) && r.Apart(m)
    requires m.Value() != 0
    requires e.Value() < 0 ==> b.Value() != 0 && AbsInt(m.Value()) > 1 && Gcd(AbsInt(b.Value()), AbsInt(m.Value())) == 1
    modifies r, r.d
    ensures r.Valid() && ModularPower(r.Value(), old(b.Value()), old(e.Value()), AbsInt(old(m.Value())))
    ensures r.d == old(r.d) || fresh(r.d)
  {
    Signs(e);
    if e.size == 0 {
      r.SetUi(1);
      return;
    }
    var tr := PowmNonzero(b, e, m, b.Value(), e.Value(), AbsInt(m.Value()));
    r.Swap(tr);
  }
}
