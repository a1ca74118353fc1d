/** Division by powers of two with shifts and masks, under the same rounding modes. */
module MpzDiv2exp {
  import opened Arith
  import opened Powers
  import opened Limbs
  import opened LimbSeqs
  import opened Bits
  import opened Mpn
  import opened Mpzs
  import opened MpzDiv

  // --- quotient ---

  // The limbs above the first L, shifted down by s bits, and what was shifted out.
  lemma QuotientBits(s: seq<Limb>, limbs: nat, bit: nat)
    requires limbs < |s| && bit < LIMB_BITS
    ensures var k := LIMB_BITS * limbs + bit;
            0 < Pow2(bit) && 0 < Pow2(k) && Val(s) / Pow2(k) == Val(s[limbs..]) / Pow2(bit)
            && (Val(s) % Pow2(k) == 0 <==> Val(s[..limbs]) == 0 && s[limbs] % Pow2(bit) == 0)
  {
    var p := Place(limbs);
    PlaceStep(limbs);
    PlaceIsPow2(limbs);
    PowPositive(2, bit);
    PowAdd(2, LIMB_BITS * limbs, bit);
    ValSplit(s, limbs);
    ValBound(s[..limbs]);
    DivModUnique(Val(s), p, Val(s[limbs..]), Val(s[..limbs]));
    DivByProduct(Val(s), p, Pow2(bit));
    LowLimbBits(s[limbs..], bit);
    var m := Val(s[limbs..]) % Pow2(bit);
    if m == 0 {
    } else {
      MulMono(1, m, p);
    }
  }

  lemma LowDigit(x: int, v: int, m: int, p: int)
    requires 0 < p
    ensures (x + m * p * v) % p == x % p
  {
    DivMod(x, p);
    assert m * p * v == m * v * p;
    Distribute(p, x / p, m * v);
    DivModUnique(x + m * p * v, p, x / p + m * v, x % p);
  }

  lemma LowLimbBits(s: seq<Limb>, bit: nat)
    requires s != [] && bit <= LIMB_BITS
    ensures 0 < Pow2(bit) && Val(s) % Pow2(bit) == s[0] % Pow2(bit)
  {
    PowPositive(2, bit);
    ValCons(s);
    Pow2Values();
    PowAdd(2, LIMB_BITS - bit, bit);
    LowDigit(s[0], Val(s[1..]), Pow2(LIMB_BITS - bit), Pow2(bit));
  }

  lemma ShiftedOut(v: int, m: int, p: int, q: int, ret: int)
    requires 0 < m && 0 < p && v * m == ret + m * p * q && 0 <= ret < m * p
    ensures q == v / p
  {
    var r := v - q * p;
    assert r * m == ret by {
      Distribute(m, v, q * p);
      Assoc(q, p, m);
      Assoc(m, p, q);
    }
    if r < 0 {
      MulMono(r, -1, m);
    }
    if r >= p {
      MulMono(p, r, m);
    }
    DivModUnique(v, p, q, r);
  }

  lemma RshiftIsDivision(v: int, bit: nat, ret: Limb, q: int)
    requires 0 < bit < LIMB_BITS && v * Pow2(LIMB_BITS - bit) == ret + B * q
    ensures 0 < Pow2(bit) && q == v / Pow2(bit)
  {
    PowPositive(2, bit);
    PowPositive(2, LIMB_BITS - bit);
    Pow2Values();
    PowAdd(2, LIMB_BITS - bit, bit);
    ShiftedOut(v, Pow2(LIMB_BITS - bit), Pow2(bit), q, ret);
  }

  /** The limbs of up shifted down by limbs and bit; returns their number without a leading zero. */
  method ShiftDown(qp: array<Limb>, up: array<Limb>, un: nat, limbs: nat, bit: nat, ghost u: int) returns (qn: nat)
    requires limbs < un <= up.Length && un - limbs <= qp.Length && bit < LIMB_BITS
    requires Normalised(up[..un]) && u == Val(up[..un])
    modifies qp
    ensures qn <= un - limbs && Normalised(qp[..qn])
    ensures 0 < Pow2(LIMB_BITS * limbs + bit) && Val(qp[..qn]) == u / Pow2(LIMB_BITS * limbs + bit)
  {
    ghost var U := up[..un];
    QuotientBits(U, limbs, bit);
    qn := un - limbs;
    assert up[limbs..limbs + qn] == U[limbs..];
    if bit != 0 {
      var ret := Rshift(qp, up, limbs, qn, bit);
      ghost var R := qp[..qn];
      RshiftIsDivision(Val(U[limbs..]), bit, ret, Val(R));
      TopAfterShift(U[limbs..], R, bit, ret);
      if qp[qn - 1] == 0 {
        assert R[..qn - 1] == qp[..qn - 1];
        qn := qn - 1;
      }
    } else {
      Copyi(qp, 0, up, limbs, qn);
      assert qp[0..0 + qn] == qp[..qn];
      PowStep(2, 0);
    }
  }

  lemma HalvedAtMostLimb(v: int, m: int, ret: Limb, r: int, p: int)
    requires 2 <= m && B * p <= v && v * m == ret + B * r && 0 <= p
    ensures p <= r
  {
    MulMono(2, m, v);
  }

  // Shifting down by less than a limb empties at most the top limb.
  lemma TopAfterShift(S: seq<Limb>, R: seq<Limb>, bit: nat, ret: Limb)
    requires |S| == |R| && S != [] && Normalised(S) && 0 < bit < LIMB_BITS
    requires Val(S) * Pow2(LIMB_BITS - bit) == ret + B * Val(R)
    ensures R[|R| - 1] == 0 ==> Normalised(R[..|R| - 1]) && Val(R[..|R| - 1]) == Val(R)
  {
    if |R| >= 2 {
      NormalisedBound(S);
      PowMono(2, 1, LIMB_BITS - bit);
      PowStep(2, 0);
      PlaceStep(|R| - 2);
      HalvedAtMostLimb(Val(S), Pow2(LIMB_BITS - bit), ret, Val(R), Place(|R| - 2));
      TopLimbOfLarge(R, Val(R));
    } else {
      TopOne(R);
      assert R[..0] == [];
      ValEmpty();
    }
  }

  /** Whether u is not a multiple of 2^(64 * limbs + bit). */
  method LowBitsSet(up: array<Limb>, un: nat, limbs: nat, bit: nat, ghost u: int) returns (b: bool)
    requires 1 <= un <= up.Length && bit < LIMB_BITS && Normalised(up[..un]) && u == Val(up[..un])
    ensures 0 < Pow2(LIMB_BITS * limbs + bit) && b == (u % Pow2(LIMB_BITS * limbs + bit) != 0)
  {
    PowPositive(2, LIMB_BITS * limbs + bit);
    PowPositive(2, bit);
    if limbs >= un {
      b := true;
      NormalisedBound(up[..un]);
      PlaceStep(un - 1);
      SmallRemainder(up[..un], LIMB_BITS * limbs + bit);
    } else {
      QuotientBits(up[..un], limbs, bit);
      var z := ZeroP(up, limbs);
      assert up[..un][..limbs] == up[..limbs];
      b := !z || LowBits(up[limbs], bit) != 0;
    }
  }

  lemma SmallRemainder(s: seq<Limb>, k: nat)
    requires LIMB_BITS * |s| <= k
    ensures 0 <= Val(s) < Pow2(k) && Val(s) % Pow2(k) == Val(s) && Val(s) / Pow2(k) == 0
  {
    ValBound(s);
    PlaceIsPow2(|s|);
    PowMono(2, LIMB_BITS * |s|, k);
    DivModUnique(Val(s), Pow2(k), 0, Val(s));
  }

  /** Whether the mode moves the truncated quotient of x by p one away from zero; m is the magnitude of x. */
  ghost function RoundsAway(x: int, m: int, p: int, mode: RoundMode): bool
    requires p != 0
  {
    mode == (if x < 0 then Floor else Ceil) && m % p != 0
  }

  /** Truncated quotient and remainder of the magnitude, corrected by one where the mode rounds away from zero;
      the sign of x goes on both. */
  ghost function RoundedQuotient(x: int, m: int, p: int, mode: RoundMode): int
    requires p != 0
  {
    var q := if RoundsAway(x, m, p, mode) then m / p + 1 else m / p;
    if x < 0 then -q else q
  }

  ghost function RoundedRemainder(x: int, m: int, p: int, mode: RoundMode): int
    requires p != 0
  {
    var r := if RoundsAway(x, m, p, mode) then m % p - p else m % p;
    if x < 0 then -r else r
  }

  lemma RoundedDivision(x: int, m: int, p: int, mode: RoundMode)
    requires m == AbsInt(x) && 0 < p
    ensures IsDivision(x, p, mode, RoundedQuotient(x, m, p, mode), RoundedRemainder(x, m, p, mode))
  {
    DivMod(m, p);
    var q, r := m / p, m % p;
    SignedDivision(x, p, m, p, q, r);
    RoundAway(x, p, mode, if x < 0 then -q else q, if x < 0 then -r else r);
    if m == 0 {
      DivModUnique(0, p, 0, 0);
    }
  }

  /** |u| shifted down by k bits. */
  method ShiftedMagnitude(q: Mpz, u: Mpz, k: nat, ghost m: int)
    requires q.Valid() && u.Valid() && q.Apart(u) && m == u.Magnitude() && u.size != 0
    modifies q, q.d
    ensures 0 < Pow2(k) && q.Valid() && q.Value() == m / Pow2(k) && (q.d == old(q.d) || fresh(q.d))
  {
    var un := AbsInt(u.size);
    var limbs, bit := k / LIMB_BITS, k % LIMB_BITS;
    PowPositive(2, k);
    if limbs < un {
      ghost var U := u.d[..un];
      q.Realloc(un - limbs);
      assert u.d[..un] == U;
      var qn := ShiftDown(q.d, u.d, un, limbs, bit, m);
      q.size := qn;
    } else {
      SmallRemainder(u.d[..un], k);
      ValEmpty();
      q.size := 0;
    }
  }

  /** mpz_div_q_2exp: the quotient of u by 2^k under the rounding mode. */
  method DivQ2exp(q: Mpz, u: Mpz, k: nat, mode: RoundMode, ghost x: int) returns (ghost qv: int, ghost rv: int)
    requires q.Valid() && u.Valid() && q.Apart(u) && x == u.Value()
    modifies q, q.d
    ensures IsDivision(x, Pow2(k), mode, qv, rv)
    ensures q.Valid() && q.Value() == qv && (q.d == old(q.d) || fresh(q.d))
  {
    ghost var m, p := u.Magnitude(), Pow2(k);
    Signs(u);
    PowPositive(2, k);
    RoundedDivision(x, m, p, mode);
    qv, rv := RoundedQuotient(x, m, p, mode), RoundedRemainder(x, m, p, mode);
    var neg := u.size < 0;
    if u.size == 0 {
      DivModUnique(0, p, 0, 0);
      ValEmpty();
      q.size := 0;
      return;
    }
    var adjust := false;
    if mode == (if neg then Floor else Ceil) {
      adjust := LowBitsSet(u.d, AbsInt(u.size), k / LIMB_BITS, k % LIMB_BITS, m);
    }
    ShiftedMagnitude(q, u, k, m);
    if adjust {
      q.AddUi(q, 1);
    }
    if neg {
      q.Neg(q);
    }
  }

  // --- remainder ---

  // Masking the top limb of rn limbs to t bits reduces modulo 2^(64 * (rn - 1) + t).
  lemma MaskTop(s: seq<Limb>, x: Limb, t: nat)
    requires t <= LIMB_BITS
    ensures var k := LIMB_BITS * |s| + t;
            0 < Pow2(t) && 0 < Pow2(k) && x % Pow2(t) < B
            && Val(s + [x % Pow2(t)]) == Val(s + [x]) % Pow2(k)
  {
    var k, p, m := LIMB_BITS * |s| + t, Place(|s|), Pow2(t);
    PowPositive(2, t);
    PowPositive(2, k);
    PlaceStep(|s|);
    PlaceIsPow2(|s|);
    PowAdd(2, LIMB_BITS * |s|, t);
    DivMod(x, m);
    ModSmall(x, m);
    ValSnoc(s, x);
    ValSnoc(s, x % m);
    ValBound(s);
    DivModUnique(Val(s) + x * p, p, x, Val(s));
    DivByProduct(Val(s) + x * p, p, m);
  }

  lemma PrefixRemainder(s: seq<Limb>, rn: nat, k: nat)
    requires rn <= |s| && k <= LIMB_BITS * rn
    ensures 0 < Pow2(k) && Val(s) % Pow2(k) == Val(s[..rn]) % Pow2(k)
  {
    PowPositive(2, k);
    ValSplit(s, rn);
    PlaceIsPow2(rn);
    PowAdd(2, LIMB_BITS * rn - k, k);
    LowDigit(Val(s[..rn]), Val(s[rn..]), Pow2(LIMB_BITS * rn - k), Pow2(k));
  }

  /** u modulo 2^k in rn limbs: copy, then mask the top limb. */
  method LowPart(rp: array<Limb>, up: array<Limb>, un: nat, rn: nat, k: nat, ghost u: int)
    requires 1 <= rn <= un <= up.Length && rn <= rp.Length && LIMB_BITS * (rn - 1) < k <= LIMB_BITS * rn
    requires u == Val(up[..un])
    modifies rp
    ensures 0 < Pow2(k) && Val(rp[..rn]) == u % Pow2(k)
    ensures OnlyChanged(rp, 0, rn)
  {
    ghost var U := up[..un];
    var t := k - LIMB_BITS * (rn - 1);
    PowPositive(2, t);
    var top: Limb := up[rn - 1];
    MaskTop(U[..rn - 1], top, t);
    assert U[..rn] == U[..rn - 1] + [top];
    PrefixRemainder(U, rn, k);
    if rp != up {
      Copyi(rp, 0, up, 0, rn - 1);
      assert rp[0..0 + (rn - 1)] == up[0..0 + (rn - 1)];
    }
    assert rp[..rn - 1] == U[..rn - 1];
    rp[rn - 1] := LowBits(top, t);
    assert rp[..rn] == U[..rn - 1] + [top % Pow2(t)];
  }

  lemma NegatedRemainder(low: int, p: int, m: int)
    requires 0 <= low < p && 0 < m
    ensures (m * p - low) % p == if low == 0 then 0 else p - low
  {
    if low == 0 {
      DivModUnique(m * p - low, p, m, 0);
    } else {
      Distribute(p, m, 1);
      DivModUnique(m * p - low, p, m - 1, p - low);
    }
  }

  /** Turns a low part r into 2^k - r, except that zero stays. */
  method NegateLow(rp: array<Limb>, rn: nat, k: nat, ghost low: int)
    requires 1 <= rn <= rp.Length && LIMB_BITS * (rn - 1) < k <= LIMB_BITS * rn
    requires low == Val(rp[..rn]) && low < Pow2(k)
    modifies rp
    ensures Val(rp[..rn]) == if low == 0 then 0 else Pow2(k) - low
  {
    var t := k - LIMB_BITS * (rn - 1);
    ValBound(rp[..rn]);
    PowPositive(2, t);
    PowPositive(2, k);
    PlaceIsPow2(rn);
    PowAdd(2, LIMB_BITS * rn - k, k);
    PowPositive(2, LIMB_BITS * rn - k);
    NegatedRemainder(low, Pow2(k), Pow2(LIMB_BITS * rn - k));
    DivModUnique(0, Pow2(k), 0, 0);
    var c := Mpn.Neg(rp, rp, rn);
    ghost var R := rp[..rn - 1];
    var top: Limb := rp[rn - 1];
    assert rp[..rn] == R + [top];
    MaskTop(R, top, t);
    rp[rn - 1] := LowBits(top, t);
    assert rp[..rn] == R + [top % Pow2(t)];
  }

  lemma {:induction false} AllOnes(s: seq<Limb>)
    requires forall k :: 0 <= k < |s| ==> s[k] == B - 1
    ensures Val(s) == Place(|s|) - 1
  {
    if s == [] {
      ValEmpty();
      PlaceStep(0);
    } else {
      ValCons(s);
      AllOnes(s[1..]);
      PlaceStep(|s| - 1);
    }
  }

  // Negated limbs, ones above them, and t ones in the top limb: the two's complement in k bits.
  lemma SignExtended(neg: seq<Limb>, ones: seq<Limb>, t: nat, top: Limb, u: int)
    requires (forall k :: 0 <= k < |ones| ==> ones[k] == B - 1) && Val(neg) == Place(|neg|) - u && top == Pow2(t) - 1
    ensures Val(neg + ones + [top]) == Pow2(LIMB_BITS * (|neg| + |ones|) + t) - u
  {
    var n, m := |neg|, |ones|;
    AllOnes(ones);
    ValConcat(neg, ones);
    ValSnoc(neg + ones, top);
    PowAdd(B, n, m);
    PlaceIsPow2(n + m);
    PowAdd(2, LIMB_BITS * (n + m), t);
    SignAlgebra(Place(n), Place(m), Pow2(t), Val(neg), Val(ones), u);
  }

  lemma SignAlgebra(pn: int, pm: int, pt: int, vn: int, vo: int, u: int)
    requires vn == pn - u && vo == pm - 1
    ensures vn + pn * vo + (pt - 1) * (pn * pm) == pn * pm * pt - u
  {
    Distribute(pn, pm, 1);
    Distribute(pn * pm, pt, 1);
  }

  /** 2^k - u for a number u of fewer limbs: negate and sign extend. */
  method NegateExtend(rp: array<Limb>, up: array<Limb>, un: nat, rn: nat, k: nat, ghost u: int)
    requires 1 <= un <= up.Length && un < rn <= rp.Length && LIMB_BITS * (rn - 1) < k <= LIMB_BITS * rn
    requires u == Val(up[..un]) && u != 0
    modifies rp
    ensures Val(rp[..rn]) == Pow2(k) - u
  {
    var t := k - LIMB_BITS * (rn - 1);
    var c := Mpn.Neg(rp, up, un);
    ghost var N := rp[..un];
    for i := un to rn - 1
      invariant rp[..un] == N
      invariant forall j :: un <= j < i ==> rp[j] == B - 1
    {
      rp[i] := B - 1;
    }
    PowPositive(2, t);
    Pow2Values();
    PowMono(2, t, LIMB_BITS);
    rp[rn - 1] := Pow2(t) - 1;
    SignExtended(N, rp[un..rn - 1], t, rp[rn - 1], u);
    assert rp[..rn] == N + rp[un..rn - 1] + [rp[rn - 1]];
  }

  /** The magnitude of the remainder: u modulo 2^k, or its distance from 2^k if the mode rounds away. */
  method RemainderLimbs(rp: array<Limb>, up: array<Limb>, un: nat, k: nat, away: bool, ghost u: int) returns (rn: nat)
    requires 1 <= un <= up.Length && 1 <= k && (k + LIMB_BITS - 1) / LIMB_BITS <= rp.Length
    requires Normalised(up[..un]) && u == Val(up[..un])
    modifies rp
    ensures rn <= (k + LIMB_BITS - 1) / LIMB_BITS && Normalised(rp[..rn])
    ensures 0 < Pow2(k) && Val(rp[..rn]) == if away && u % Pow2(k) != 0 then Pow2(k) - u % Pow2(k) else u % Pow2(k)
  {
    rn := (k + LIMB_BITS - 1) / LIMB_BITS;
    PowPositive(2, k);
    ghost var U := up[..un];
    if rn > un {
      NormalisedBound(U);
      PlaceStep(un - 1);
      SmallRemainder(U, k);
      if away {
        NegateExtend(rp, up, un, rn, k, u);
      } else {
        if rp != up {
          Copyi(rp, 0, up, 0, un);
          assert rp[0..0 + un] == U[..un];
        }
        rn := un;
        assert rp[..rn] == U;
      }
    } else {
      LowPart(rp, up, un, rn, k, u);
      if away {
        DivMod(u, Pow2(k));
        NegateLow(rp, rn, k, u % Pow2(k));
      }
    }
    rn := NormalizedSize(rp, rn);
  }

  /** The low k bits of |u|, taken from 2^k where the mode rounds away from zero, with the sign of the remainder. */
  method LowBitsOf(r: Mpz, u: Mpz, k: nat, neg: bool, away: bool, ghost m: int)
    requires r.Valid() && u.Valid() && r.Apart(u) && u.size != 0 && 1 <= k && m == u.Magnitude()
    modifies r, r.d
    ensures r.Valid() && (r.d == old(r.d) || fresh(r.d)) && 0 < Pow2(k)
    ensures var low := m % Pow2(k);
            var v := if away && low != 0 then Pow2(k) - low else low;
            r.Value() == if neg != away then -v else v
  {
    var un := AbsInt(u.size);
    ghost var U := u.d[..un];
    ValEmpty();
    r.Realloc((k + LIMB_BITS - 1) / LIMB_BITS);
    assert u.d[..un] == U;
    var rn: int := RemainderLimbs(r.d, u.d, un, k, away, m);
    r.size := if neg != away then -rn else rn;
  }

  /** mpz_div_r_2exp: the remainder of u by 2^k under the rounding mode. */
  method DivR2exp(r: Mpz, u: Mpz, k: nat, mode: RoundMode, ghost x: int) returns (ghost qv: int, ghost rv: int)
    requires r.Valid() && u.Valid() && r.Apart(u) && x == u.Value()
    modifies r, r.d
    ensures IsDivision(x, Pow2(k), mode, qv, rv)
    ensures r.Valid() && r.Value() == rv && (r.d == old(r.d) || fresh(r.d))
  {
    ghost var m, p := u.Magnitude(), Pow2(k);
    Signs(u);
    PowPositive(2, k);
    PowStep(2, 0);
    RoundedDivision(x, m, p, mode);
    qv, rv := RoundedQuotient(x, m, p, mode), RoundedRemainder(x, m, p, mode);
    ValEmpty();
    DivModUnique(0, p, 0, 0);
    if u.size == 0 || k == 0 {
      r.size := 0;
      return;
    }
    var neg := u.size < 0;
    LowBitsOf(r, u, k, neg, mode == (if neg then Floor else Ceil), m);
  }
}
