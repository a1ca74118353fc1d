/** Division of limb buffers by any divisor: normalise, divide, shift the remainder back. */
module MpnDivQr {
  import opened Arith
  import opened Powers
  import opened Reciprocal
  import opened Limbs
  import opened LimbSeqs
  import opened Bits
  import opened Invert
  import opened Mpn
  import opened MpnDiv

  // --- reciprocals with normalisation ---

  /** Normalisation shift, normalised top limbs of the divisor, and their reciprocal. */
  datatype DivInverse = DivInverse(shift: nat, d1: Limb, d0: Limb, di: Limb)

  /** inv is the reciprocal of the divisor D: 2/1 for one limb, else 3/2 for its top two limbs. */
  ghost predicate InverseOf(inv: DivInverse, D: seq<Limb>) {
    && D != [] && inv.shift < LIMB_BITS && HIGHBIT <= inv.d1
    && if |D| == 1 then
         inv.d1 == Val(D) * Pow2(inv.shift) && Inverse2by1(B, inv.d1, inv.di)
       else
         && Inverse3by2(B, inv.d1 * B + inv.d0, inv.di)
         && 0 <= Val(D) * Pow2(inv.shift) - (inv.d1 * B + inv.d0) * Place(|D| - 2) < Place(|D| - 2)
  }

  method DivQr1Invert(d: Limb) returns (inv: DivInverse)
    requires 0 < d
    ensures InverseOf(inv, [d])
  {
    var shift := Clz(d);
    var d1: Limb := d * Pow2(shift);
    var di := Invert3by2(d1, 0);
    inv := DivInverse(shift, d1, 0, di);
    ValCons([d]);
    ValEmpty();
    assert [d][1..] == [];
  }

  lemma PairShifted(d1: int, d0: int, s: int, l1: int, h1: int, l0: int, h0: int, hb: int)
    requires d1 * s == l1 + h1 * B && d0 * s == l0 + h0 * B && 0 <= l1 && 0 <= h1 && d1 * s < B
    ensures (l1 + h0) * B + (l0 + hb) == (d1 * B + d0) * s + hb
  {
    assert h1 == 0;
    assert (d1 * B + d0) * s == d1 * s * B + d0 * s;
  }

  // <d1, d0> shifted up within two limbs, taking in bits from the limb below.
  method ShiftPair(d1: Limb, d0: Limb, below: Limb, shift: nat) returns (e1: Limb, e0: Limb)
    requires shift < LIMB_BITS && d1 * Pow2(shift) < B
    ensures e1 * B + e0 == (d1 * B + d0) * Pow2(shift) + Shr(below, LIMB_BITS - shift)
  {
    e1, e0 := d1, d0;
    if shift > 0 {
      ShlSplit(d1, shift);
      ShlSplit(d0, shift);
      ShlSplit(below, shift);
      e1 := OrDisjoint(Shl(d1, shift), Shr(d0, LIMB_BITS - shift), shift);
      e0 := OrDisjoint(Shl(d0, shift), Shr(below, LIMB_BITS - shift), shift);
      PairShifted(d1, d0, Pow2(shift), Shl(d1, shift), Shr(d1, LIMB_BITS - shift), Shl(d0, shift),
                  Shr(d0, LIMB_BITS - shift), Shr(below, LIMB_BITS - shift));
    } else {
      PowStep(2, 0);
      Pow2Values();
      DivModUnique(below, B, 0, below);
    }
  }

  lemma PairOf(D: seq<Limb>)
    requires |D| == 2
    ensures var d1: int, d0: int := D[1], D[0]; Val(D) == d1 * B + d0
  {
    TopOne(D);
    assert D[..1] == [D[0]] && [D[0]][1..] == [];
    ValCons(D[..1]);
    ValEmpty();
    PlaceStep(0);
  }

  lemma ShiftedTopAlgebra(d2: int, below: int, l: int, p: int, s: int, lo: int, hi: int)
    requires below * s == lo + hi * B
    ensures (d2 * (B * p) + below * p + l) * s == (d2 * s + hi) * (B * p) + (lo * p + l * s)
  {
    assert below * p * s == below * s * p;
    assert (lo + hi * B) * p == lo * p + hi * (B * p);
  }

  lemma ShiftedLowBound(lo: int, l: int, p: int, s: int)
    requires 0 <= lo < B && 0 < s && lo % s == 0 && lo + s <= B && 0 <= l < p
    ensures 0 <= lo * p + l * s < B * p
  {
    MulNonneg(lo, p);
    MulNonneg(l, s);
    MulStrict(l, p, s);
    MulMono(lo + s, B, p);
  }

  // The two top limbs of D shifted up, with the bits that come in from the third.
  lemma ShiftedTop(D: seq<Limb>, s: nat, e2: int)
    requires |D| > 2 && s < LIMB_BITS
    requires var n := |D|; var d1: int, d0: int := D[n - 1], D[n - 2];
             e2 == (d1 * B + d0) * Pow2(s) + Shr(D[n - 3], LIMB_BITS - s)
    ensures 0 <= Val(D) * Pow2(s) - e2 * Place(|D| - 2) < Place(|D| - 2)
  {
    var n := |D|;
    TopTwo(D);
    TopOne(D[..n - 2]);
    assert D[..n - 2][..n - 3] == D[..n - 3];
    ValBound(D[..n - 3]);
    PlaceStep(n - 3);
    var d1: int, d0: int, below: Limb := D[n - 1], D[n - 2], D[n - 3];
    ShlSplit(below, s);
    ShiftFits(Shl(below, s), Pow2(s) - 1, s);
    ShiftedTopAlgebra(d1 * B + d0, below, Val(D[..n - 3]), Place(n - 3), Pow2(s), Shl(below, s),
                      Shr(below, LIMB_BITS - s));
    ShiftedLowBound(Shl(below, s), Val(D[..n - 3]), Place(n - 3), Pow2(s));
  }

  method DivQr2Invert(d1: Limb, d0: Limb) returns (inv: DivInverse)
    requires 0 < d1
    ensures InverseOf(inv, [d0, d1])
  {
    var shift := Clz(d1);
    var e1: Limb, e0: Limb := ShiftPair(d1, d0, 0, shift);
    DivModUnique(0, B, 0, 0);
    PairOf([d0, d1]);
    PlaceStep(0);
    ShiftedZero(LIMB_BITS - shift);
    NormalPair(d1, d0, e1, e0, Pow2(shift));
    var di := Invert3by2(e1, e0);
    inv := DivInverse(shift, e1, e0, di);
  }

  lemma ShiftedZero(k: nat)
    ensures Shr(0, k) == 0
  {
    PowPositive(2, k);
    DivModUnique(0, Pow2(k), 0, 0);
  }

  // Shifting makes the top bit of the pair the top bit of its upper limb.
  lemma NormalPair(d1: int, d0: int, e1: int, e0: int, s: int)
    requires 0 <= d0 && 0 <= e0 < B && 0 < s && HIGHBIT <= d1 * s
    requires e1 * B + e0 >= (d1 * B + d0) * s
    ensures HIGHBIT <= e1
  {
    MulNonneg(d0, s);
    assert (d1 * B + d0) * s == d1 * s * B + d0 * s;
  }

  method DivQrInvert(dp: array<Limb>, dn: nat) returns (inv: DivInverse)
    requires 1 <= dn <= dp.Length && dp[dn - 1] > 0
    ensures InverseOf(inv, dp[..dn])
  {
    if dn == 1 {
      inv := DivQr1Invert(dp[0]);
      assert dp[..dn] == [dp[0]];
    } else if dn == 2 {
      inv := DivQr2Invert(dp[1], dp[0]);
      assert dp[..dn] == [dp[0], dp[1]];
    } else {
      var d1: Limb, d0: Limb := dp[dn - 1], dp[dn - 2];
      var shift := Clz(d1);
      var e1: Limb, e0: Limb := ShiftPair(d1, d0, dp[dn - 3], shift);
      ShiftedTop(dp[..dn], shift, e1 * B + e0);
      PowPositive(2, shift);
      NormalPair(d1, d0, e1, e0, Pow2(shift));
      var di := Invert3by2(e1, e0);
      inv := DivInverse(shift, e1, e0, di);
    }
  }

  // --- one-limb divisors ---

  // The remainder of the shifted division is the shifted remainder.
  lemma Unshift(n: int, q: int, d: int, s: int, r: int)
    requires 0 < s && n * s == q * (d * s) + r && 0 <= r < d * s
    ensures r % s == 0 && r / s == n - q * d && 0 <= r / s < d
    ensures n == q * d + r / s
  {
    Assoc(q, d, s);
    Distribute(s, n, q * d);
    DivModUnique(r, s, n - q * d, 0);
    MulCancel(n - q * d, d, s);
    if n - q * d < 0 {
      MulMono(n - q * d, -1, s);
    }
  }

  // What is shifted out at the top is below any normalised divisor.
  lemma ShiftedOutSmall(n: seq<Limb>, s: nat, ret: Limb, low: int)
    requires s < LIMB_BITS && n != [] && 0 <= low
    requires low + ret * Place(|n|) == Val(n) * Pow2(s)
    ensures ret < Pow2(s) <= HIGHBIT
  {
    ValBound(n);
    PowPositive(2, s);
    MulStrict(Val(n), Place(|n|), Pow2(s));
    MulCancel(ret, Pow2(s), Place(|n|));
    Pow2Values();
    PowMono(2, s, 63);
  }

  lemma DividedFrom(r: int, S: seq<Limb>, d: int)
    ensures Divided(Val(S) + r * Place(|S|), [], d, r, S)
  {
    ValEmpty();
  }

  lemma DividedTo(n: int, Q: seq<Limb>, d: int, r: int)
    requires Divided(n, Q, d, r, [])
    ensures n == Val(Q) * d + r
  {
    PlaceStep(0);
    ValEmpty();
  }

  /** Copies np shifted up, reusing the quotient area if there is one. */
  method ShiftedCopy(qp: array?<Limb>, np: array<Limb>, nn: nat, shift: nat) returns (tp: array<Limb>, r: Limb)
    requires 1 <= nn <= np.Length && (qp != null ==> nn <= qp.Length) && shift < LIMB_BITS
    modifies qp
    ensures nn <= tp.Length
    ensures Val(tp[..nn]) + r * Place(nn) == old(Val(np[..nn])) * Pow2(shift) && r < HIGHBIT
    ensures qp != null ==> OnlyChanged(qp, 0, nn)
  {
    ghost var N := np[..nn];
    if shift > 0 {
      if qp != null {
        tp := qp;
      } else {
        tp := new Limb[nn];
      }
      r := Lshift(tp, 0, np, nn, shift);
      assert tp[0..0 + nn] == tp[..nn];
      ValBound(tp[..nn]);
      ShiftedOutSmall(N, shift, r, Val(tp[..nn]));
    } else {
      tp, r := np, 0;
      PowStep(2, 0);
    }
  }

  /** Divides by one limb; the quotient may overwrite the dividend. */
  method DivQr1Preinv(qp: array?<Limb>, np: array<Limb>, nn: nat, inv: DivInverse, ghost d: int)
    returns (r: Limb, ghost Q: seq<Limb>)
    requires 1 <= nn <= np.Length && (qp != null ==> nn <= qp.Length)
    requires inv.shift < LIMB_BITS && HIGHBIT <= inv.d1 == d * Pow2(inv.shift) && Inverse2by1(B, inv.d1, inv.di)
    modifies qp
    ensures |Q| == nn && Stored(qp, 0, Q)
    ensures old(Val(np[..nn])) == Val(Q) * d + r && r < d
    ensures qp != null ==> OnlyChanged(qp, 0, nn)
  {
    ghost var v := Val(np[..nn]);
    var tp;
    tp, r := ShiftedCopy(qp, np, nn, inv.shift);
    ghost var S, n := tp[..nn], Val(tp[..nn]) + r * Place(nn);
    Q := [];
    DividedFrom(r, S, inv.d1);
    assert S[..nn] == S;
    for i := nn downto 0
      invariant |Q| == nn - i && Stored(qp, i, Q)
      invariant qp != null ==> OnlyChanged(qp, 0, nn)
      invariant forall k :: 0 <= k < i ==> tp[k] == S[k]
      invariant r < inv.d1 && Divided(n, Q, inv.d1, r, S[..i])
    {
      var q: Limb;
      ghost var r0 := r;
      q, r := UdivQrnndPreinv(r, tp[i], inv.d1, inv.di);
      assert S[..i + 1] == S[..i] + [S[i]];
      LoopStep(n, Q, inv.d1, r0, S[..i], S[i], q, r);
      StoreLimb(qp, i, q, Q);
      Q := [q] + Q;
    }
    assert S[..0] == [];
    DividedTo(n, Q, inv.d1, r);
    PowPositive(2, inv.shift);
    Unshift(v, Val(Q), d, Pow2(inv.shift), r);
    r := Shr(r, inv.shift);
  }

  // --- two-limb divisors ---

  lemma PairStart(r1: int, S: seq<Limb>, d: int)
    requires S != []
    ensures var r0: int := S[|S| - 1];
            Divided(Val(S) + r1 * Place(|S|), [], d, r1 * B + r0, S[..|S| - 1])
  {
    ValEmpty();
    TopOne(S);
    PlaceStep(|S| - 1);
    var r0: int, p := S[|S| - 1], Place(|S| - 1);
    assert r0 * p + r1 * (B * p) == (r1 * B + r0) * p;
  }

  // A two-limb remainder shifted down.
  method UnshiftPair(r1: Limb, r0: Limb, shift: nat) returns (e1: Limb, e0: Limb)
    requires shift < LIMB_BITS
    ensures 0 < Pow2(shift) && e1 * B + e0 == (r1 * B + r0) / Pow2(shift)
  {
    e1, e0 := r1, r0;
    PowPositive(2, shift);
    PowStep(2, 0);
    if shift > 0 {
      var k := LIMB_BITS - shift;
      ShlSplit(r1, k);
      ShlSplit(r0, k);
      UnshiftAlgebra(r1, r0, shift);
      e0 := OrDisjoint(Shl(r1, k), Shr(r0, shift), k);
      e1 := Shr(r1, shift);
    }
  }

  lemma UnshiftAlgebra(r1: Limb, r0: Limb, s: nat)
    requires 0 < s < LIMB_BITS
    ensures 0 < Pow2(s)
    ensures (r1 * B + r0) / Pow2(s) == Shr(r1, s) * B + (Shl(r1, LIMB_BITS - s) + Shr(r0, s))
  {
    var k, p := LIMB_BITS - s, Pow2(s);
    PowPositive(2, s);
    PowAdd(2, k, s);
    Pow2Values();
    ShlSplit(r1, k);
    DivMod(r0, p);
    var h, l := Shr(r1, s) * B, Shl(r1, k);
    Assoc(r1, Pow2(k), p);
    assert (h + l + r0 / p) * p == (h + l) * p + r0 / p * p;
    DivModUnique(r1 * B + r0, p, h + l + r0 / p, r0 % p);
  }

  /** Divides by two limbs, leaving the remainder in the two low limbs of np. */
  method DivQr2Preinv(qp: array?<Limb>, np: array<Limb>, nn: nat, inv: DivInverse, ghost d: int)
    returns (ghost Q: seq<Limb>)
    requires 2 <= nn <= np.Length && (qp != null ==> nn - 1 <= qp.Length && qp != np)
    requires inv.shift < LIMB_BITS && HIGHBIT <= inv.d1 && inv.d1 * B + inv.d0 == d * Pow2(inv.shift)
    requires Inverse3by2(B, inv.d1 * B + inv.d0, inv.di)
    modifies np, qp
    ensures |Q| == nn - 1 && Stored(qp, 0, Q)
    ensures old(Val(np[..nn])) == Val(Q) * d + Val(np[..2]) && Val(np[..2]) < d
    ensures OnlyChanged(np, 0, nn) && (qp != null ==> OnlyChanged(qp, 0, nn - 1))
  {
    ghost var v, d2 := Val(np[..nn]), inv.d1 * B + inv.d0;
    var r1: Limb := ShiftInPlace(np, nn, inv.shift);
    var r0: Limb := np[nn - 1];
    ghost var S, n := np[..nn], Val(np[..nn]) + r1 * Place(nn);
    Q := [];
    PairStart(r1, S, d2);
    for i := nn - 1 downto 0
      invariant |Q| == nn - 1 - i && Stored(qp, i, Q)
      invariant qp != null ==> OnlyChanged(qp, 0, nn - 1)
      invariant OnlyChanged(np, 0, nn) && np[..nn] == S
      invariant r1 * B + r0 < d2 && Divided(n, Q, d2, r1 * B + r0, S[..i])
    {
      var q: Limb;
      ghost var x := r1 * B + r0;
      assert S[..i + 1] == S[..i] + [S[i]];
      q, r1, r0 := UdivQr3by2(r1, r0, np[i], inv.d1, inv.d0, inv.di);
      LoopStep(n, Q, d2, x, S[..i], S[i], q, r1 * B + r0);
      StoreLimb(qp, i, q, Q);
      Q := [q] + Q;
    }
    assert S[..0] == [];
    DividedTo(n, Q, d2, r1 * B + r0);
    PowPositive(2, inv.shift);
    Unshift(v, Val(Q), d, Pow2(inv.shift), r1 * B + r0);
    r1, r0 := UnshiftPair(r1, r0, inv.shift);
    np[1] := r1;
    np[0] := r0;
    PairOf(np[..2]);
  }

  method ShiftInPlace(np: array<Limb>, nn: nat, shift: nat) returns (r: Limb)
    requires 1 <= nn <= np.Length && shift < LIMB_BITS
    modifies np
    ensures Val(np[..nn]) + r * Place(nn) == old(Val(np[..nn])) * Pow2(shift)
    ensures r < Pow2(shift) <= HIGHBIT
    ensures OnlyChanged(np, 0, nn)
  {
    ghost var N := np[..nn];
    PowStep(2, 0);
    r := 0;
    if shift > 0 {
      r := Lshift(np, 0, np, nn, shift);
      assert np[0..0 + nn] == np[..nn];
    }
    ValBound(np[..nn]);
    ShiftedOutSmall(N, shift, r, Val(np[..nn]));
  }

  // --- any divisor ---

  /** What the division needs to know of its divisor d: dp itself counts only from three limbs on,
      and then it is already normalised. */
  ghost predicate Prepared(inv: DivInverse, dp: array<Limb>, dn: nat, d: int)
    reads dp
  {
    && 1 <= dn && inv.shift < LIMB_BITS && HIGHBIT <= inv.d1
    && (dn == 1 ==> inv.d1 == d * Pow2(inv.shift) && Inverse2by1(B, inv.d1, inv.di))
    && (dn == 2 ==> inv.d1 * B + inv.d0 == d * Pow2(inv.shift) && Inverse3by2(B, inv.d1 * B + inv.d0, inv.di))
    && (dn > 2 ==> NormalDivisor(dp, dn, inv.di, d * Pow2(inv.shift)) && inv.d1 == dp[dn - 1] && inv.d0 == dp[dn - 2])
  }

  lemma WindowScaled(nh: int, p: int, r: int, vs: int, low: int, v: int, s: int)
    requires low + p * vs + nh * (p * r) == v * s && v < p * r && 0 <= low && 0 < p && 0 < s
    ensures nh * r + vs < r * s
  {
    assert nh * (p * r) + p * vs == (nh * r + vs) * p;
    MulStrict(v, p * r, s);
    assert p * r * s == r * s * p;
    MulCancel(nh * r + vs, r * s, p);
  }

  // The window under the limb shifted out at the top starts below the divisor.
  lemma WindowSmall(N: seq<Limb>, s: int, nh: Limb, S: seq<Limb>, i: nat, D: seq<Limb>)
    requires 0 < s <= HIGHBIT && |N| == |S| && i < |S| && |D| == |S| - i + 1 && |D| >= 1
    requires Val(S) + nh * Place(|S|) == Val(N) * s && HIGHBIT <= D[|D| - 1]
    ensures Window(nh, S[i..]) < Val(D)
  {
    var r := Place(|S| - i);
    ValSplit(S, i);
    ValBound(S[..i]);
    ValBound(N);
    PowAdd(B, i, |S| - i);
    PlaceStep(i);
    WindowScaled(nh, Place(i), r, Val(S[i..]), Val(S[..i]), Val(N), s);
    PlaceStep(|S| - i);
    MulMono(s, D[|D| - 1], r);
    TopOne(D);
    ValBound(D[..|D| - 1]);
  }

  lemma UnshiftLimbs(r: int, s: nat, ret: Limb, v: int)
    requires 0 < s < LIMB_BITS && r * Pow2(s) * Pow2(LIMB_BITS - s) == ret + B * v
    ensures ret == 0 && v == r
  {
    Pow2Values();
    PowAdd(2, s, LIMB_BITS - s);
    Assoc(r, Pow2(s), Pow2(LIMB_BITS - s));
    DivModPairUnique(B, r, 0, v, ret);
  }

  /** Divides np by the prepared divisor d: quotient to qp unless null, remainder to the low limbs of np. */
  method DivQrPreinv(qp: array?<Limb>, np: array<Limb>, nn: nat, dp: array<Limb>, dn: nat, inv: DivInverse,
                     ghost d: int)
    returns (ghost Q: seq<Limb>)
    requires dn <= nn <= np.Length && Prepared(inv, dp, dn, d)
    requires np != dp && (qp != null ==> nn - dn + 1 <= qp.Length && qp != np && qp != dp)
    modifies np, qp
    ensures |Q| == nn - dn + 1 && Stored(qp, 0, Q)
    ensures old(Val(np[..nn])) == Val(Q) * d + Val(np[..dn]) && Val(np[..dn]) < d
    ensures OnlyChanged(np, 0, nn) && (qp != null ==> OnlyChanged(qp, 0, nn - dn + 1))
  {
    if dn == 1 {
      var r: Limb;
      r, Q := DivQr1Preinv(qp, np, nn, inv, d);
      np[0] := r;
      assert np[..1] == [r] && [r][1..] == [];
      ValCons([r]);
      ValEmpty();
    } else if dn == 2 {
      Q := DivQr2Preinv(qp, np, nn, inv, d);
    } else {
      ghost var N, s := np[..nn], Pow2(inv.shift);
      var nh := ShiftInPlace(np, nn, inv.shift);
      assert np[..nn][nn - dn + 1..] == np[nn - dn + 1..nn];
      PowPositive(2, inv.shift);
      WindowSmall(N, s, nh, np[..nn], nn - dn + 1, dp[..dn]);
      Q := DivQrPi1(qp, np, nn, nh, dp, dn, inv.di, d * s);
      ghost var r := Val(np[..dn]);
      ValBound(np[..dn]);
      Unshift(Val(N), Val(Q), d, s, r);
      PowStep(2, 0);
      if inv.shift > 0 {
        DivMod(r, s);
        assert np[0..0 + dn] == np[..dn];
        var ret := Rshift(np, np, 0, dn, inv.shift);
        UnshiftLimbs(r / s, inv.shift, ret, Val(np[..dn]));
      }
    }
  }

  // The limbs of the shifted divisor start with the two that the reciprocal was computed from.
  lemma TopLimbsMatch(inv: DivInverse, D: seq<Limb>, T: seq<Limb>)
    requires |D| == |T| > 2 && InverseOf(inv, D) && Val(T) == Val(D) * Pow2(inv.shift)
    ensures T[|D| - 1] == inv.d1 && T[|D| - 2] == inv.d0
  {
    TopTwo(T);
    var n, t1: int, t0: int := |D|, T[|D| - 1], T[|D| - 2];
    var e := inv.d1 * B + inv.d0;
    DivModPairUnique(Place(n - 2), t1 * B + t0, Val(T[..n - 2]), e, Val(T) - e * Place(n - 2));
    DivModPairUnique(B, t1, t0, inv.d1, inv.d0);
  }

  lemma ShiftedFits(inv: DivInverse, D: seq<Limb>, v: int, ret: Limb)
    requires |D| > 2 && InverseOf(inv, D) && 0 <= v && v + ret * Place(|D|) == Val(D) * Pow2(inv.shift)
    ensures ret == 0
  {
    var n, p, e := |D|, Place(|D| - 2), inv.d1 * B + inv.d0;
    PlaceStep(n - 2);
    PlaceStep(n - 1);
    MulMono(e, B * B - 1, p);
    if ret >= 1 {
      MulMono(1, ret, Place(n));
    }
  }

  /** Multi-limb division in place: N = Q * D + R with R < D, for any non-zero divisor without leading zero limb.
      Q goes to qp unless that is null, R to the low dn limbs of np. */
  method DivQr(qp: array?<Limb>, np: array<Limb>, nn: nat, dp: array<Limb>, dn: nat) returns (ghost Q: seq<Limb>)
    requires 1 <= dn <= nn <= np.Length && dn <= dp.Length && dp[dn - 1] > 0
    requires np != dp && (qp != null ==> nn - dn + 1 <= qp.Length && qp != np && qp != dp)
    modifies np, qp
    ensures |Q| == nn - dn + 1 && (qp != null ==> qp[..nn - dn + 1] == Q)
    ensures old(Val(np[..nn])) == Val(Q) * old(Val(dp[..dn])) + Val(np[..dn]) && Val(np[..dn]) < old(Val(dp[..dn]))
    ensures OnlyChanged(np, 0, nn) && (qp != null ==> OnlyChanged(qp, 0, nn - dn + 1))
  {
    var inv := DivQrInvert(dp, dn);
    ghost var D := dp[..dn];
    var tp := dp;
    PlaceStep(0);
    PowStep(2, 0);
    if dn > 2 && inv.shift > 0 {
      tp := new Limb[dn];
      var ret := Lshift(tp, 0, dp, dn, inv.shift);
      assert tp[0..0 + dn] == tp[..dn];
      ValBound(tp[..dn]);
      ShiftedFits(inv, D, Val(tp[..dn]), ret);
    }
    if dn > 2 {
      TopLimbsMatch(inv, D, tp[..dn]);
    }
    Q := DivQrPreinv(qp, np, nn, tp, dn, inv, Val(D));
  }
}
