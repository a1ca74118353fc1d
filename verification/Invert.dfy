/** The precomputed reciprocal of a normalised one- or two-limb divisor. */
module Invert {
  import opened Arith
  import opened Reciprocal
  import opened Limbs
  import opened Powers

  // --- high half of the one-limb reciprocal ---

  lemma HalfSplit(u1: int, uh: int, ul: int, nu: int, qh: int, rem: int)
    requires u1 == uh * H + ul && nu == qh * uh + rem
    ensures H * nu + (H - 1) == qh * u1 + (rem * H + (H - 1) - qh * ul)
  {
  }

  lemma HalfQuotientBound(u1: int, uh: int, qh: int, rem: int)
    requires HIGHBIT <= u1 < B && uh == u1 / H && B - 1 - u1 == qh * uh + rem && 0 <= rem < uh
    ensures 0 <= qh < H
  {
    if qh < 0 {
      MulMono(qh, -1, uh);
    }
    if qh >= H {
      MulMono(H, qh, uh);
    }
  }

  // The wrapping steps add u1 to the remainder at most twice, until it covers p.
  lemma HalfAdjust(u1: int, r0: int, p: int)
    requires HIGHBIT <= u1 < B && 0 <= r0 < u1 && 0 <= p < B
    ensures var r1 := Wrap(r0 + u1);
            var again := r1 >= u1 && r1 < p;
            var t := if r0 >= p then 0 else if again then 2 else 1;
            var r := if r0 >= p then r0 else if again then Wrap(r1 + u1) else r1;
            0 <= Wrap(r - p) < u1
            && Wrap(r - p) == r0 - p + (if t == 0 then 0 else if t == 1 then u1 else 2 * u1)
            && (t == 2 ==> r0 - p + u1 < 0)
  {
  }

  lemma StepUp(n: int, u1: int, q: int, r: int)
    requires n == q * u1 + r
    ensures n == (q - 1) * u1 + (r + u1) && n == (q - 2) * u1 + (r + 2 * u1)
  {
  }

  lemma HighFacts(u1: int, uh: int, ul: int, qh: int)
    requires HIGHBIT <= u1 < B && uh == u1 / H && ul == u1 % H && qh == (B - 1 - u1) / uh
    ensures 0 <= qh < H && 0 <= qh * ul < B
    ensures 0 <= B - 1 - u1 - qh * uh < uh
    ensures H * (B - 1 - u1) + (H - 1) == qh * u1 + ((B - 1 - u1 - qh * uh) * H + (H - 1) - qh * ul)
  {
    var rem := (B - 1 - u1) % uh;
    DivMod(B - 1 - u1, uh);
    HalfQuotientBound(u1, uh, qh, rem);
    HalfSplit(u1, uh, ul, B - 1 - u1, qh, rem);
    MulBound(qh, ul, H - 1, H - 1);
  }

  // First estimate of the high half, before p is taken off the remainder.
  method HighCandidate(u1: Limb) returns (qh: Limb, r: Limb, p: Limb)
    requires HIGHBIT <= u1
    ensures qh < H && r < u1
    ensures H * (B - 1 - u1) + (H - 1) == qh * u1 + (r - p)
  {
    var ul, uh := u1 % H, u1 / H;
    HighFacts(u1, uh, ul, (B - 1 - u1) / uh);
    qh := (B - 1 - u1) / uh;
    r := Wrap((B - 1 - u1 - qh * uh) * H) + (H - 1);
    p := qh * ul;
  }

  /** qh is the half-limb 3/2 reciprocal of u1, r the remainder it leaves. */
  method InvertHigh(u1: Limb) returns (qh: Limb, r: Limb)
    requires HIGHBIT <= u1
    ensures qh < H && r < u1
    ensures H * (B - 1 - u1) + (H - 1) == qh * u1 + r
  {
    var p;
    qh, r, p := HighCandidate(u1);
    HalfAdjust(u1, r, p);
    ghost var n, q0, r0 := H * (B - 1 - u1) + (H - 1), qh, r;
    StepUp(n, u1, qh, r - p);
    if r < p {
      QuotientDigit(H, n, u1, q0 - 1, r0 - p + u1);
      qh := qh - 1;
      r := Wrap(r + u1);
      if r >= u1 {  // no carry from the addition
        if r < p {
          QuotientDigit(H, n, u1, q0 - 2, r0 - p + 2 * u1);
          qh := qh - 1;
          r := Wrap(r + u1);
        }
      }
    }
    r := Wrap(r - p);
  }

  // --- low half ---

  // The half-limb reciprocal meets the definition, so the 3/2 step applies to half limbs.
  lemma HalfInverse(u1: int, qh: int, r: int)
    requires 0 <= r < u1 && H * (B - 1 - u1) + (H - 1) == qh * u1 + r
    ensures Inverse3by2(H, u1, qh)
  {
    Distribute(u1, H, qh);
  }

  lemma LowResidue(u1: int, r: int, ql: int)
    requires 0 <= r < B
    ensures Wrap(Wrap(r * H) + (H - 1) - ql * u1) == Wrap(r * H + (H - 1) - ql * u1)
  {
    WrapShift(r * H + (H - 1) - ql * u1, Wrap(r * H) + (H - 1) - ql * u1, r * H / B);
  }

  lemma LowAdjust(u1: int, p: int, rr: int, r0: int)
    requires HIGHBIT <= u1 < B && 0 <= p < B && r0 == Wrap(rr)
    requires 0 <= rr + u1
    requires p % H * H <= rr + B && (rr < B - u1 || rr < p % H * H)
    ensures var down := r0 >= Wrap(p * H);
            var r1 := if down then Wrap(r0 + u1) else r0;
            var r := if r1 >= u1 then r1 - u1 else r1;
            0 <= r < u1 && r == rr + (if down then u1 else 0) - (if r1 >= u1 then u1 else 0)
  {
    ShiftUpHalf(p);
  }

  lemma JoinHalves(u1: int, qh: int, ql: int, r: int, r': int)
    requires H * (B - 1 - u1) + (H - 1) == qh * u1 + r
    requires r * H + (H - 1) == ql * u1 + r'
    ensures B * (B - 1 - u1) + (B - 1) == (qh * H + ql) * u1 + r'
  {
    assert qh * H * u1 == qh * u1 * H;
  }

  lemma SettleHalf(n: int, d: int, qq: int, rr: int, down: bool, up: bool, r: int)
    requires 0 < d && n == qq * d + rr && 0 <= r < d && 0 <= n < H * d
    requires r == rr + (if down then d else 0) - (if up then d else 0)
    ensures n == Corrected(qq, down, up) * d + r
    ensures 0 <= Corrected(qq, down, up) < H
  {
    Distribute(d, qq, 1);
    QuotientDigit(H, n, d, Corrected(qq, down, up), r);
  }

  // Candidate low half ql with its remainder rr modulo B.
  method LowCandidate(u1: Limb, qh: Limb, rh: Limb) returns (p: Limb, ql: Limb, r: Limb, ghost rr: int)
    requires HIGHBIT <= u1 && qh < H && rh < u1
    requires H * (B - 1 - u1) + (H - 1) == qh * u1 + rh
    ensures 1 <= ql <= H && rh * H + (H - 1) == ql * u1 + rr && r == Wrap(rr)
    ensures 0 <= rr + u1 && p % H * H <= rr + B && (rr < B - u1 || rr < p % H * H)
  {
    HalfInverse(u1, qh, rh);
    ghost var sum := rh / H * qh + rh;
    MulNonneg(rh / H, qh);
    rr := ThreeByTwo(H, u1 / H, u1 % H, qh, rh / H, rh % H, H - 1, sum / H, sum % H);
    CandidateFits(H, u1, rh / H, rh % H, H - 1, rr, sum / H);
    p := rh / H * qh + rh;  // cannot wrap
    ql := p / H + 1;
    r := Wrap(Wrap(rh * H) + (H - 1) - ql * u1);
    LowResidue(u1, rh, ql);
  }

  // Settles the low half and joins it to the high half; n is the numerator of the low division.
  method LowFinish(u1: Limb, qh: Limb, p: Limb, ql: Limb, r0: Limb, ghost n: int, ghost rr: int)
    returns (m: Limb, r: Limb)
    requires HIGHBIT <= u1 && qh < H && 1 <= ql <= H && r0 == Wrap(rr)
    requires n == ql * u1 + rr && 0 <= n < H * u1
    requires 0 <= rr + u1 && p % H * H <= rr + B && (rr < B - u1 || rr < p % H * H)
    ensures 0 <= m - qh * H < H && n == (m - qh * H) * u1 + r && r < u1
  {
    LowAdjust(u1, p, rr, r0);
    ghost var down := r0 >= Wrap(p * H);
    ghost var r1 := if down then Wrap(r0 + u1) else r0;
    ghost var up := r1 >= u1;
    SettleHalf(n, u1, ql, rr, down, up, if up then r1 - u1 else r1);
    var l := ql;
    r := r0;
    if r >= Wrap(p * H) {
      l := l - 1;
      r := Wrap(r + u1);
    }
    m := qh * H + l;
    if r >= u1 {
      m := m + 1;
      r := r - u1;
    }
  }

  /** m is the 2/1 reciprocal of u1. */
  method InvertLow(u1: Limb, qh: Limb, rh: Limb) returns (m: Limb, r: Limb)
    requires HIGHBIT <= u1 && qh < H && rh < u1
    requires H * (B - 1 - u1) + (H - 1) == qh * u1 + rh
    ensures B * (B - 1 - u1) + (B - 1) == m * u1 + r && r < u1
  {
    ghost var rr;
    var p, ql;
    p, ql, r, rr := LowCandidate(u1, qh, rh);
    NumeratorBound3(H, u1, rh / H, rh % H, H - 1);
    m, r := LowFinish(u1, qh, p, ql, r, rh * H + (H - 1), rr);
    JoinHalves(u1, qh, m - qh * H, rh, r);
  }

  // --- from the 2/1 to the 3/2 reciprocal ---

  // What the candidate m leaves of the numerator of the 3/2 reciprocal.
  ghost function Left(u1: int, u0: int, m: int): int {
    B * B * B - 1 - (B + m) * (u1 * B + u0)
  }

  lemma LeftStart(u1: int, u0: int, m: int, r: int)
    requires B * (B - 1 - u1) + (B - 1) == m * u1 + r
    ensures Left(u1, u0, m) == B * (r + 1 - u0) - 1 - m * u0
  {
    assert (B + m) * (u1 * B + u0) == B * B * u1 + B * u0 + m * u1 * B + m * u0;
  }

  lemma LeftStep(u1: int, u0: int, m: int)
    ensures Left(u1, u0, m - 1) == Left(u1, u0, m) + (u1 * B + u0)
  {
    Distribute(u1 * B + u0, B + m, 1);
  }

  // A candidate that leaves a negative rest is at least 1.
  lemma LeftNegative(u1: int, u0: int, m: int)
    requires 0 <= u1 < B && 0 <= u0 < B && Left(u1, u0, m) < 0
    ensures 1 <= m
  {
    var d := u1 * B + u0;
    if m <= 0 {
      MulMono(B + m, B, d);
    }
  }

  // The negated high part of the rest, after u0 and up to two multiples of u1 are taken into account.
  lemma CarryAdjust(u1: int, u0: int, r: int)
    requires HIGHBIT <= u1 < B && 0 < u0 < B && 0 <= r < u1
    ensures var s := r + 1 - u0; var r1 := Wrap(B - 1 - r + u0);
            if r1 >= u0 then 0 < s <= u1 && r1 == B - s
            else if r1 < u1 then s <= 0 < s + u1 <= u1 && Wrap(r1 - u1) == B - (s + u1)
            else s + u1 <= 0 < s + 2 * u1 <= u1 && Wrap(r1 - u1 - u1) == B - (s + 2 * u1)
  {
  }

  // B^3 is not a multiple of a divisor with a non-zero low limb, as its divisors are powers of two.
  lemma NoExactReciprocal(u1: int, u0: int, c: int)
    requires HIGHBIT <= u1 < B && 0 < u0 < B
    ensures c * (u1 * B + u0) != B * B * B
  {
    var d := u1 * B + u0;
    if c * d == B * B * B {
      Pow2Values();
      PowAdd(2, 64, 64);
      PowAdd(2, 64, 128);
      var i := DivisorOfPow2(d, c, 192);
      PowAdd(2, 63, 64);
      if i < 127 {
        PowMono(2, i, 127);
      } else if i > 127 {
        PowMono(2, 128, i);
      }
    }
  }

  lemma LeftNotMinusOne(u1: int, u0: int, m: int)
    requires HIGHBIT <= u1 < B && 0 < u0 < B
    ensures Left(u1, u0, m) + (u1 * B + u0) != -1
  {
    LeftStep(u1, u0, m);
    NoExactReciprocal(u1, u0, B + m - 1);
  }

  // The last correction: x is the rest, s its high part before <th, tl> = u0 * m is taken off.
  lemma LastAdjust(u1: int, u0: int, s: int, th: int, tl: int, x: int, r: int)
    requires HIGHBIT <= u1 < B && 0 < u0 < B && 0 < s <= u1
    requires 0 <= th < B && 0 <= tl < B && x == B * (s - th) - 1 - tl
    requires x + (u1 * B + u0) != -1
    requires r == Wrap(B - s + th)
    ensures var d := u1 * B + u0;
            if r >= th then 0 <= x < d
            else if r > u1 || (r == u1 && tl > u0) then x + d < 0 <= x + 2 * d < d
            else x < 0 <= x + d < d
  {
  }

  /** The 3/2 reciprocal floor((B^3 - 1) / (u1 * B + u0)) - B of a normalised two-limb divisor;
      for u0 == 0 it is also the 2/1 reciprocal of u1. */
  method Invert3by2(u1: Limb, u0: Limb) returns (m: Limb)
    requires HIGHBIT <= u1
    ensures Inverse3by2(B, u1 * B + u0, m)
    ensures u0 == 0 ==> Inverse2by1(B, u1, m)
  {
    var qh, r := InvertHigh(u1);
    m, r := InvertLow(u1, qh, r);
    LeftStart(u1, u0, m, r);
    if u0 > 0 {
      m := AddLowLimb(u1, u0, m, r);
    } else {
      Distribute(u1, B, m);
    }
  }

  lemma DropOne(u1: int, u0: int, m: int, s: int)
    requires 0 <= u1 < B && 0 <= u0 < B && 0 <= m && s <= 0
    requires Left(u1, u0, m) == B * s - 1 - m * u0
    ensures 1 <= m
    ensures Left(u1, u0, m - 1) == B * (s + u1) - 1 - (m - 1) * u0
  {
    MulNonneg(m, u0);
    LeftNegative(u1, u0, m);
    LeftStep(u1, u0, m);
  }

  // Takes u0 into account in the high part of the rest.
  method AddToHigh(u1: Limb, u0: Limb, m0: Limb, r0: Limb) returns (m: Limb, r: Limb, ghost s: int)
    requires HIGHBIT <= u1 && 0 < u0 && r0 < u1
    requires Left(u1, u0, m0) == B * (r0 + 1 - u0) - 1 - m0 * u0
    ensures 0 < s <= u1 && r == B - s
    ensures Left(u1, u0, m) == B * s - 1 - m * u0
  {
    m := m0;
    s := r0 + 1 - u0;
    CarryAdjust(u1, u0, r0);
    r := B - 1 - r0;
    r := Wrap(r + u0);
    if r < u0 {
      DropOne(u1, u0, m, s);
      m := m - 1;
      s := s + u1;
      if r >= u1 {
        DropOne(u1, u0, m, s);
        m := m - 1;
        s := s + u1;
        r := r - u1;
      }
      r := Wrap(r - u1);
    }
  }

  // Turns the 2/1 reciprocal of u1 into the 3/2 reciprocal of <u1, u0>.
  method AddLowLimb(u1: Limb, u0: Limb, m0: Limb, r0: Limb) returns (m: Limb)
    requires HIGHBIT <= u1 && 0 < u0 && r0 < u1
    requires Left(u1, u0, m0) == B * (r0 + 1 - u0) - 1 - m0 * u0
    ensures 0 <= Left(u1, u0, m) < u1 * B + u0
  {
    ghost var s;
    var r;
    m, r, s := AddToHigh(u1, u0, m0, r0);
    var th, tl := UmulPpmm(u0, m);
    r := Wrap(r + th);
    LeftNotMinusOne(u1, u0, m);
    LastAdjust(u1, u0, s, th, tl, Left(u1, u0, m), r);
    LeftStep(u1, u0, m);
    LeftStep(u1, u0, m - 1);
    if r < th {
      LeftNegative(u1, u0, m);
      m := m - 1;
      if r > u1 || (r == u1 && tl > u0) {
        LeftNegative(u1, u0, m);
        m := m - 1;
      }
    }
  }
}
