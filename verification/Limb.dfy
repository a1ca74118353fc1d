/** One machine word of a multi-precision number, and the word-level macros of mini-gmp. */
module Limbs {
  import opened Arith
  import opened Reciprocal

  // B is the limb base 2^64, H the half-limb base with B == H * H.
  const H: int := 0x1_0000_0000
  const B: int := 0x1_0000_0000_0000_0000
  const HIGHBIT: int := 0x8000_0000_0000_0000

  type Limb = x: int | 0 <= x < 0x1_0000_0000_0000_0000

  /** Unsigned wrap-around. */
  function Wrap(x: int): Limb {
    x % B
  }

  lemma WrapShift(x: int, y: int, k: int)
    requires x == y + k * B
    ensures Wrap(x) == Wrap(y)
  {
  }

  lemma UmulAlgebra(h: int, u: int, v: int, ul: int, uh: int, vl: int, vh: int)
    requires u == uh * h + ul && v == vh * h + vl
    ensures u * v == (uh * vh) * (h * h) + (ul * vh + uh * vl) * h + ul * vl
  {
    assert (uh * h) * (vh * h) == (uh * vh) * (h * h);
    assert (uh * h) * vl == (uh * vl) * h;
    assert ul * (vh * h) == (ul * vh) * h;
  }

  lemma UmulCarry(x0: int, x1: int, x2: int, x3: int, y: int, z: int, w: int)
    requires 0 <= x0 <= (H - 1) * (H - 1) && 0 <= x1 <= (H - 1) * (H - 1)
    requires 0 <= x2 <= (H - 1) * (H - 1) && 0 <= x3 <= (H - 1) * (H - 1)
    requires y == x1 + x0 / H && z == Wrap(y + x2)
    requires w == if z < x2 then x3 + H else x3
    ensures w * B + z * H + x0 % H == x3 * B + (x1 + x2) * H + x0
  {
  }

  lemma ShiftUpHalf(x: int)
    requires 0 <= x
    ensures Wrap(x * H) == (x % H) * H
  {
  }

  /** Full product of two limbs out of four half-limb products. */
  method UmulPpmm(u: Limb, v: Limb) returns (w1: Limb, w0: Limb)
    ensures w1 * B + w0 == u * v
  {
    var ul, uh, vl, vh := u % H, u / H, v % H, v / H;
    MulBound(ul, vl, H - 1, H - 1);
    MulBound(ul, vh, H - 1, H - 1);
    MulBound(uh, vl, H - 1, H - 1);
    MulBound(uh, vh, H - 1, H - 1);
    UmulAlgebra(H, u, v, ul, uh, vl, vh);

    var x0: Limb := ul * vl;
    var x1: Limb := ul * vh;
    var x2: Limb := uh * vl;
    var x3: Limb := uh * vh;
    ghost var p1, p3 := x1, x3;

    x1 := x1 + x0 / H;  // cannot wrap
    x1 := Wrap(x1 + x2);  // can wrap
    if x1 < x2 {
      x3 := x3 + H;
    }
    UmulCarry(x0, p1, x2, p3, p1 + x0 / H, x1, x3);
    w1 := x3 + x1 / H;
    ShiftUpHalf(x1);
    w0 := Wrap(x1 * H) + x0 % H;
  }

  /** Two-limb addition modulo B * B. */
  method AddSsaaaa(ah: Limb, al: Limb, bh: Limb, bl: Limb) returns (sh: Limb, sl: Limb, ghost c: int)
    ensures (ah + bh) * B + al + bl == c * (B * B) + sh * B + sl
    ensures c == 0 || c == 1
  {
    var x := Wrap(al + bl);
    sh := Wrap(ah + bh + if x < al then 1 else 0);
    sl := x;
    c := (ah + bh + (if x < al then 1 else 0)) / B;
  }

  /** Two-limb subtraction modulo B * B. */
  method SubDdmmss(ah: Limb, al: Limb, bh: Limb, bl: Limb) returns (sh: Limb, sl: Limb, ghost c: int)
    ensures (ah - bh) * B + al - bl == sh * B + sl - c * (B * B)
    ensures c == 0 || c == 1
  {
    var x := Wrap(al - bl);
    sh := Wrap(ah - bh - if al < bl then 1 else 0);
    sl := x;
    c := if ah - bh - (if al < bl then 1 else 0) < 0 then 1 else 0;
  }

  lemma CandidateRemainder(d: int, nh: int, nl: int, q: int, qh: int, k: int)
    requires q == qh + k * B
    ensures Wrap(nl - qh * d) == Wrap(nh * B + nl - q * d)
  {
    assert q * d == qh * d + (k * d) * B;
    WrapShift(nh * B + nl - q * d, nl - qh * d, nh - k * d);
  }

  // The branch-free correction and the conditional one together bring the remainder into range.
  lemma QrnndAdjust(d: int, ql: int, rr: int, r0: int, r1: int)
    requires HIGHBIT <= d < B && 0 <= ql < B
    requires -d <= rr && ql < rr + B && (rr < B - d || rr < ql)
    requires r0 == Wrap(rr) && r1 == Wrap(r0 + if r0 > ql then d else 0)
    ensures var r := if r1 >= d then r1 - d else r1;
            0 <= r < d && r == rr + (if r0 > ql then d else 0) - (if r1 >= d then d else 0)
  {
  }

  // The true quotient after the corrections, as steps down and up from the candidate qq.
  function Corrected(qq: int, down: bool, up: bool): int {
    if down == up then qq else if down then qq - 1 else qq + 1
  }

  // Moving the quotient moves the remainder by one divisor, and the wrapped quotient is the quotient.
  lemma SettleQuotient(n: int, d: int, qq: int, rr: int, down: bool, up: bool, r: int)
    requires 0 < d && n == qq * d + rr && 0 <= r < d && 0 <= n < B * d
    requires r == rr + (if down then d else 0) - (if up then d else 0)
    ensures n == Corrected(qq, down, up) * d + r
    ensures Wrap(Corrected(qq, down, up)) == Corrected(qq, down, up)
  {
    Distribute(d, qq, 1);
    QuotientDigit(B, n, d, Corrected(qq, down, up), r);
  }

  // The quotient limb is stepped modulo B: down by the mask, up by the last adjustment.
  lemma StepQuotient(qh: int, c: int, down: bool, up: bool)
    ensures var q1 := Wrap(qh + if down then B - 1 else 0);
            (if up then Wrap(q1 + 1) else q1)
            == Wrap(Corrected(qh + c * B, down, up))
  {
  }

  /** Divides <nh, nl> by the normalised limb d with the help of its reciprocal. */
  method UdivQrnndPreinv(nh: Limb, nl: Limb, d: Limb, di: Limb) returns (q: Limb, r: Limb)
    requires HIGHBIT <= d && nh < d && Inverse2by1(B, d, di)
    ensures nh * B + nl == q * d + r && r < d
  {
    var qh, ql := UmulPpmm(nh, di);
    ghost var c;
    qh, ql, c := AddSsaaaa(qh, ql, nh + 1, nl);
    ghost var qq := qh + c * B;
    ghost var rr := TwoByOne(B, d, di, nh, nl, qq - 1, ql);
    r := Wrap(nl - qh * d);
    CandidateRemainder(d, nh, nl, qq, qh, c);
    ghost var r0, qh0 := r, qh;
    var mask: Limb := if r > ql then B - 1 else 0;
    qh := Wrap(qh + mask);
    r := Wrap(r + if mask != 0 then d else 0);
    QrnndAdjust(d, ql, rr, r0, r);
    ghost var up := r >= d;
    if r >= d {
      r := r - d;
      qh := Wrap(qh + 1);
    }
    q := qh;
    NumeratorBound(B, d, nh, nl);
    StepQuotient(qh0, c, mask != 0, up);
    SettleQuotient(nh * B + nl, d, qq, rr, mask != 0, up, r);
  }

  lemma ThreeByTwoResidue(d1: int, d0: int, n2: int, n1: int, n0: int, q: int, t: int, k: int, r: int)
    requires t == d0 * q
    requires n1 * B + n0 - d1 * q * B - (d1 * B + d0) - t == r + k * (B * B)
    ensures n2 * (B * B) + n1 * B + n0 - (q + 1) * (d1 * B + d0) == r + (n2 + k) * (B * B)
  {
    assert (q + 1) * (d1 * B + d0) == d1 * q * B + d0 * q + (d1 * B + d0);
  }

  // Low two limbs of n - (q + 1) * d, computed as the macro does.
  method CandidateLow(n1: Limb, n0: Limb, d1: Limb, d0: Limb, q: Limb)
    returns (r1: Limb, r0: Limb, ghost k: int)
    ensures n1 * B + n0 - d1 * q * B - (d1 * B + d0) - d0 * q == r1 * B + r0 + k * (B * B)
  {
    ghost var c, c';
    r1 := Wrap(n1 - d1 * q);
    k := (n1 - d1 * q) / B;
    r1, r0, c := SubDdmmss(r1, n0, d1, d0);
    var t1, t0 := UmulPpmm(d0, q);
    r1, r0, c' := SubDdmmss(r1, r0, t1, t0);
    k := k - c - c';
  }

  lemma ThreeByTwoAdjust(d: int, q0: int, rr: int, k: int, s1: int, s0: int, c: int, w: int)
    requires B * B <= 2 * d && d < B * B && 0 <= q0 < B
    requires -d <= rr && q0 * B <= rr + B * B && (rr < B * B - d || rr < q0 * B)
    requires 0 <= s1 < B && 0 <= s0 < B && rr == s1 * B + s0 + k * (B * B)
    requires 0 <= w < B * B && s1 * B + s0 + (if s1 >= q0 then d else 0) == c * (B * B) + w
    ensures 0 <= (if w >= d then w - d else w) < d
    ensures w == rr + (if s1 >= q0 then d else 0)
  {
    assert k == 0 || k == -1;
    assert c == 0 || c == 1;
  }

  lemma CompareTwoLimbs(r1: int, r0: int, d1: int, d0: int)
    requires 0 <= r0 < B && 0 <= d0 < B
    ensures (r1 > d1 || (r1 == d1 && r0 >= d0)) <==> r1 * B + r0 >= d1 * B + d0
  {
  }

  // The conditional adjustments of quotient and remainder; rr is the remainder of the candidate q + 1.
  method Adjust3by2(q1: Limb, s1: Limb, s0: Limb, q0: Limb, d1: Limb, d0: Limb, ghost rr: int, ghost k: int)
    returns (q: Limb, r1: Limb, r0: Limb, ghost down: bool, ghost up: bool)
    requires HIGHBIT <= d1
    requires rr == s1 * B + s0 + k * (B * B)
    requires -(d1 * B + d0) <= rr && q0 * B <= rr + B * B
    requires rr < B * B - (d1 * B + d0) || rr < q0 * B
    ensures r1 * B + r0 == rr + (if down then d1 * B + d0 else 0) - (if up then d1 * B + d0 else 0)
    ensures r1 * B + r0 < d1 * B + d0
    ensures q == Wrap(Corrected(q1 + 1, down, up))
  {
    ghost var c;
    q := Wrap(q1 + 1);
    down := s1 >= q0;
    var mask: Limb := if s1 >= q0 then B - 1 else 0;
    q := Wrap(q + mask);
    r1, r0, c := AddSsaaaa(s1, s0, if mask != 0 then d1 else 0, if mask != 0 then d0 else 0);
    ThreeByTwoAdjust(d1 * B + d0, q0, rr, k, s1, s0, c, r1 * B + r0);
    ghost var q2 := q;
    q, r1, r0, up := TakeOff(q, r1, r0, d1, d0);
    WrapCorrected(q1, down, up, q2, q);
  }

  lemma WrapSum(x: int, y: int)
    ensures Wrap(Wrap(x) + y) == Wrap(x + y)
  {
    WrapShift(x + y, Wrap(x) + y, x / B);
  }

  // Adding all ones takes one off.
  lemma WrapCorrected(q1: Limb, down: bool, up: bool, q2: Limb, q: Limb)
    requires q2 == Wrap(Wrap(q1 + 1) + if down then B - 1 else 0) && q == if up then Wrap(q2 + 1) else q2
    ensures q == Wrap(Corrected(q1 + 1, down, up))
  {
    var y := if down then B - 1 else 0;
    WrapSum(q1 + 1, y);
    WrapSum(q1 + 1 + y, 1);
    if down {
      WrapShift(q1 + 1 + y, q1, 1);
      WrapShift(q1 + 1 + y + 1, q1 + 1, 1);
    }
  }

  // The unlikely second correction.
  method TakeOff(q0: Limb, s1: Limb, s0: Limb, d1: Limb, d0: Limb) returns (q: Limb, r1: Limb, r0: Limb, ghost up: bool)
    ensures up == (s1 * B + s0 >= d1 * B + d0) && q == if up then Wrap(q0 + 1) else q0
    ensures r1 * B + r0 == s1 * B + s0 - if up then d1 * B + d0 else 0
  {
    CompareTwoLimbs(s1, s0, d1, d0);
    q, r1, r0 := q0, s1, s0;
    up := s1 * B + s0 >= d1 * B + d0;
    if r1 >= d1 {
      if r1 > d1 || r0 >= d0 {
        ghost var c;
        q := Wrap(q + 1);
        r1, r0, c := SubDdmmss(r1, r0, d1, d0);
      }
    }
  }

  /** Divides <n2, n1, n0> by the normalised <d1, d0> with the help of its reciprocal. */
  method UdivQr3by2(n2: Limb, n1: Limb, n0: Limb, d1: Limb, d0: Limb, dinv: Limb)
    returns (q: Limb, r1: Limb, r0: Limb)
    requires HIGHBIT <= d1 && n2 * B + n1 < d1 * B + d0
    requires Inverse3by2(B, d1 * B + d0, dinv)
    ensures n2 * (B * B) + n1 * B + n0 == q * (d1 * B + d0) + (r1 * B + r0)
    ensures r1 * B + r0 < d1 * B + d0
  {
    ghost var c, k, down, up;
    ghost var d := d1 * B + d0;
    var q0;
    q, q0 := UmulPpmm(n2, dinv);
    q, q0, c := AddSsaaaa(q, q0, n2, n1);
    ghost var rr := ThreeByTwo(B, d1, d0, dinv, n2, n1, n0, q + c * B, q0);
    CandidateFits(B, d, n2, n1, n0, rr, q + c * B);

    r1, r0, k := CandidateLow(n1, n0, d1, d0, q);
    ThreeByTwoResidue(d1, d0, n2, n1, n0, q, d0 * q, k, r1 * B + r0);
    ghost var qq := q + 1;
    q, r1, r0, down, up := Adjust3by2(q, r1, r0, q0, d1, d0, rr, n2 + k);
    NumeratorBound3(B, d, n2, n1, n0);
    SettleQuotient(n2 * (B * B) + n1 * B + n0, d, qq, rr, down, up, r1 * B + r0);
  }
}
