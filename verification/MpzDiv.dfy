/** Signed division with the three rounding modes. */
module MpzDiv {
  import opened Arith
  import opened Powers
  import opened Limbs
  import opened LimbSeqs
  import opened Mpn
  import opened MpnDivQr
  import opened Mpzs

  datatype RoundMode = Floor | Ceil | Trunc

  /** q and r are quotient and remainder of n by d under the rounding mode: the remainder is smaller than the
      divisor, and its sign is the one the mode asks for. */
  ghost predicate IsDivision(n: int, d: int, mode: RoundMode, q: int, r: int) {
    && n == q * d + r && AbsInt(r) < AbsInt(d)
    && (r == 0 || match mode
          case Floor => (r < 0) == (d < 0)
          case Ceil => (r < 0) != (d < 0)
          case Trunc => (r < 0) == (n < 0))
  }

  lemma DivisionUnique(n: int, d: int, mode: RoundMode, q: int, r: int, q': int, r': int)
    requires IsDivision(n, d, mode, q, r) && IsDivision(n, d, mode, q', r')
    ensures q == q' && r == r'
  {
    assert (q - q') * d == r' - r;
    if q - q' >= 1 {
      MulMono(1, q - q', AbsInt(d));
    } else if q - q' <= -1 {
      MulMono(q - q', -1, AbsInt(d));
    }
    assert (q - q') * -d == r - r';
  }

  // Truncation of non-negative numbers is the plain division.
  lemma TruncOfPositive(n: int, d: int, q: int, r: int)
    requires IsDivision(n, d, Trunc, q, r) && 0 <= n && 0 < d
    ensures q == n / d && r == n % d && 0 <= q && 0 <= r < d
  {
    DivModUnique(n, d, q, r);
    if q < 0 {
      MulMono(q, -1, d);
    }
  }

  /** The quotient is the real quotient rounded as the mode says. */
  lemma DivisionRounds(n: int, d: int, mode: RoundMode, q: int, r: int)
    requires d != 0 && IsDivision(n, d, mode, q, r)
    ensures var x := n as real / d as real;
            match mode
            case Floor => q as real <= x < q as real + 1.0
            case Ceil => q as real - 1.0 < x <= q as real
            case Trunc => if x >= 0.0 then q as real <= x < q as real + 1.0 else q as real - 1.0 < x <= q as real
  {
    var x, f := n as real / d as real, r as real / d as real;
    assert n as real == q as real * d as real + r as real;
    assert x == q as real + f;
  }

  lemma QuotientLarge(n: int, q: int, d: int, r: int, p: int, pd: int)
    requires n == q * d + r && 0 <= r < d < pd && 0 < p && p * pd <= n
    ensures p <= q
  {
    if q + 1 <= p {
      MulMono(q + 1, p, d);
      MulMono(d, pd, p);
      Distribute(d, q, 1);
    }
  }

  // The quotient fills its limbs, but for possibly the top one.
  lemma QuotientTop(N: seq<Limb>, D: seq<Limb>, Q: seq<Limb>, r: int)
    requires N != [] && Normalised(N) && D != [] && |Q| == |N| - |D| + 1 && |D| <= |N|
    requires Val(N) == Val(Q) * Val(D) + r && 0 <= r < Val(D)
    ensures Q[|Q| - 1] == 0 ==> Normalised(Q[..|Q| - 1]) && Val(Q[..|Q| - 1]) == Val(Q)
  {
    if |Q| >= 2 {
      NormalisedBound(N);
      ValBound(D);
      PlaceStep(|Q| - 2);
      PowAdd(B, |Q| - 2, |D|);
      QuotientLarge(Val(N), Val(Q), Val(D), r, Place(|Q| - 2), Place(|D|));
      TopLimbOfLarge(Q, Val(Q));
    } else {
      TopOne(Q);
      assert Q[..0] == [];
      ValEmpty();
    }
  }

  lemma SignedDivision(n: int, d: int, n0: int, d0: int, q0: int, r0: int)
    requires n0 == AbsInt(n) && d0 == AbsInt(d) && n0 == q0 * d0 + r0 && 0 <= r0 < d0
    ensures IsDivision(n, d, Trunc, if (n < 0) != (d < 0) then -q0 else q0, if n < 0 then -r0 else r0)
  {
    assert (-q0) * d0 == -(q0 * d0) && q0 * -d0 == -(q0 * d0) && (-q0) * -d0 == q0 * d0;
  }

  /** Divides the limbs np in place and tells the lengths of quotient and remainder without leading zeros. */
  method DivLimbs(qp: array?<Limb>, np: array<Limb>, nn: nat, dp: array<Limb>, dn: nat, ghost n0: int, ghost d0: int)
    returns (qn: nat, rn: nat, ghost q0: int, ghost r0: int)
    requires 1 <= dn <= nn <= np.Length && dn <= dp.Length && np != dp
    requires Normalised(np[..nn]) && Normalised(dp[..dn]) && n0 == Val(np[..nn]) && d0 == Val(dp[..dn])
    requires qp != null ==> nn - dn + 1 <= qp.Length && qp != np && qp != dp
    modifies np, qp
    ensures n0 == q0 * d0 + r0 && 0 <= r0 < d0
    ensures rn <= dn && Normalised(np[..rn]) && Val(np[..rn]) == r0
    ensures qn <= nn - dn + 1 && (qp != null ==> Normalised(qp[..qn]) && Val(qp[..qn]) == q0)
  {
    ghost var N, D := np[..nn], dp[..dn];
    ghost var Q := DivQr(qp, np, nn, dp, dn);
    q0, r0 := Val(Q), Val(np[..dn]);
    ValBound(np[..dn]);
    qn := nn - dn + 1;
    if qp != null {
      QuotientTop(N, D, Q, r0);
      if qp[qn - 1] == 0 {
        assert qp[..qn - 1] == Q[..qn - 1];
        qn := qn - 1;
      }
    }
    rn := NormalizedSize(np, dn);
  }

  lemma Signs(x: Mpz)
    requires x.Valid()
    ensures x.Magnitude() == AbsInt(x.Value())
    ensures x.Value() < 0 <==> x.size < 0
    ensures x.Value() == 0 <==> x.size == 0
  {
    var s := x.d[..AbsInt(x.size)];
    ValEmpty();
    if s != [] {
      NormalisedBound(s);
      PlaceStep(|s| - 1);
    }
  }

  /** A freshly computed magnitude of n limbs gets its sign. */
  method Finish(x: Mpz, n: nat, neg: bool, ghost v: int)
    requires n <= x.alloc <= x.d.Length && Normalised(x.d[..n]) && Val(x.d[..n]) == v
    modifies x`size
    ensures x.Valid() && x.Value() == if neg then -v else v
  {
    ValEmpty();
    x.size := n;
    if neg {
      x.size := -x.size;
    }
  }

  /** Quotient and remainder of the magnitudes, with the signs of a truncating division. */
  method TruncDiv(wantQ: bool, n: Mpz, d: Mpz, ghost x: int, ghost y: int)
    returns (tq: Mpz?, tr: Mpz, ghost q: int, ghost r: int)
    requires n.Valid() && d.Valid() && 0 < AbsInt(d.size) <= AbsInt(n.size) && x == n.Value() && y == d.Value()
    ensures IsDivision(x, y, Trunc, q, r)
    ensures fresh(tr) && fresh(tr.d) && tr.Valid() && tr.Value() == r
    ensures wantQ ==> tq != null
    ensures tq != null ==> fresh(tq) && fresh(tq.d) && tq.Valid() && tq.Value() == q && tq != tr && tq.d != tr.d
  {
    var nn, dn := AbsInt(n.size), AbsInt(d.size);
    var nneg, qneg := n.size < 0, (n.size < 0) != (d.size < 0);
    Signs(n);
    Signs(d);
    ghost var n0, d0 := n.Magnitude(), d.Magnitude();
    ghost var q0, r0;
    tr := new Mpz.Init();
    tr.Set(n);
    tq := null;
    var qp: array?<Limb> := null;
    if wantQ {
      tq := new Mpz.InitLimbs(nn - dn + 1);
      qp := tq.d;
    }
    var qn, rn;
    qn, rn, q0, r0 := DivLimbs(qp, tr.d, nn, d.d, dn, n0, d0);
    SignedDivision(x, y, n0, d0, q0, r0);
    q, r := if qneg then -q0 else q0, if nneg then -r0 else r0;
    if tq != null {
      Finish(tq, qn, qneg, q0);
    }
    Finish(tr, rn, nneg, r0);
  }

  lemma RoundAway(n: int, d: int, mode: RoundMode, q: int, r: int)
    requires d != 0 && IsDivision(n, d, Trunc, q, r)
    ensures mode == Floor && (n < 0) != (d < 0) && r != 0 ==> IsDivision(n, d, Floor, q - 1, r + d)
    ensures mode == Ceil && (n < 0) == (d < 0) && r != 0 ==> IsDivision(n, d, Ceil, q + 1, r - d)
    ensures !(mode == Floor && (n < 0) != (d < 0) && r != 0) && !(mode == Ceil && (n < 0) == (d < 0) && r != 0)
            ==> IsDivision(n, d, mode, q, r)
  {
    Distribute(d, q, 1);
  }

  /** One quotient step down (or up) with the matching remainder. */
  method StepBy(tq: Mpz?, tr: Mpz, wantR: bool, d: Mpz, down: bool)
    requires tr.Valid() && d.Valid() && tr != d && tr.d != d.d
    requires tq != null ==> tq.Valid() && tq != tr && tq.d != tr.d && tq != d && tq.d != d.d
    modifies tr, tr.d, tq, if tq != null then {tq.d} else {}
    ensures tr.Valid() && (tr.d == old(tr.d) || fresh(tr.d))
    ensures wantR ==> tr.Value() == old(tr.Value()) + if down then old(d.Value()) else -old(d.Value())
    ensures tq != null ==> tq.Valid() && tq.d != tr.d && (tq.d == old(tq.d) || fresh(tq.d))
    ensures tq != null ==> tq.Value() == old(tq.Value()) + if down then -1 else 1
  {
    if tq != null {
      if down {
        tq.SubUi(tq, 1);
      } else {
        tq.AddUi(tq, 1);
      }
    }
    if wantR {
      if down {
        tr.Add(tr, d);
      } else {
        tr.Sub(tr, d);
      }
    }
  }

  /** The truncating division, moved to the quotient that the mode asks for. */
  method RoundedDiv(wantQ: bool, wantR: bool, n: Mpz, d: Mpz, mode: RoundMode, ghost x: int, ghost y: int)
    returns (tq: Mpz?, tr: Mpz, inexact: bool, ghost q: int, ghost r: int)
    requires n.Valid() && d.Valid() && 0 < AbsInt(d.size) <= AbsInt(n.size) && x == n.Value() && y == d.Value()
    ensures IsDivision(x, y, mode, q, r) && inexact == (r != 0)
    ensures fresh(tr) && fresh(tr.d) && tr.Valid() && (wantR ==> tr.Value() == r)
    ensures wantQ ==> tq != null
    ensures tq != null ==> fresh(tq) && fresh(tq.d) && tq.Valid() && tq.Value() == q && tq != tr && tq.d != tr.d
  {
    var opposite := (n.size < 0) != (d.size < 0);
    Signs(n);
    Signs(d);
    tq, tr, q, r := TruncDiv(wantQ, n, d, x, y);
    Signs(tr);
    RoundAway(x, y, mode, q, r);
    inexact := tr.size != 0;
    if mode == Floor && opposite && inexact {
      StepBy(tq, tr, wantR, d, true);
      q, r := q - 1, r + y;
    } else if mode == Ceil && !opposite && inexact {
      StepBy(tq, tr, wantR, d, false);
      q, r := q + 1, r - y;
    }
  }

  lemma SmallDivision(n: int, d: int, mode: RoundMode)
    requires n != 0 && AbsInt(n) < AbsInt(d)
    ensures mode == Ceil && (n < 0) == (d < 0) ==> IsDivision(n, d, mode, 1, n - d)
    ensures mode == Floor && (n < 0) != (d < 0) ==> IsDivision(n, d, mode, -1, n + d)
    ensures !(mode == Ceil && (n < 0) == (d < 0)) && !(mode == Floor && (n < 0) != (d < 0)) ==>
            IsDivision(n, d, mode, 0, n)
  {
  }

  /** Where a result may go: nowhere, or to a number that shares limbs only with itself. */
  ghost predicate Target(q: Mpz?, n: Mpz)
    reads n, q
  {
    q != null ==> q.Apart(n)
  }

  method SmallQuotient(q: Mpz?, c: int)
    requires (q != null ==> q.Valid()) && -1 <= c <= 1
    modifies q, if q != null then {q.d} else {}
    ensures q != null ==> q.Valid() && q.Value() == c && (q.d == old(q.d) || fresh(q.d))
  {
    if q != null {
      q.SetUi(AbsInt(c));
      if c < 0 {
        q.Neg(q);
      }
    }
  }

  /** n - c * d for the quotients that a short numerator can have. */
  method ShortRemainder(r: Mpz?, n: Mpz, d: Mpz, c: int)
    requires n.Valid() && d.Valid() && (r != null ==> r.Valid()) && Target(r, n) && Target(r, d) && -1 <= c <= 1
    modifies r, if r != null then {r.d} else {}
    ensures r != null ==> r.Valid() && (r.d == old(r.d) || fresh(r.d))
    ensures r != null ==> r.Value() == old(n.Value()) - c * old(d.Value())
  {
    if r != null {
      if c == 1 {
        r.Sub(n, d);
      } else if c == -1 {
        r.Add(n, d);
      } else {
        r.Set(n);
      }
    }
  }

  // The numerator has fewer limbs than the divisor.
  method DivShort(q: Mpz?, r: Mpz?, n: Mpz, d: Mpz, mode: RoundMode, ghost x: int, ghost y: int)
    returns (ghost qv: int, ghost rv: int)
    requires n.Valid() && d.Valid() && 0 < AbsInt(n.size) < AbsInt(d.size) && x == n.Value() && y == d.Value()
    requires (q != null ==> q.Valid()) && (r != null ==> r.Valid())
    requires Target(q, n) && Target(q, d) && Target(r, n) && Target(r, d)
    requires q != null && r != null ==> q != r && q.d != r.d
    modifies q, r, if q != null then {q.d} else {}, if r != null then {r.d} else {}
    ensures IsDivision(x, y, mode, qv, rv) && rv != 0
    ensures q != null ==> q.Valid() && q.Value() == qv && (q.d == old(q.d) || fresh(q.d))
    ensures r != null ==> r.Valid() && r.Value() == rv && (r.d == old(r.d) || fresh(r.d))
    ensures q != null && r != null ==> q.d != r.d
  {
    Signs(n);
    Signs(d);
    LongerIsLarger(n.d[..AbsInt(n.size)], d.d[..AbsInt(d.size)]);
    SmallDivision(x, y, mode);
    var opposite := (n.size < 0) != (d.size < 0);
    var c := if mode == Ceil && !opposite then 1 else if mode == Floor && opposite then -1 else 0;
    qv, rv := c, x - c * y;
    ShortRemainder(r, n, d, c);
    SmallQuotient(q, c);
  }

  // The numerator has at least as many limbs as the divisor; the results are swapped in at the end.
  method DivLong(q: Mpz?, r: Mpz?, n: Mpz, d: Mpz, mode: RoundMode, ghost x: int, ghost y: int)
    returns (inexact: bool, ghost qv: int, ghost rv: int)
    requires n.Valid() && d.Valid() && 0 < AbsInt(d.size) <= AbsInt(n.size) && x == n.Value() && y == d.Value()
    requires (q != null ==> q.Valid()) && (r != null ==> r.Valid())
    requires q != null && r != null ==> q != r && q.d != r.d
    modifies q, r
    ensures IsDivision(x, y, mode, qv, rv) && inexact == (rv != 0)
    ensures q != null ==> q.Valid() && q.Value() == qv && fresh(q.d)
    ensures r != null ==> r.Valid() && r.Value() == rv && fresh(r.d)
    ensures q != null && r != null ==> q.d != r.d
  {
    var tq, tr;
    tq, tr, inexact, qv, rv := RoundedDiv(q != null, r != null, n, d, mode, x, y);
    if q != null {
      tq.Swap(q);
    }
    if r != null {
      tr.Swap(r);
    }
  }

  /** mpz_div_qr: quotient and remainder, either of them optional, under any rounding mode. The results may
      overwrite the operands. Tells whether the division is inexact. A zero divisor is fatal in the library. */
  method DivQrMpz(q: Mpz?, r: Mpz?, n: Mpz, d: Mpz, mode: RoundMode, ghost x: int, ghost y: int)
    returns (inexact: bool, ghost qv: int, ghost rv: int)
    requires n.Valid() && d.Valid() && d.size != 0 && x == n.Value() && y == d.Value()
    requires (q != null ==> q.Valid()) && (r != null ==> r.Valid())
    requires Target(q, n) && Target(q, d) && Target(r, n) && Target(r, d)
    requires q != null && r != null ==> q != r && q.d != r.d
    modifies q, r, if q != null then {q.d} else {}, if r != null then {r.d} else {}
    ensures IsDivision(x, y, mode, qv, rv) && inexact == (rv != 0)
    ensures q != null ==> q.Valid() && q.Value() == qv && (q.d == old(q.d) || fresh(q.d))
    ensures r != null ==> r.Valid() && r.Value() == rv && (r.d == old(r.d) || fresh(r.d))
    ensures q != null && r != null ==> q.d != r.d
  {
    Signs(n);
    Signs(d);
    ValEmpty();
    if n.size == 0 {
      qv, rv, inexact := 0, 0, false;
      if q != null {
        q.size := 0;
      }
      if r != null {
        r.size := 0;
      }
    } else if AbsInt(n.size) < AbsInt(d.size) {
      qv, rv := DivShort(q, r, n, d, mode, x, y);
      inexact := true;
    } else {
      inexact, qv, rv := DivLong(q, r, n, d, mode, x, y);
    }
  }
}
