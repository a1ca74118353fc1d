/** Operations on a signed number and a single limb. */
module MpzUi {
  import opened Arith
  import opened Powers
  import opened Limbs
  import opened LimbSeqs
  import opened Mpn
  import opened Mpzs
  import opened MpzDiv

  lemma SizeOfLimb(s: seq<Limb>)
    requires Normalised(s)
    ensures Val(s) < B <==> |s| <= 1
    ensures Val(s) % B == if s == [] then 0 else s[0]
  {
    ValEmpty();
    PlaceStep(0);
    ValBound(s);
    if s != [] {
      ValCons(s);
      DivModUnique(Val(s), B, Val(s[1..]), s[0]);
    }
    if |s| > 1 {
      NormalisedBound(s);
      PowMono(B, 1, |s| - 1);
    }
  }

  /** mpz_get_ui: the low limb of the magnitude. */
  method GetUi(u: Mpz) returns (r: Limb)
    requires u.Valid()
    ensures r == AbsInt(u.Value()) % B
    ensures AbsInt(u.Value()) < B ==> r == AbsInt(u.Value())
  {
    Signs(u);
    SizeOfLimb(u.d[..AbsInt(u.size)]);
    r := if u.size == 0 then 0 else u.d[0];
    if u.Magnitude() < B {
      DivModUnique(u.Magnitude(), B, 0, u.Magnitude());
    }
  }

  /** mpz_cmpabs_ui. */
  method CmpAbsUi(u: Mpz, v: Limb) returns (c: int)
    requires u.Valid()
    ensures c == Sign(AbsInt(u.Value()) - v)
  {
    Signs(u);
    SizeOfLimb(u.d[..AbsInt(u.size)]);
    if AbsInt(u.size) > 1 {
      return 1;
    }
    var uu := GetUi(u);
    c := Sign(uu - v);
  }

  /** mpz_cmp_ui. */
  method CmpUi(u: Mpz, v: Limb) returns (c: int)
    requires u.Valid()
    ensures c == Sign(u.Value() - v)
  {
    Signs(u);
    if u.size < 0 {
      c := -1;
    } else {
      c := CmpAbsUi(u, v);
    }
  }

  method DivByLimb(q: Mpz?, rr: Mpz, n: Mpz, d: Limb, mode: RoundMode, ghost x: int)
    returns (ret: Limb, ghost qv: int, ghost rv: int)
    requires n.Valid() && 0 < d && x == n.Value() && rr.Valid() && rr != n && rr.d != n.d
    requires (q != null ==> q.Valid() && q != rr && q.d != rr.d) && Target(q, n)
    modifies q, rr, rr.d, if q != null then {q.d} else {}
    ensures IsDivision(x, d, mode, qv, rv) && ret == AbsInt(rv)
    ensures q != null ==> q.Valid() && q.Value() == qv && (q.d == old(q.d) || fresh(q.d))
    ensures rr.Valid() && rr.Value() == rv && (rr.d == old(rr.d) || fresh(rr.d))
    ensures q != null ==> q.d != rr.d
  {
    var dd := new Mpz.Init();
    dd.SetUi(d);
    Signs(dd);
    var inexact;
    inexact, qv, rv := DivQrMpz(q, rr, n, dd, mode, x, d);
    ret := GetUi(rr);
  }

  /** mpz_div_qr_ui: division by a limb; the result is the magnitude of the remainder. Where q and r are one number it
      ends up as the remainder. */
  method DivQrUi(q: Mpz?, r: Mpz?, n: Mpz, d: Limb, mode: RoundMode, ghost x: int)
    returns (ret: Limb, ghost qv: int, ghost rv: int)
    requires n.Valid() && 0 < d && x == n.Value()
    requires (q != null ==> q.Valid()) && (r != null ==> r.Valid()) && Target(q, n)
    requires q != null && r != null ==> q.Apart(r)
    modifies q, r, if q != null then {q.d} else {}
    ensures IsDivision(x, d, mode, qv, rv) && ret == AbsInt(rv)
    ensures q != null && q != r ==> q.Valid() && q.Value() == qv && (q.d == old(q.d) || fresh(q.d))
    ensures r != null ==> r.Valid() && r.Value() == rv && fresh(r.d)
  {
    var rr := new Mpz.Init();
    ret, qv, rv := DivByLimb(q, rr, n, d, mode, x);
    if r != null {
      r.Swap(rr);
    }
  }

  /** mpz_mul_ui. */
  method MulUi(r: Mpz, u: Mpz, v: Limb)
    requires r.Valid() && u.Valid() && r.Apart(u)
    modifies r
    ensures r.Valid() && r.Value() == old(u.Value()) * v && (r.d == old(r.d) || fresh(r.d))
  {
    var vv := new Mpz.Init();
    vv.SetUi(v);
    r.Mul(u, vv);
  }
}
