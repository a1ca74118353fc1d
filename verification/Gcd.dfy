/** Greatest common divisors by removing factors of two. */
module GcdBinary {
  import opened Arith
  import opened Powers
  import opened Divisors
  import opened Limbs
  import opened LimbSeqs
  import opened Bits
  import opened Mpn
  import opened Mpzs
  import opened MpzDiv
  import opened MpzDiv2exp
  import opened MpzUi
  import opened MpzBits

  // --- two limbs ---

  lemma {:induction false} OrMultiple(x: nat, y: nat, k: nat)
    requires 0 < Pow2(k) && Bitwise(Or, x, y) % Pow2(k) == 0
    ensures x % Pow2(k) == 0 && y % Pow2(k) == 0
  {
    PowStep(2, 0);
    if k > 0 {
      PowStep(2, k - 1);
      PowPositive(2, k - 1);
      var r := Bitwise(Or, x, y);
      DivByProduct(r, 2, Pow2(k - 1));
      DivByProduct(x, 2, Pow2(k - 1));
      DivByProduct(y, 2, Pow2(k - 1));
      DivMod(r / 2, Pow2(k - 1));
      BitwiseUnfold(Or, x, y);
      OrMultiple(x / 2, y / 2, k - 1);
    }
  }

  /** The trailing zeros of u | v are the ones u and v share. */
  lemma SharedZeros(u: Limb, v: Limb, k: nat)
    requires 0 < Pow2(k) && k < LIMB_BITS
    requires var w := Bitwise(Or, u, v); w % Pow2(k) == 0 && w / Pow2(k) % 2 == 1
    ensures u == u / Pow2(k) * Pow2(k) && v == v / Pow2(k) * Pow2(k)
    ensures u / Pow2(k) % 2 == 1 || v / Pow2(k) % 2 == 1
  {
    OrMultiple(u, v, k);
    DivMod(u, Pow2(k));
    DivMod(v, Pow2(k));
    BitwiseBit(Or, u, v, k);
    BitIs(u, k);
    BitIs(v, k);
    BitIs(Bitwise(Or, u, v), k);
  }

  lemma OrZero(u: Limb, v: Limb)
    requires Bitwise(Or, u, v) == 0
    ensures u == 0 && v == 0
  {
    Pow2Values();
    OrMultiple(u, v, LIMB_BITS);
    DivModUnique(u, B, 0, u);
    DivModUnique(v, B, 0, v);
  }

  /** Shifts out trailing zeros. */
  method DropZeros(x: Limb, ghost odd: nat) returns (y: Limb)
    requires 0 < x && odd % 2 == 1
    ensures 0 < y <= x && y % 2 == 1 && Gcd(y, odd) == Gcd(x, odd)
  {
    y := x;
    while y % 2 == 0
      invariant 0 < y <= x && Gcd(y, odd) == Gcd(x, odd)
      decreases y
    {
      GcdHalve(y / 2, odd);
      y := y / 2;
    }
  }

  lemma GcdPositive(u: nat, v: nat)
    requires 0 < v
    ensures 0 < Gcd(u, v) <= v
  {
    GcdIsGcd(u, v);
    DividesBound(Gcd(u, v), v);
  }

  lemma GcdSame(u: nat)
    ensures Gcd(u, u) == u && Gcd(0, u) == u && Gcd(u, 0) == u
  {
    GcdSwap(0, u);
    GcdShift(u, u, 1);
  }

  // Subtracting one operand from the other.
  lemma GcdSub(u: nat, v: nat)
    requires v <= u
    ensures Gcd(u - v, v) == Gcd(u, v)
  {
    GcdShift(u, v, 1);
  }

  lemma OddDifference(u: nat, v: nat)
    requires u % 2 == 1 && v % 2 == 1 && v < u
    ensures (u - v) % 2 == 0 && 0 < (u - v) / 2 < u
    ensures Gcd((u - v) / 2, v) == Gcd(u, v)
  {
    GcdSub(u, v);
    GcdHalve((u - v) / 2, v);
  }

  // Odd limbs: the larger is replaced by the odd part of the difference until both are equal.
  method Gcd11Odd(u0: Limb, v0: Limb) returns (u: Limb)
    requires u0 % 2 == 1 && v0 % 2 == 1
    ensures u == Gcd(u0, v0)
  {
    var v: Limb := v0;
    u := u0;
    while u != v
      invariant u % 2 == 1 && v % 2 == 1 && Gcd(u, v) == Gcd(u0, v0)
      decreases u + v
    {
      GcdSwap(u, v);
      if u > v {
        OddDifference(u, v);
        u := (u - v) / 2;
        u := DropZeros(u, v);
      } else {
        OddDifference(v, u);
        v := (v - u) / 2;
        v := DropZeros(v, u);
      }
      GcdSwap(u, v);
    }
    GcdSame(u);
  }

  // Both limbs without the zeros they share.
  method ShiftOutShared(u0: Limb, v0: Limb) returns (u: Limb, v: Limb, shift: nat)
    requires 0 < u0 && 0 < v0
    ensures 0 < u && 0 < v && (u % 2 == 1 || v % 2 == 1)
    ensures Gcd(u, v) * Pow2(shift) == Gcd(u0, v0)
  {
    Pow2Values();
    BitwiseBound(Or, u0, v0, LIMB_BITS);
    if Bitwise(Or, u0, v0) == 0 {
      OrZero(u0, v0);
    }
    shift := Ctz(Bitwise(Or, u0, v0));
    SharedZeros(u0, v0, shift);
    u, v := Shr(u0, shift), Shr(v0, shift);
    GcdScale(u, v, Pow2(shift));
  }

  lemma ShiftedBack(u: Limb, shift: nat, g: nat, v: Limb)
    requires u * Pow2(shift) == g <= v
    ensures Shl(u, shift) == g
  {
    DivModUnique(g, B, 0, g);
  }

  /** mpn_gcd_11: the gcd of two limbs. */
  method Gcd11(u0: Limb, v0: Limb) returns (g: Limb)
    requires Bitwise(Or, u0, v0) > 0
    ensures g == Gcd(u0, v0)
  {
    GcdSame(u0);
    GcdSame(v0);
    if u0 == 0 {
      return v0;
    } else if v0 == 0 {
      return u0;
    }
    var u, v, shift := ShiftOutShared(u0, v0);
    GcdSwap(u, v);
    if u % 2 == 0 {
      u, v := v, u;
    }
    GcdSwap(u, v);
    v := DropZeros(v, u);
    GcdSwap(u, v);
    u := Gcd11Odd(u, v);
    GcdPositive(u0, v0);
    ShiftedBack(u, shift, Gcd(u0, v0), v0);
    g := Shl(u, shift);
  }

  // --- numbers of any size ---

  /** mpn_common_scan for a set bit: the number of trailing zeros of a positive number. */
  method ScanOne(up: array<Limb>, un: nat, ghost u: int) returns (cnt: nat)
    requires un <= up.Length && u == Val(up[..un]) && 0 < u
    ensures 0 < Pow2(cnt) && u % Pow2(cnt) == 0 && u / Pow2(cnt) % 2 == 1
  {
    ghost var U := up[..un];
    var i := 0;
    ValZeros(U[..0]);
    if un == 0 || forall k :: 0 <= k < un ==> U[k] == 0 {
      ValZeros(U);
    }
    while up[i] == 0
      invariant i < un && forall k :: 0 <= k < i ==> U[k] == 0
      decreases un - i
    {
      if i + 1 == un {
        ValZeros(U);
      }
      i := i + 1;
    }
    ValZeros(U[..i]);
    var c := Ctz(up[i]);
    cnt := LIMB_BITS * i + c;
    QuotientBits(U, i, c);
    PlaceStep(0);
    LimbBit(u, U, 0, cnt);
    BitIs(u, cnt);
    BitIs(U[i], c);
  }

  /** mpz_make_odd: divides out the largest power of two. */
  method MakeOdd(r: Mpz, ghost x: int) returns (shift: nat)
    requires r.Valid() && x == r.Value() && 0 < x
    modifies r, r.d
    ensures r.Valid() && 0 < r.Value() <= x && r.Value() % 2 == 1 && x == r.Value() * Pow2(shift)
    ensures r.d == old(r.d) || fresh(r.d)
  {
    Signs(r);
    shift := ScanOne(r.d, AbsInt(r.size), x);
    var q, m := DivQ2exp(r, r, shift, Trunc, x);
    DivMod(x, Pow2(shift));
    DivisionUnique(x, Pow2(shift), Trunc, q, m, x / Pow2(shift), 0);
    if q <= 0 {
      MulMono(q, 0, Pow2(shift));
    }
    MulMono(1, Pow2(shift), q);
  }

  lemma OneLimb(x: Mpz)
    requires x.Valid() && x.size == 1
    ensures x.Value() == x.d[0] > 0
  {
    assert x.d[..1] == [x.d[0]] && [x.d[0]][1..] == [];
    ValCons(x.d[..1]);
    ValEmpty();
  }

  lemma GcdMod(u: nat, v: nat)
    requires 0 < v
    ensures Gcd(u % v, v) == Gcd(u, v)
  {
    GcdSwap(u % v, v);
  }

  lemma GcdMakeOdd(x: nat, y: nat, k: nat, odd: nat)
    requires odd % 2 == 1 && x == y * Pow2(k)
    ensures Gcd(y, odd) == Gcd(x, odd)
  {
    GcdOdd(y, odd, k);
  }

  /** The gcd of a number and a limb that fills the other number. */
  method GcdByLimb(g: Mpz, tu: Mpz, tv: Mpz)
    requires g.Valid() && tu.Valid() && tv.Valid() && 0 <= tu.Value() && tv.size == 1
    requires g != tu && g != tv && g.d != tu.d && g.d != tv.d
    modifies g, g.d
    ensures g.Valid() && g.Value() == Gcd(old(tu.Value()), AbsInt(old(tv.Value())))
    ensures g.d == old(g.d) || fresh(g.d)
  {
    OneLimb(tv);
    var vl: Limb := tv.d[0];
    var ul: Limb, q, r := DivQrUi(null, null, tu, vl, Trunc, tu.Value());
    TruncOfPositive(tu.Value(), vl, q, r);
    GcdMod(tu.Value(), vl);
    if Bitwise(Or, ul, vl) == 0 {
      OrZero(ul, vl);
    }
    var gl := Gcd11(ul, vl);
    g.SetUi(gl);
  }

  /** Two numbers that share no limbs. */
  ghost predicate Separate(x: Mpz, y: Mpz)
    reads x, y, x.d, y.d
  {
    x.Valid() && y.Valid() && x != y && x.d != y.d
  }

  /** Makes tu odd and the larger of the two; tells whether they are equal. */
  method MakeOddAndOrder(tu: Mpz, tv: Mpz, ghost gcd: int) returns (equal: bool)
    requires Separate(tu, tv) && 0 < tu.Value() && 0 < tv.Value() && tv.Value() % 2 == 1
    requires gcd == Gcd(tu.Value(), tv.Value())
    modifies tu, tv, tu.d, tv.d
    ensures Separate(tu, tv) && 0 < tv.Value() <= tu.Value() && tu.Value() % 2 == 1 && tv.Value() % 2 == 1
    ensures gcd == Gcd(tu.Value(), tv.Value()) && equal == (tu.Value() == tv.Value())
    ensures tu.Value() + tv.Value() <= old(tu.Value()) + old(tv.Value())
    ensures fresh(tu.d) || tu.d == old(tu.d) || tu.d == old(tv.d)
    ensures fresh(tv.d) || tv.d == old(tu.d) || tv.d == old(tv.d)
  {
    ghost var x, y := tu.Value(), tv.Value();
    var shift := MakeOdd(tu, x);
    assert tv.Value() == y;
    GcdMakeOdd(x, tu.Value(), shift, y);
    GcdSwap(tu.Value(), y);
    var c := tu.Cmp(tv);
    if c < 0 {
      tu.Swap(tv);
    }
    equal := c == 0;
  }

  /** The gcd of an odd number and any positive one, by subtracting and removing powers of two. */
  method GcdSubtractive(g: Mpz, tu: Mpz, tv: Mpz, ghost gcd: int)
    requires g.Valid() && Separate(tu, tv) && g != tu && g != tv && g.d != tu.d && g.d != tv.d
    requires 0 < tu.Value() && 0 < tv.Value() && tv.Value() % 2 == 1 && gcd == Gcd(tu.Value(), tv.Value())
    modifies g, tu, tv, g.d, tu.d, tv.d
    ensures g.Valid() && g.Value() == gcd
    ensures g.d == old(g.d) || g.d == old(tu.d) || g.d == old(tv.d) || fresh(g.d)
  {
    while true
      invariant Separate(tu, tv) && g.d == old(g.d) && unchanged(g, old(g.d)) && g.d != tu.d && g.d != tv.d
      invariant fresh(tu.d) || tu.d == old(tu.d) || tu.d == old(tv.d)
      invariant fresh(tv.d) || tv.d == old(tu.d) || tv.d == old(tv.d)
      invariant 0 < tu.Value() && 0 < tv.Value() && tv.Value() % 2 == 1 && gcd == Gcd(tu.Value(), tv.Value())
      decreases tu.Value() + tv.Value()
    {
      var equal := MakeOddAndOrder(tu, tv, gcd);
      if equal {
        GcdSame(tu.Value());
        g.Swap(tu);
        break;
      }
      if tv.size == 1 {
        GcdByLimb(g, tu, tv);
        break;
      }
      GcdSub(tu.Value(), tv.Value());
      tu.Sub(tu, tv);
    }
  }

  /** The odd part of |u| and the power of two taken out. */
  method OddPartOf(t: Mpz, u: Mpz, ghost x: int) returns (shift: nat)
    requires t.Valid() && u.Valid() && t != u && t.d != u.d && x == AbsInt(u.Value()) > 0
    modifies t, t.d
    ensures t.Valid() && 0 < t.Value() && t.Value() % 2 == 1 && x == t.Value() * Pow2(shift)
    ensures t.d == old(t.d) || fresh(t.d)
  {
    t.Abs(u);
    shift := MakeOdd(t, x);
  }

  /** Orders by length and reduces the longer by the shorter, keeping the gcd. */
  method ReduceOnce(tu: Mpz, tv: Mpz, ghost gcd: int)
    requires Separate(tu, tv) && 0 < tu.Value() && 0 < tv.Value() && tu.Value() % 2 == 1 && tv.Value() % 2 == 1
    requires gcd == Gcd(tu.Value(), tv.Value())
    modifies tu, tv, tu.d, tv.d
    ensures Separate(tu, tv) && 0 <= tu.Value() < tv.Value() && tv.Value() % 2 == 1
    ensures gcd == Gcd(tu.Value(), tv.Value())
    ensures fresh(tu.d) || tu.d == old(tu.d) || tu.d == old(tv.d)
    ensures fresh(tv.d) || tv.d == old(tu.d) || tv.d == old(tv.d)
  {
    GcdSwap(tu.Value(), tv.Value());
    if tu.size < tv.size {
      tu.Swap(tv);
    }
    ghost var x, y := tu.Value(), tv.Value();
    Signs(tv);
    var _, q, r := DivQrMpz(null, tu, tu, tv, Trunc, x, y);
    TruncOfPositive(x, y, q, r);
    GcdMod(x, y);
  }

  /** The gcd of two odd numbers, which are used up. */
  method GcdOfOdd(g: Mpz, tu: Mpz, tv: Mpz, ghost gcd: int)
    requires g.Valid() && Separate(tu, tv) && g != tu && g != tv && g.d != tu.d && g.d != tv.d
    requires 0 < tu.Value() && 0 < tv.Value() && tu.Value() % 2 == 1 && tv.Value() % 2 == 1
    requires gcd == Gcd(tu.Value(), tv.Value())
    modifies g, tu, tv, g.d, tu.d, tv.d
    ensures g.Valid() && g.Value() == gcd
    ensures g.d == old(g.d) || g.d == old(tu.d) || g.d == old(tv.d) || fresh(g.d)
  {
    ReduceOnce(tu, tv, gcd);
    Signs(tu);
    if tu.size == 0 {
      GcdSame(tv.Value());
      g.Swap(tv);
    } else {
      GcdSubtractive(g, tu, tv, gcd);
    }
  }

  // Neither number is zero.
  method GcdNonzero(g: Mpz, u: Mpz, v: Mpz, ghost x: int, ghost y: int)
    requires g.Valid() && u.Valid() && v.Valid() && g.Apart(u) && g.Apart(v)
    requires x == AbsInt(u.Value()) > 0 && y == AbsInt(v.Value()) > 0
    modifies g, g.d
    ensures g.Valid() && g.Value() == Gcd(x, y)
    ensures g.d == old(g.d) || fresh(g.d)
  {
    var tu := new Mpz.Init();
    var tv := new Mpz.Init();
    var uz := OddPartOf(tu, u, x);
    var vz := OddPartOf(tv, v, y);
    var gz := if uz < vz then uz else vz;
    GcdOfShifted(tu.Value(), tv.Value(), uz, vz);
    GcdOfOdd(g, tu, tv, Gcd(tu.Value(), tv.Value()));
    g.Mul2exp(g, gz);
  }

  /** mpz_gcd: the non-negative gcd of two numbers of either sign. */
  method GcdMpz(g: Mpz, u: Mpz, v: Mpz)
    requires g.Valid() && u.Valid() && v.Valid() && g.Apart(u) && g.Apart(v)
    modifies g, g.d
    ensures g.Valid() && g.Value() == Gcd(AbsInt(old(u.Value())), AbsInt(old(v.Value())))
    ensures g.d == old(g.d) || fresh(g.d)
  {
    ghost var x, y := AbsInt(u.Value()), AbsInt(v.Value());
    Signs(u);
    Signs(v);
    GcdSame(x);
    GcdSame(y);
    if u.size == 0 {
      g.Abs(v);
      return;
    }
    if v.size == 0 {
      g.Abs(u);
      return;
    }
    GcdNonzero(g, u, v, x, y);
  }
}
