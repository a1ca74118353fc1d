/** Signed integers of any size: sign-magnitude numbers in a limb buffer that grows on demand. */
module Mpzs {
  import opened Arith
  import opened Powers
  import opened Limbs
  import opened LimbSeqs
  import opened Bits
  import opened Mpn

  function AbsInt(x: int): nat {
    if x < 0 then -x else x
  }

  class Mpz {
    var alloc: nat
    var size: int
    var d: array<Limb>

    ghost predicate Valid()
      reads this, d
    {
      && AbsInt(size) <= alloc <= d.Length
      && Normalised(d[..AbsInt(size)])
    }

    /** The number without its sign. */
    ghost function Magnitude(): int
      requires AbsInt(size) <= d.Length
      reads this, d
    {
      Val(d[..AbsInt(size)])
    }

    ghost function Value(): int
      requires AbsInt(size) <= d.Length
      reads this, d
    {
      if size < 0 then -Magnitude() else Magnitude()
    }

    /** The other number is this one or keeps its limbs elsewhere. */
    ghost predicate Apart(o: Mpz)
      reads this, o
    {
      o == this || o.d != d
    }

    // mpz_init points at a dummy limb that is never written.
    constructor Init()
      ensures Valid() && Value() == 0 && fresh(d)
    {
      alloc := 0;
      size := 0;
      d := new Limb[1](_ => 0xc1a0);
      new;
      ValEmpty();
    }

    constructor InitLimbs(n: nat)
      requires 1 <= n
      ensures Valid() && Value() == 0 && fresh(d)
      ensures n == alloc && size == 0
    {
      alloc := n;
      size := 0;
      d := new Limb[n];
      new;
      ValEmpty();
    }

    /** mpz_realloc: room for exactly n limbs and at least one. Limbs that fit keep their contents; a number that does
        not fit becomes zero. */
    method Resize(n: nat)
      requires alloc <= d.Length && AbsInt(size) <= alloc
      modifies this
      ensures alloc == d.Length == (if n < 1 then 1 else n) && fresh(d)
      ensures var kept := if old(alloc) < alloc then old(alloc) else alloc; d[..kept] == old(d[..])[..kept]
      ensures size == if AbsInt(old(size)) <= alloc then old(size) else 0
      ensures old(Valid()) ==> Valid() && Value() == if AbsInt(old(size)) <= alloc then old(Value()) else 0
    {
      var m := if n < 1 then 1 else n;
      var a := new Limb[m];
      var kept := if alloc < m then alloc else m;
      Copyi(a, 0, d, 0, kept);
      assert a[0..0 + kept] == a[..kept] && d[0..0 + kept] == d[..kept];
      assert AbsInt(size) <= kept ==> d[..AbsInt(size)] == d[..kept][..AbsInt(size)] == a[..AbsInt(size)];
      d := a;
      alloc := m;
      if AbsInt(size) > m {
        size := 0;
      }
      ValEmpty();
    }

    /** MPZ_REALLOC: the buffer stays where it is unless it is too small. */
    method Realloc(n: nat)
      requires alloc <= d.Length && AbsInt(size) <= alloc
      modifies this
      ensures alloc == (if n > old(alloc) then n else old(alloc)) <= d.Length && size == old(size)
      ensures d[..old(alloc)] == old(d[..alloc])
      ensures if n > old(alloc) then fresh(d) else d == old(d)
    {
      if n > alloc {
        Resize(n);
      }
    }

    method SetUi(x: Limb)
      requires Valid()
      modifies this, d
      ensures Valid() && Value() == x
      ensures d == old(d) || fresh(d)
    {
      if x > 0 {
        Realloc(1);
        size := 1;
        d[0] := x;
        assert d[..1] == [x] && [x][1..] == [];
        ValCons([x]);
      } else {
        size := 0;
      }
      ValEmpty();
    }

    method Set(x: Mpz)
      requires Valid() && x.Valid() && Apart(x)
      modifies this, d
      ensures Valid() && Value() == old(x.Value()) && size == old(x.size)
      ensures d == old(d) || fresh(d)
    {
      if this != x {
        var n := AbsInt(x.size);
        Realloc(n);
        Copyi(d, 0, x.d, 0, n);
        assert d[0..0 + n] == d[..n] && x.d[0..0 + n] == x.d[..n];
        size := x.size;
      }
    }

    method Neg(u: Mpz)
      requires Valid() && u.Valid() && Apart(u)
      modifies this, d
      ensures Valid() && Value() == -old(u.Value())
      ensures d == old(d) || fresh(d)
    {
      Set(u);
      size := -size;
      ValEmpty();
    }

    method Abs(u: Mpz)
      requires Valid() && u.Valid() && Apart(u)
      modifies this, d
      ensures Valid() && Value() == AbsInt(old(u.Value()))
      ensures d == old(d) || fresh(d)
    {
      Set(u);
      size := AbsInt(size);
      ValBound(d[..size]);
    }

    /** Exchanges two numbers by exchanging their buffers. */
    method Swap(v: Mpz)
      requires Valid() && v.Valid()
      modifies this, v
      ensures Valid() && v.Valid()
      ensures Value() == old(v.Value()) && v.Value() == old(Value())
      ensures d == old(v.d) && v.d == old(d)
    {
      var s, a, p := size, alloc, d;
      size, alloc, d := v.size, v.alloc, v.d;
      v.size, v.alloc, v.d := s, a, p;
    }

    // --- comparison ---

    method CmpAbs(v: Mpz) returns (c: int)
      requires Valid() && v.Valid()
      ensures c == Sign(AbsInt(Value()) - AbsInt(v.Value()))
    {
      ValBound(d[..AbsInt(size)]);
      ValBound(v.d[..AbsInt(v.size)]);
      c := Cmp4(d, AbsInt(size), v.d, AbsInt(v.size));
    }

    method Cmp(v: Mpz) returns (c: int)
      requires Valid() && v.Valid()
      ensures c == Sign(Value() - v.Value())
    {
      ghost var U, V := d[..AbsInt(size)], v.d[..AbsInt(v.size)];
      ValBound(U);
      ValBound(V);
      ValEmpty();
      PlaceStep(0);
      if U != [] { NormalisedBound(U); PlaceStep(|U| - 1); }
      if V != [] { NormalisedBound(V); PlaceStep(|V| - 1); }
      if size != v.size {
        if |U| < |V| { LongerIsLarger(U, V); }
        if |V| < |U| { LongerIsLarger(V, U); }
        c := if size < v.size then -1 else 1;
      } else if size >= 0 {
        assert d[0..0 + size] == U && v.d[0..0 + size] == V;
        c := Mpn.Cmp(d, 0, v.d, 0, size);
      } else {
        assert d[0..0 + -size] == U && v.d[0..0 + -size] == V;
        c := Mpn.Cmp(v.d, 0, d, 0, -size);
      }
    }

    // --- addition and subtraction ---

    /** |a| + |b| into this number's limbs; the sign is left to the caller. */
    method AbsAdd(a: Mpz, b: Mpz) returns (rn: nat)
      requires Valid() && a.Valid() && b.Valid() && Apart(a) && Apart(b)
      modifies this, d
      ensures rn <= alloc <= d.Length && size == old(size)
      ensures Normalised(d[..rn]) && Val(d[..rn]) == old(a.Magnitude() + b.Magnitude())
      ensures d == old(d) || fresh(d)
    {
      if AbsInt(a.size) < AbsInt(b.size) {
        rn := AbsAddLonger(b, a);
      } else {
        rn := AbsAddLonger(a, b);
      }
    }

    method AbsAddLonger(a: Mpz, b: Mpz) returns (rn: nat)
      requires Valid() && a.Valid() && b.Valid() && Apart(a) && Apart(b)
      requires AbsInt(b.size) <= AbsInt(a.size)
      modifies this, d
      ensures rn <= alloc <= d.Length && size == old(size)
      ensures Normalised(d[..rn]) && Val(d[..rn]) == old(a.Magnitude() + b.Magnitude())
      ensures d == old(d) || fresh(d)
    {
      var an, bn := AbsInt(a.size), AbsInt(b.size);
      ghost var A, C := a.d[..an], b.d[..bn];
      Realloc(an + 1);
      assert a.d[..an] == A && b.d[..bn] == C;
      rn := AddInto(d, a.d, an, b.d, bn);
    }

    /** |a| - |b| into this number's limbs; a negative length stands for a negative difference. */
    method AbsSub(a: Mpz, b: Mpz) returns (rn: int)
      requires Valid() && a.Valid() && b.Valid() && Apart(a) && Apart(b)
      modifies this, d
      ensures AbsInt(rn) <= alloc <= d.Length && size == old(size)
      ensures Normalised(d[..AbsInt(rn)])
      ensures (if rn < 0 then -Val(d[..AbsInt(rn)]) else Val(d[..AbsInt(rn)])) == old(a.Magnitude() - b.Magnitude())
      ensures d == old(d) || fresh(d)
    {
      var an, bn := AbsInt(a.size), AbsInt(b.size);
      var cmp := Cmp4(a.d, an, b.d, bn);
      if cmp > 0 {
        rn := AbsSubLarger(a, b);
      } else if cmp < 0 {
        rn := AbsSubLarger(b, a);
        rn := -rn;
      } else {
        rn := 0;
      }
      ValEmpty();
    }

    method AbsSubLarger(a: Mpz, b: Mpz) returns (rn: nat)
      requires Valid() && a.Valid() && b.Valid() && Apart(a) && Apart(b)
      requires b.Magnitude() < a.Magnitude()
      modifies this, d
      ensures rn <= alloc <= d.Length && size == old(size)
      ensures Normalised(d[..rn]) && Val(d[..rn]) == old(a.Magnitude() - b.Magnitude())
      ensures d == old(d) || fresh(d)
    {
      var an, bn := AbsInt(a.size), AbsInt(b.size);
      ghost var A, C := a.d[..an], b.d[..bn];
      if an < bn {
        LongerIsLarger(A, C);
      }
      Realloc(an);
      assert a.d[..an] == A && b.d[..bn] == C;
      var cy := Mpn.Sub(d, a.d, an, b.d, bn);
      ValBound(d[..an]);
      NoBorrow(Val(d[..an]), cy, Val(A) - Val(C), Place(an));
      rn := NormalizedSize(d, an);
    }

    method Add(a: Mpz, b: Mpz)
      requires Valid() && a.Valid() && b.Valid() && Apart(a) && Apart(b)
      modifies this, d
      ensures Valid() && Value() == old(a.Value() + b.Value())
      ensures d == old(d) || fresh(d)
    {
      var rn: int;
      var aneg := a.size < 0;
      if (a.size < 0) == (b.size < 0) {
        rn := AbsAdd(a, b);
      } else {
        rn := AbsSub(a, b);
      }
      size := if aneg then -rn else rn;
      ValEmpty();
    }

    method Sub(a: Mpz, b: Mpz)
      requires Valid() && a.Valid() && b.Valid() && Apart(a) && Apart(b)
      modifies this, d
      ensures Valid() && Value() == old(a.Value() - b.Value())
      ensures d == old(d) || fresh(d)
    {
      var rn: int;
      var aneg := a.size < 0;
      if (a.size < 0) == (b.size < 0) {
        rn := AbsSub(a, b);
      } else {
        rn := AbsAdd(a, b);
      }
      size := if aneg then -rn else rn;
      ValEmpty();
    }

    method AddUi(a: Mpz, b: Limb)
      requires Valid() && a.Valid() && Apart(a)
      modifies this, d
      ensures Valid() && Value() == old(a.Value()) + b
      ensures d == old(d) || fresh(d)
    {
      var bb := new Mpz.Init();
      bb.SetUi(b);
      Add(a, bb);
    }

    method UiSub(a: Limb, b: Mpz)
      requires Valid() && b.Valid() && Apart(b)
      modifies this, d
      ensures Valid() && Value() == a - old(b.Value())
      ensures d == old(d) || fresh(d)
    {
      Neg(b);
      AddUi(this, a);
    }

    method SubUi(a: Mpz, b: Limb)
      requires Valid() && a.Valid() && Apart(a)
      modifies this, d
      ensures Valid() && Value() == old(a.Value()) - b
      ensures d == old(d) || fresh(d)
    {
      UiSub(b, a);
      Neg(this);
    }

    // --- multiplication ---

    method Mul(u: Mpz, v: Mpz)
      requires Valid() && u.Valid() && v.Valid() && Apart(u) && Apart(v)
      modifies this
      ensures Valid() && Value() == old(u.Value()) * old(v.Value())
      ensures d == old(d) || fresh(d)
    {
      var un, vn := AbsInt(u.size), AbsInt(v.size);
      ValEmpty();
      if un == 0 || vn == 0 {
        size := 0;
        return;
      }
      var t := Product(u, v);
      Swap(t);
    }

    /** Multiplication by 2^bits. */
    method Mul2exp(u: Mpz, bits: nat)
      requires Valid() && u.Valid() && Apart(u)
      modifies this, d
      ensures Valid() && Value() == old(u.Value()) * Pow2(bits)
      ensures d == old(d) || fresh(d)
    {
      var un := AbsInt(u.size);
      var neg := u.size < 0;
      ValEmpty();
      if un == 0 {
        size := 0;
        return;
      }
      ghost var U, m := u.d[..un], u.Magnitude();
      SignedScale(neg, m, Pow2(bits), u.Value());
      Realloc(un + bits / LIMB_BITS + if bits % LIMB_BITS > 0 then 1 else 0);
      assert u.d[..un] == U;
      var rn: int := ShiftInto(d, u.d, un, bits, m);
      size := if neg then -rn else rn;
    }
  }

  /** The product of two non-zero numbers as a new one. */
  method Product(u: Mpz, v: Mpz) returns (t: Mpz)
    requires u.Valid() && v.Valid() && u.size != 0 && v.size != 0
    ensures fresh(t) && fresh(t.d) && t.Valid() && t.Value() == u.Value() * v.Value()
  {
    var un, vn := AbsInt(u.size), AbsInt(v.size);
    var sign := (u.size < 0) != (v.size < 0);
    SignedProduct(u.size < 0, v.size < 0, u.Magnitude(), v.Magnitude(), u.Value(), v.Value());
    ValEmpty();
    t := new Mpz.InitLimbs(un + vn);
    var rn: int := MulInto(t.d, u.d, un, v.d, vn);
    t.size := if sign then -rn else rn;
  }

  /** The sum with its carry limb, if there is one. */
  method AddInto(rp: array<Limb>, ap: array<Limb>, an: nat, bp: array<Limb>, bn: nat) returns (rn: nat)
    requires bn <= an < rp.Length && an <= ap.Length && bn <= bp.Length && Normalised(ap[..an])
    modifies rp
    ensures rn <= an + 1 && Normalised(rp[..rn]) && Val(rp[..rn]) == old(Val(ap[..an]) + Val(bp[..bn]))
  {
    ghost var A, c := ap[..an], Val(bp[..bn]);
    ValBound(bp[..bn]);
    var cy := Mpn.Add(rp, ap, an, bp, bn);
    ghost var R := rp[..an];
    SumNormalised(A, R, c, cy);
    rp[an] := cy;
    rn := an + cy;
    assert rp[..an + 1] == R + [cy] && rp[..an] == R;
  }

  /** The longer operand goes first. */
  method MulInto(tp: array<Limb>, up: array<Limb>, un: nat, vp: array<Limb>, vn: nat) returns (rn: nat)
    requires 1 <= un <= up.Length && 1 <= vn <= vp.Length && un + vn <= tp.Length && tp != up && tp != vp
    requires Normalised(up[..un]) && Normalised(vp[..vn])
    modifies tp
    ensures 1 <= rn <= un + vn && Normalised(tp[..rn]) && Val(tp[..rn]) == old(Val(up[..un])) * old(Val(vp[..vn]))
  {
    ghost var U, V := up[..un], vp[..vn];
    if un >= vn {
      var _ := Mpn.Mul(tp, up, un, vp, vn);
    } else {
      var _ := Mpn.Mul(tp, vp, vn, up, un);
    }
    rn := un + vn;
    ProductTop(U, V, tp[..rn]);
    if tp[rn - 1] == 0 {
      assert tp[..rn][..rn - 1] == tp[..rn - 1];
      rn := rn - 1;
    }
  }

  /** u * 2^shift, shift less than a limb, into the limbs from ro on; returns where its limbs end. */
  method ShiftLimbs(rp: array<Limb>, ro: nat, up: array<Limb>, un: nat, shift: nat, ghost u: int) returns (rn: nat)
    requires 1 <= un <= up.Length && shift < LIMB_BITS && ro + un + (if shift > 0 then 1 else 0) <= rp.Length
    requires Normalised(up[..un]) && u == Val(up[..un])
    modifies rp
    ensures ro < rn <= ro + un + (if shift > 0 then 1 else 0)
    ensures Val(rp[ro..rn]) == u * Pow2(shift) && rp[rn - 1] != 0
  {
    ghost var U := up[..un];
    rn := ro + un;
    if shift > 0 {
      var cy := Lshift(rp, ro, up, un, shift);
      ghost var R := rp[ro..rn];
      assert R == rp[ro..ro + un];
      ScaleUp(U, u, shift);
      ShiftedTopLimb(U, R, cy, u * Pow2(shift));
      rp[rn] := cy;
      assert rp[ro..rn + 1] == R + [cy] && rp[ro..rn] == R;
      if cy != 0 {
        rn := rn + 1;
      }
    } else {
      PowStep(2, 0);
      assert up[0..0 + un] == U;
      Copyd(rp, ro, up, 0, un);
      assert rp[ro..rn] == U;
    }
  }

  method ShiftInto(rp: array<Limb>, up: array<Limb>, un: nat, bits: nat, ghost u: int) returns (rn: nat)
    requires 1 <= un <= up.Length && un + bits / LIMB_BITS + (if bits % LIMB_BITS > 0 then 1 else 0) <= rp.Length
    requires Normalised(up[..un]) && u == Val(up[..un])
    modifies rp
    ensures rn <= un + bits / LIMB_BITS + (if bits % LIMB_BITS > 0 then 1 else 0)
    ensures Normalised(rp[..rn]) && Val(rp[..rn]) == u * Pow2(bits)
  {
    var limbs, shift := bits / LIMB_BITS, bits % LIMB_BITS;
    rn := ShiftLimbs(rp, limbs, up, un, shift, u);
    ghost var W := rp[limbs..rn];
    Zero(rp, 0, limbs);
    assert rp[..rn][limbs..] == W;
    ShiftedWhole(rp[..rn], limbs, bits, shift, u);
  }

  lemma ScaleUp(U: seq<Limb>, u: int, shift: nat)
    requires u == Val(U)
    ensures u <= u * Pow2(shift)
  {
    ValBound(U);
    PowPositive(2, shift);
    MulMono(1, Pow2(shift), u);
  }

  lemma SignedScale(neg: bool, u: int, k: int, x: int)
    requires x == if neg then -u else u
    ensures x * k == if neg then -(u * k) else u * k
  {
  }

  // A sum of normalised numbers is normalised once the carry limb is counted only if it is set.
  lemma SumNormalised(A: seq<Limb>, R: seq<Limb>, c: int, cy: Limb)
    requires |A| == |R| && Normalised(A) && cy <= 1 && Val(R) + cy * Place(|R|) == Val(A) + c
    ensures Val(R + [cy]) == Val(A) + c
    ensures cy == 0 ==> Val(R) == Val(A) + c
    ensures 0 <= c && cy == 0 ==> Normalised(R)
  {
    ValSnoc(R, cy);
    if 0 <= c && cy == 0 && R != [] && R[|R| - 1] == 0 {
      NormalisedBound(A);
      var i := |R| - 1;
      assert R[..i + 1] == R;
      ValPrefix(R, i);
      ValBound(R[..i]);
    }
  }

  lemma NoBorrow(v: int, cy: Limb, x: int, p: int)
    requires v - cy * p == x && 0 < x && 0 <= v < p
    ensures cy == 0 && v == x
  {
    if cy >= 1 {
      MulMono(1, cy, p);
    }
  }

  lemma ProductBelow(u: int, v: int, pu: int, pv: int)
    requires 0 < pu <= u && 0 < pv <= v
    ensures pu * pv <= u * v
  {
    MulMono(pu, u, pv);
    MulMono(pv, v, u);
  }

  // The product of two normalised numbers fills its limbs, but for possibly the top one.
  lemma ProductTop(U: seq<Limb>, V: seq<Limb>, T: seq<Limb>)
    requires U != [] && V != [] && Normalised(U) && Normalised(V)
    requires |T| == |U| + |V| && Val(T) == Val(U) * Val(V)
    ensures T[|T| - 1] == 0 ==> Normalised(T[..|T| - 1]) && Val(T[..|T| - 1]) == Val(T)
  {
    NormalisedBound(U);
    NormalisedBound(V);
    var i, j := |U| - 1, |V| - 1;
    PlaceStep(i);
    PlaceStep(j);
    ProductBelow(Val(U), Val(V), Place(i), Place(j));
    PowAdd(B, i, j);
    TopLimbOfLarge(T, Val(T));
  }

  lemma TopLimbOfLarge(T: seq<Limb>, v: int)
    requires |T| >= 2 && v == Val(T) && Place(|T| - 2) <= v
    ensures T[|T| - 1] == 0 ==> Normalised(T[..|T| - 1]) && Val(T[..|T| - 1]) == v
  {
    var n := |T| - 1;
    assert T[..n + 1] == T;
    ValPrefix(T, n);
    if T[n] == 0 && T[n - 1] == 0 {
      ValPrefix(T, n - 1);
      ValBound(T[..n - 1]);
    }
  }

  lemma SignedProduct(un: bool, vn: bool, u: int, v: int, x: int, y: int)
    requires x == (if un then -u else u) && y == (if vn then -v else v)
    ensures x * y == if un != vn then -(u * v) else u * v
  {
  }

  // After a shift the top limb is the carry, or the carry is zero and the limb below is the top.
  lemma ShiftedTopLimb(U: seq<Limb>, R: seq<Limb>, cy: Limb, v: int)
    requires |U| == |R| && U != [] && Normalised(U) && Val(R) + cy * Place(|R|) == v
    requires Val(U) <= v
    ensures Val(R + [cy]) == v
    ensures cy == 0 ==> Normalised(R) && Val(R) == v
  {
    ValSnoc(R, cy);
    NormalisedBound(U);
    var i := |R| - 1;
    assert R[..i + 1] == R;
    ValPrefix(R, i);
    ValBound(R[..i]);
  }

  lemma PlaceIsPow2(n: nat)
    ensures Place(n) == Pow2(LIMB_BITS * n)
  {
    if n == 0 {
      PowStep(B, 0);
      PowStep(2, 0);
    } else {
      PlaceIsPow2(n - 1);
      PlaceStep(n - 1);
      Pow2Values();
      PowAdd(2, LIMB_BITS, LIMB_BITS * (n - 1));
    }
  }

  // Zero limbs below, the shifted number above: together a multiple of 2^bits.
  lemma ShiftedWhole(R: seq<Limb>, limbs: nat, bits: nat, shift: nat, u: int)
    requires limbs < |R| && bits == LIMB_BITS * limbs + shift
    requires (forall k :: 0 <= k < limbs ==> R[k] == 0) && Val(R[limbs..]) == u * Pow2(shift)
    requires R[|R| - 1] != 0
    ensures Val(R) == u * Pow2(bits) && Normalised(R)
  {
    ValSplit(R, limbs);
    ValZeros(R[..limbs]);
    PlaceIsPow2(limbs);
    PowAdd(2, LIMB_BITS * limbs, shift);
    assert Place(limbs) * (u * Pow2(shift)) == u * (Place(limbs) * Pow2(shift));
  }
}
