/** In-place natural-number arithmetic on limb buffers. A pointer is an array with an offset. */
module Mpn {
  import opened Arith
  import opened Powers
  import opened Limbs
  import opened LimbSeqs
  import opened Bits

  /** Nothing but rp[lo..hi] has changed. */
  twostate predicate OnlyChanged(rp: array<Limb>, lo: int, hi: int)
    reads rp
  {
    forall k :: 0 <= k < rp.Length && !(lo <= k < hi) ==> rp[k] == old(rp[k])
  }

  // One limb position of a carry chain with place value p. A borrow is a negative carry.
  lemma CarryStep(p: int, acc: int, total: int, t: int, cy: int, r: int, cy': int)
    requires acc + cy * p == total && r + cy' * B == t + cy
    ensures acc + r * p + cy' * (B * p) == total + t * p
  {
    calc {
      acc + r * p + cy' * (B * p);
      acc + (r + cy' * B) * p;
      acc + (t + cy) * p;
      acc + cy * p + t * p;
    }
  }

  lemma ChainStep(R: seq<Limb>, total: int, t: int, cy: int, r: Limb, cy': int)
    requires Val(R) + cy * Place(|R|) == total && r + cy' * B == t + cy
    ensures Val(R + [r]) + cy' * Place(|R| + 1) == total + t * Place(|R|)
  {
    ValSnoc(R, r);
    PlaceStep(|R|);
    CarryStep(Place(|R|), Val(R), total, t, cy, r, cy');
  }

  lemma ChainStart(n: nat)
    ensures Val([]) == 0 && Place(0) == 1 && 0 < Place(n)
  {
    ValEmpty();
    PlaceStep(n);
  }

  // --- copying and comparing ---

  method Copyi(rp: array<Limb>, ro: nat, up: array<Limb>, uo: nat, n: nat)
    requires ro + n <= rp.Length && uo + n <= up.Length
    requires rp == up ==> ro <= uo
    modifies rp
    ensures rp[ro..ro + n] == old(up[uo..uo + n])
    ensures OnlyChanged(rp, ro, ro + n)
  {
    ghost var U := up[uo..uo + n];
    for i := 0 to n
      invariant forall k :: 0 <= k < i ==> rp[ro + k] == U[k]
      invariant forall k :: i <= k < n ==> up[uo + k] == U[k]
      invariant OnlyChanged(rp, ro, ro + i)
    {
      rp[ro + i] := up[uo + i];
    }
  }

  method Copyd(rp: array<Limb>, ro: nat, up: array<Limb>, uo: nat, n: nat)
    requires ro + n <= rp.Length && uo + n <= up.Length
    requires rp == up ==> uo <= ro
    modifies rp
    ensures rp[ro..ro + n] == old(up[uo..uo + n])
    ensures OnlyChanged(rp, ro, ro + n)
  {
    ghost var U := up[uo..uo + n];
    for i := n downto 0
      invariant forall k :: i <= k < n ==> rp[ro + k] == U[k]
      invariant forall k :: 0 <= k < i ==> up[uo + k] == U[k]
      invariant OnlyChanged(rp, ro + i, ro + n)
    {
      rp[ro + i] := up[uo + i];
    }
  }

  method Zero(rp: array<Limb>, ro: nat, n: nat)
    requires ro + n <= rp.Length
    modifies rp
    ensures forall k :: ro <= k < ro + n ==> rp[k] == 0
    ensures OnlyChanged(rp, ro, ro + n)
  {
    for i := n downto 0
      invariant forall k :: ro + i <= k < ro + n ==> rp[k] == 0
      invariant OnlyChanged(rp, ro + i, ro + n)
    {
      rp[ro + i] := 0;
    }
  }

  lemma {:induction false} ValZeros(s: seq<Limb>)
    ensures Val(s) == 0 <==> forall k :: 0 <= k < |s| ==> s[k] == 0
  {
    if s == [] {
      ValEmpty();
    } else {
      ValCons(s);
      ValZeros(s[1..]);
      ValBound(s[1..]);
      if forall k :: 0 <= k < |s| ==> s[k] == 0 {
        forall k | 0 <= k < |s[1..]| ensures s[1..][k] == 0 {
          assert s[1..][k] == s[k + 1];
        }
      } else if s[0] == 0 {
        var k :| 0 <= k < |s| && s[k] != 0;
        assert s[1..][k - 1] != 0;
      }
    }
  }

  // The highest limb in which two numbers differ decides their order.
  lemma TopDecides(s: seq<Limb>, t: seq<Limb>, i: nat)
    requires i < |s| == |t| && s[i] < t[i] && s[i + 1..] == t[i + 1..]
    ensures Val(s) < Val(t)
  {
    ValSplit(s, i + 1);
    ValSplit(t, i + 1);
    ValPrefix(s, i);
    ValPrefix(t, i);
    ValBound(s[..i]);
    ValBound(t[..i]);
    MulMono(s[i] + 1, t[i], Place(i));
  }

  function Sign(x: int): int {
    if x < 0 then -1 else if x == 0 then 0 else 1
  }

  method Cmp(ap: array<Limb>, ao: nat, bp: array<Limb>, bo: nat, n: nat) returns (c: int)
    requires ao + n <= ap.Length && bo + n <= bp.Length
    ensures c == Sign(Val(ap[ao..ao + n]) - Val(bp[bo..bo + n]))
  {
    ghost var A, C := ap[ao..ao + n], bp[bo..bo + n];
    for i := n downto 0
      invariant A[i..] == C[i..]
    {
      if ap[ao + i] != bp[bo + i] {
        assert A[i] == ap[ao + i] && C[i] == bp[bo + i];
        if ap[ao + i] > bp[bo + i] {
          TopDecides(C, A, i);
          return 1;
        } else {
          TopDecides(A, C, i);
          return -1;
        }
      }
      assert A[i..] == [A[i]] + A[i + 1..] && C[i..] == [C[i]] + C[i + 1..];
    }
    return 0;
  }

  /** No leading zero limb. */
  predicate Normalised(s: seq<Limb>) {
    s == [] || s[|s| - 1] != 0
  }

  lemma NormalisedBound(s: seq<Limb>)
    requires Normalised(s) && s != []
    ensures Place(|s| - 1) <= Val(s)
  {
    var i := |s| - 1;
    ValPrefix(s, i);
    assert s[..i + 1] == s;
    ValBound(s[..i]);
    MulMono(1, s[i], Place(i));
    PlaceStep(i);
  }

  /** Numbers without leading zeros are ordered by length first. */
  lemma LongerIsLarger(s: seq<Limb>, t: seq<Limb>)
    requires |s| < |t| && Normalised(t)
    ensures Val(s) < Val(t)
  {
    ValBound(s);
    NormalisedBound(t);
    PowMono(B, |s|, |t| - 1);
  }

  method Cmp4(ap: array<Limb>, an: nat, bp: array<Limb>, bn: nat) returns (c: int)
    requires an <= ap.Length && bn <= bp.Length
    requires Normalised(ap[..an]) && Normalised(bp[..bn])
    ensures c == Sign(Val(ap[..an]) - Val(bp[..bn]))
  {
    if an != bn {
      if an < bn {
        LongerIsLarger(ap[..an], bp[..bn]);
        c := -1;
      } else {
        LongerIsLarger(bp[..bn], ap[..an]);
        c := 1;
      }
    } else {
      assert ap[0..0 + an] == ap[..an] && bp[0..0 + an] == bp[..bn];
      c := Cmp(ap, 0, bp, 0, an);
    }
  }

  method NormalizedSize(xp: array<Limb>, n: nat) returns (m: nat)
    requires n <= xp.Length
    ensures m <= n && Normalised(xp[..m]) && Val(xp[..m]) == Val(xp[..n])
  {
    m := n;
    while m > 0 && xp[m - 1] == 0
      invariant m <= n && Val(xp[..m]) == Val(xp[..n])
    {
      assert xp[..m] == xp[..m - 1] + [0];
      ValSnoc(xp[..m - 1], 0);
      m := m - 1;
    }
  }

  method ZeroP(xp: array<Limb>, n: nat) returns (b: bool)
    requires n <= xp.Length
    ensures b == (Val(xp[..n]) == 0)
  {
    var m := NormalizedSize(xp, n);
    ValZeros(xp[..m]);
    b := m == 0;
  }

  // --- addition and subtraction ---

  method AddLimbs(a: Limb, b: Limb, cy: Limb) returns (r: Limb, cy': Limb)
    requires cy <= 1
    ensures r + cy' * B == a + b + cy && cy' <= 1
  {
    r := Wrap(a + cy);
    cy' := if r < cy then 1 else 0;
    r := Wrap(r + b);
    cy' := cy' + if r < b then 1 else 0;
  }

  lemma SumOfPrefixes(A: seq<Limb>, C: seq<Limb>, i: nat, sign: int)
    requires i < |A| && i < |C|
    ensures var a: int, c: int := A[i], C[i];
            Val(A[..i + 1]) + sign * Val(C[..i + 1])
            == Val(A[..i]) + sign * Val(C[..i]) + (a + sign * c) * Place(i)
  {
    var a: int, c: int := A[i], C[i];
    ValPrefix(A, i);
    ValPrefix(C, i);
    Distribute(sign, Val(C[..i]), c * Place(i));
    Assoc(sign, c, Place(i));
  }

  method AddN(rp: array<Limb>, ro: nat, ap: array<Limb>, ao: nat, bp: array<Limb>, bo: nat, n: nat) returns (cy: Limb)
    requires ro + n <= rp.Length && ao + n <= ap.Length && bo + n <= bp.Length
    requires (rp == ap ==> ro == ao) && (rp == bp ==> ro == bo)
    modifies rp
    ensures cy <= 1
    ensures Val(rp[ro..ro + n]) + cy * Place(n) == old(Val(ap[ao..ao + n]) + Val(bp[bo..bo + n]))
    ensures OnlyChanged(rp, ro, ro + n)
  {
    ghost var A, C, R := ap[ao..ao + n], bp[bo..bo + n], [];
    cy := 0;
    for i := 0 to n
      invariant cy <= 1 && |R| == i
      invariant forall k :: 0 <= k < i ==> rp[ro + k] == R[k]
      invariant forall k :: i <= k < n ==> ap[ao + k] == A[k] && bp[bo + k] == C[k]
      invariant OnlyChanged(rp, ro, ro + i)
      invariant Val(R) + cy * Place(i) == Val(A[..i]) + 1 * Val(C[..i])
    {
      ghost var c0 := cy;
      var r;
      r, cy := AddLimbs(ap[ao + i], bp[bo + i], cy);
      rp[ro + i] := r;
      SumOfPrefixes(A, C, i, 1);
      ghost var a: int, c: int := A[i], C[i];
      ChainStep(R, Val(A[..i]) + 1 * Val(C[..i]), a + 1 * c, c0, r, cy);
      R := R + [r];
    }
    assert rp[ro..ro + n] == R && A[..n] == A && C[..n] == C;
  }

  method Add1(rp: array<Limb>, ro: nat, ap: array<Limb>, ao: nat, n: nat, b: Limb) returns (cy: Limb)
    requires 0 < n && ro + n <= rp.Length && ao + n <= ap.Length
    requires rp == ap ==> ro == ao
    modifies rp
    ensures cy <= 1
    ensures Val(rp[ro..ro + n]) + cy * Place(n) == old(Val(ap[ao..ao + n])) + b
    ensures OnlyChanged(rp, ro, ro + n)
  {
    ghost var A, R := ap[ao..ao + n], [];
    ChainStart(n);
    cy := b;
    for i := 0 to n
      invariant |R| == i && (i > 0 ==> cy <= 1)
      invariant forall k :: 0 <= k < i ==> rp[ro + k] == R[k]
      invariant forall k :: i <= k < n ==> ap[ao + k] == A[k]
      invariant OnlyChanged(rp, ro, ro + i)
      invariant Val(R) + cy * Place(i) == Val(A[..i]) + b
    {
      ghost var c0 := cy;
      var r := Wrap(ap[ao + i] + cy);
      cy := if r < cy then 1 else 0;
      rp[ro + i] := r;
      ValPrefix(A, i);
      ChainStep(R, Val(A[..i]) + b, A[i], c0, r, cy);
      R := R + [r];
    }
    assert rp[ro..ro + n] == R && A[..n] == A;
  }

  method SubLimbs(a: Limb, b: Limb, cy: Limb) returns (r: Limb, cy': Limb)
    requires cy <= 1
    ensures r - cy' * B == a - b - cy && cy' <= 1
  {
    var b' := Wrap(b + cy);
    cy' := if b' < cy then 1 else 0;
    cy' := cy' + if a < b' then 1 else 0;
    r := Wrap(a - b');
  }

  method SubN(rp: array<Limb>, ro: nat, ap: array<Limb>, ao: nat, bp: array<Limb>, bo: nat, n: nat) returns (cy: Limb)
    requires ro + n <= rp.Length && ao + n <= ap.Length && bo + n <= bp.Length
    requires (rp == ap ==> ro == ao) && (rp == bp ==> ro == bo)
    modifies rp
    ensures cy <= 1
    ensures Val(rp[ro..ro + n]) - cy * Place(n) == old(Val(ap[ao..ao + n]) - Val(bp[bo..bo + n]))
    ensures OnlyChanged(rp, ro, ro + n)
  {
    ghost var A, C, R := ap[ao..ao + n], bp[bo..bo + n], [];
    cy := 0;
    for i := 0 to n
      invariant cy <= 1 && |R| == i
      invariant forall k :: 0 <= k < i ==> rp[ro + k] == R[k]
      invariant forall k :: i <= k < n ==> ap[ao + k] == A[k] && bp[bo + k] == C[k]
      invariant OnlyChanged(rp, ro, ro + i)
      invariant Val(R) + (0 - cy) * Place(i) == Val(A[..i]) + -1 * Val(C[..i])
    {
      ghost var c0: int := cy;
      var r;
      r, cy := SubLimbs(ap[ao + i], bp[bo + i], cy);
      rp[ro + i] := r;
      SumOfPrefixes(A, C, i, -1);
      ghost var a: int, c: int, c1: int := A[i], C[i], cy;
      ChainStep(R, Val(A[..i]) + -1 * Val(C[..i]), a + -1 * c, 0 - c0, r, 0 - c1);
      R := R + [r];
    }
    assert rp[ro..ro + n] == R && A[..n] == A && C[..n] == C;
  }

  method Sub1(rp: array<Limb>, ro: nat, ap: array<Limb>, ao: nat, n: nat, b: Limb) returns (cy: Limb)
    requires 0 < n && ro + n <= rp.Length && ao + n <= ap.Length
    requires rp == ap ==> ro == ao
    modifies rp
    ensures cy <= 1
    ensures Val(rp[ro..ro + n]) - cy * Place(n) == old(Val(ap[ao..ao + n])) - b
    ensures OnlyChanged(rp, ro, ro + n)
  {
    ghost var A, R := ap[ao..ao + n], [];
    ChainStart(n);
    cy := b;
    for i := 0 to n
      invariant |R| == i && (i > 0 ==> cy <= 1)
      invariant forall k :: 0 <= k < i ==> rp[ro + k] == R[k]
      invariant forall k :: i <= k < n ==> ap[ao + k] == A[k]
      invariant OnlyChanged(rp, ro, ro + i)
      invariant Val(R) + (0 - cy) * Place(i) == Val(A[..i]) - b
    {
      ghost var c0: int := cy;
      var a := ap[ao + i];
      var c: Limb := if a < cy then 1 else 0;
      rp[ro + i] := Wrap(a - cy);
      cy := c;
      ValPrefix(A, i);
      ghost var c1: int := cy;
      ChainStep(R, Val(A[..i]) - b, A[i], 0 - c0, rp[ro + i], 0 - c1);
      R := R + [rp[ro + i]];
    }
    assert rp[ro..ro + n] == R && A[..n] == A;
  }

  method Add(rp: array<Limb>, ap: array<Limb>, an: nat, bp: array<Limb>, bn: nat) returns (cy: Limb)
    requires bn <= an <= rp.Length && an <= ap.Length && bn <= bp.Length
    modifies rp
    ensures cy <= 1
    ensures Val(rp[..an]) + cy * Place(an) == old(Val(ap[..an]) + Val(bp[..bn]))
    ensures OnlyChanged(rp, 0, an)
  {
    ghost var A, C := ap[..an], bp[..bn];
    cy := AddN(rp, 0, ap, 0, bp, 0, bn);
    ghost var lo, cl := rp[..bn], cy;
    ValSplit(A, bn);
    assert A[..bn] == old(ap[0..0 + bn]) && A[bn..] == old(ap[bn..an]);
    if an > bn {
      assert ap[bn..an] == A[bn..];
      cy := Add1(rp, bn, ap, bn, an - bn, cy);
      JoinCarry(lo, rp[bn..an], cl, cy, Val(A[..bn]) + Val(C), Val(A[bn..]));
      assert rp[..an] == lo + rp[bn..an];
    } else {
      ValEmpty();
    }
  }

  // A carry (or borrow, if negative) handed from the low part of a chain to its high part.
  lemma JoinCarry(lo: seq<Limb>, hi: seq<Limb>, cl: int, ch: int, lowTotal: int, highTotal: int)
    requires Val(lo) + cl * Place(|lo|) == lowTotal
    requires Val(hi) + ch * Place(|hi|) == highTotal + cl
    ensures Val(lo + hi) + ch * Place(|lo| + |hi|) == lowTotal + Place(|lo|) * highTotal
  {
    ValConcat(lo, hi);
    PowAdd(B, |lo|, |hi|);
    var p, q, v := Place(|lo|), Place(|hi|), Val(hi);
    calc {
      p * v + ch * (p * q);
      p * (v + ch * q);
      p * (highTotal + cl);
    }
  }

  lemma JoinBorrow(lo: seq<Limb>, hi: seq<Limb>, A: seq<Limb>, c: int, cl: int, ch: int)
    requires |A| == |lo| + |hi|
    requires Val(lo) - cl * Place(|lo|) == Val(A[..|lo|]) - c
    requires Val(hi) - ch * Place(|hi|) == Val(A[|lo|..]) - cl
    ensures Val(lo + hi) - ch * Place(|A|) == Val(A) - c
  {
    ValSplit(A, |lo|);
    NegatedProduct(Place(|lo|), cl);
    NegatedProduct(Place(|hi|), ch);
    NegatedProduct(Place(|A|), ch);
    JoinCarry(lo, hi, 0 - cl, 0 - ch, Val(A[..|lo|]) - c, Val(A[|lo|..]));
  }

  method Sub(rp: array<Limb>, ap: array<Limb>, an: nat, bp: array<Limb>, bn: nat) returns (cy: Limb)
    requires bn <= an <= rp.Length && an <= ap.Length && bn <= bp.Length
    modifies rp
    ensures cy <= 1
    ensures Val(rp[..an]) - cy * Place(an) == old(Val(ap[..an]) - Val(bp[..bn]))
    ensures OnlyChanged(rp, 0, an)
  {
    ghost var A, C := ap[..an], bp[..bn];
    cy := SubN(rp, 0, ap, 0, bp, 0, bn);
    ghost var lo: seq<Limb>, cl: int := rp[..bn], cy;
    assert lo == rp[0..0 + bn] && C == old(bp[0..0 + bn]) && A[..bn] == old(ap[0..0 + bn]);
    if an > bn {
      assert A[bn..] == old(ap[bn..an]) == ap[bn..an];
      cy := Sub1(rp, bn, ap, bn, an - bn, cy);
      JoinBorrow(lo, rp[bn..an], A, Val(C), cl, cy);
      assert rp[..an] == lo + rp[bn..an];
    }
  }

  // --- multiplication by one limb ---

  lemma ProductBound(u: Limb, v: Limb)
    ensures 0 <= u * v <= (B - 1) * (B - 1)
  {
    MulBound(u, v, B - 1, B - 1);
  }

  method MulLimb(u: Limb, v: Limb, c: Limb) returns (l: Limb, c': Limb)
    ensures l + c' * B == u * v + c
  {
    var hpl, lpl := UmulPpmm(u, v);
    ProductBound(u, v);
    l := Wrap(lpl + c);
    c' := (if l < c then 1 else 0) + hpl;
  }

  lemma ProductOfPrefix(A: seq<Limb>, v: int, i: nat)
    requires i < |A|
    ensures var a: int := A[i]; Val(A[..i + 1]) * v == Val(A[..i]) * v + a * v * Place(i)
  {
    var a: int := A[i];
    ValPrefix(A, i);
    Distribute(v, Val(A[..i]), a * Place(i));
    assert a * Place(i) * v == a * v * Place(i);
  }

  method Mul1(rp: array<Limb>, ro: nat, up: array<Limb>, uo: nat, n: nat, vl: Limb) returns (cl: Limb)
    requires ro + n <= rp.Length && uo + n <= up.Length
    requires rp == up ==> ro <= uo
    modifies rp
    ensures Val(rp[ro..ro + n]) + cl * Place(n) == old(Val(up[uo..uo + n])) * vl
    ensures OnlyChanged(rp, ro, ro + n)
  {
    ghost var A, R := up[uo..uo + n], [];
    ChainStart(n);
    cl := 0;
    for i := 0 to n
      invariant |R| == i
      invariant forall k :: 0 <= k < i ==> rp[ro + k] == R[k]
      invariant forall k :: i <= k < n ==> up[uo + k] == A[k]
      invariant OnlyChanged(rp, ro, ro + i)
      invariant Val(R) + cl * Place(i) == Val(A[..i]) * vl
    {
      ghost var c0 := cl;
      var lpl;
      ghost var a: int := A[i];
      lpl, cl := MulLimb(up[uo + i], vl, cl);
      rp[ro + i] := lpl;
      ProductOfPrefix(A, vl, i);
      ChainStep(R, Val(A[..i]) * vl, a * vl, c0, lpl, cl);
      R := R + [lpl];
    }
    assert rp[ro..ro + n] == R && A[..n] == A;
  }

  method AddMulLimb(rl: Limb, u: Limb, v: Limb, c: Limb) returns (l: Limb, c': Limb)
    ensures l + c' * B == rl + u * v + c
  {
    var lpl;
    ProductBound(u, v);
    lpl, c' := MulLimb(u, v, c);
    l := Wrap(rl + lpl);
    c' := c' + if l < rl then 1 else 0;
  }

  method AddMul1(rp: array<Limb>, ro: nat, up: array<Limb>, uo: nat, n: nat, vl: Limb) returns (cl: Limb)
    requires ro + n <= rp.Length && uo + n <= up.Length
    requires rp == up ==> ro <= uo
    modifies rp
    ensures Val(rp[ro..ro + n]) + cl * Place(n) == old(Val(rp[ro..ro + n])) + old(Val(up[uo..uo + n])) * vl
    ensures OnlyChanged(rp, ro, ro + n)
  {
    ghost var O, A, R := rp[ro..ro + n], up[uo..uo + n], [];
    ChainStart(n);
    cl := 0;
    for i := 0 to n
      invariant |R| == i
      invariant forall k :: 0 <= k < i ==> rp[ro + k] == R[k]
      invariant forall k :: i <= k < n ==> rp[ro + k] == O[k]
      invariant forall k :: i <= k < n ==> up[uo + k] == A[k]
      invariant OnlyChanged(rp, ro, ro + i)
      invariant Val(R) + cl * Place(i) == Val(O[..i]) + Val(A[..i]) * vl
    {
      ghost var c0 := cl;
      var lpl;
      ghost var a: int, o: int := A[i], O[i];
      lpl, cl := AddMulLimb(rp[ro + i], up[uo + i], vl, cl);
      rp[ro + i] := lpl;
      AddMulStep(O, A, vl, i);
      ChainStep(R, Val(O[..i]) + Val(A[..i]) * vl, o + a * vl, c0, lpl, cl);
      R := R + [lpl];
    }
    assert rp[ro..ro + n] == R && A[..n] == A && O[..n] == O;
  }

  // v may be negative, for submul_1.
  lemma AddMulStep(O: seq<Limb>, A: seq<Limb>, v: int, i: nat)
    requires i < |A| && i < |O|
    ensures var a: int, o: int := A[i], O[i];
            Val(O[..i + 1]) + Val(A[..i + 1]) * v == Val(O[..i]) + Val(A[..i]) * v + (o + a * v) * Place(i)
  {
    var a: int, o: int := A[i], O[i];
    ValPrefix(O, i);
    ProductOfPrefix(A, v, i);
    Distribute(Place(i), o, a * v);
  }

  method SubMulLimb(rl: Limb, u: Limb, v: Limb, c: Limb) returns (l: Limb, c': Limb)
    ensures l - c' * B == rl - u * v - c
  {
    var lpl;
    ProductBound(u, v);
    lpl, c' := MulLimb(u, v, c);
    l := Wrap(rl - lpl);
    c' := c' + if l > rl then 1 else 0;
  }

  lemma SubMulStep(R: seq<Limb>, O: seq<Limb>, A: seq<Limb>, vl: int, i: nat, lpl: Limb, c0: int, c1: int)
    requires i < |A| && i < |O| && i == |R|
    requires var a: int, o: int := A[i], O[i]; lpl - c1 * B == o - a * vl - c0
    requires Val(R) - c0 * Place(i) == Val(O[..i]) - Val(A[..i]) * vl
    ensures Val(R + [lpl]) - c1 * Place(i + 1) == Val(O[..i + 1]) - Val(A[..i + 1]) * vl
  {
    var a: int, o: int := A[i], O[i];
    AddMulStep(O, A, 0 - vl, i);
    NegatedProduct(a, vl);
    NegatedProduct(Val(A[..i]), vl);
    NegatedProduct(Val(A[..i + 1]), vl);
    ChainStep(R, Val(O[..i]) - Val(A[..i]) * vl, o - a * vl, 0 - c0, lpl, 0 - c1);
  }

  lemma NegatedProduct(a: int, v: int)
    ensures a * (0 - v) == -(a * v)
  {
  }

  method SubMul1(rp: array<Limb>, ro: nat, up: array<Limb>, uo: nat, n: nat, vl: Limb) returns (cl: Limb)
    requires ro + n <= rp.Length && uo + n <= up.Length
    requires rp == up ==> ro <= uo
    modifies rp
    ensures Val(rp[ro..ro + n]) - cl * Place(n) == old(Val(rp[ro..ro + n])) - old(Val(up[uo..uo + n])) * vl
    ensures OnlyChanged(rp, ro, ro + n)
  {
    ghost var O, A, R := rp[ro..ro + n], up[uo..uo + n], [];
    ChainStart(n);
    cl := 0;
    for i := 0 to n
      invariant |R| == i
      invariant forall k :: 0 <= k < i ==> rp[ro + k] == R[k]
      invariant forall k :: i <= k < n ==> rp[ro + k] == O[k]
      invariant forall k :: i <= k < n ==> up[uo + k] == A[k]
      invariant OnlyChanged(rp, ro, ro + i)
      invariant Val(R) - cl * Place(i) == Val(O[..i]) - Val(A[..i]) * vl
    {
      ghost var c0: int := cl;
      var lpl;
      lpl, cl := SubMulLimb(rp[ro + i], up[uo + i], vl, cl);
      rp[ro + i] := lpl;
      SubMulStep(R, O, A, vl, i, lpl, c0, cl);
      R := R + [lpl];
    }
    assert rp[ro..ro + n] == R && A[..n] == A && O[..n] == O;
  }

  // --- full product ---

  lemma MulStep(u: int, V: seq<Limb>, j: nat, low: int, mid: int, mid': int, p: int)
    requires j < |V| && p == Place(j)
    requires low + p * mid == u * Val(V[..j])
    requires mid' == mid + u * V[j]
    ensures low + p * mid' == u * Val(V[..j + 1])
  {
    ValPrefix(V, j);
    var v: int := V[j];
    Distribute(p, mid, u * v);
    Distribute(u, Val(V[..j]), v * p);
    assert p * (u * v) == u * (v * p);
  }

  // One row of the schoolbook product.
  method MulRow(rp: array<Limb>, up: array<Limb>, un: nat, vl: Limb, j: nat, ghost u: int, ghost V: seq<Limb>)
    requires 1 <= un <= up.Length && un + j < rp.Length && rp != up && u == Val(up[..un])
    requires j < |V| && vl == V[j] && Val(rp[..un + j]) == u * Val(V[..j])
    modifies rp
    ensures Val(rp[..un + j + 1]) == u * Val(V[..j + 1])
    ensures OnlyChanged(rp, 0, un + j + 1)
  {
    ghost var before := rp[..un + j];
    ValSplit(before, j);
    assert before[j..] == rp[j..j + un] && up[0..0 + un] == up[..un];
    var c := AddMul1(rp, j, up, 0, un, vl);
    rp[un + j] := c;
    ghost var after := rp[..un + j + 1];
    assert after[..j] == before[..j];
    assert after[j..] == rp[j..j + un] + [c];
    ValSnoc(rp[j..j + un], c);
    ValSplit(after, j);
    MulStep(u, V, j, Val(before[..j]), Val(before[j..]), Val(after[j..]), Place(j));
  }

  /** Schoolbook product, accumulated limb by limb. */
  method Mul(rp: array<Limb>, up: array<Limb>, un: nat, vp: array<Limb>, vn: nat) returns (top: Limb)
    requires 1 <= vn <= un && un + vn <= rp.Length && un <= up.Length && vn <= vp.Length
    requires rp != up && rp != vp
    modifies rp
    ensures Val(rp[..un + vn]) == Val(up[..un]) * Val(vp[..vn])
    ensures top == rp[un + vn - 1]
    ensures OnlyChanged(rp, 0, un + vn)
  {
    ghost var u, V := Val(up[..un]), vp[..vn];
    assert up[0..0 + un] == up[..un];
    var c := Mul1(rp, 0, up, 0, un, vp[0]);
    rp[un] := c;
    ValPrefix(rp[..], un);
    assert rp[..][..un] == rp[0..0 + un] && rp[..][..un + 1] == rp[..un + 1];
    ValSnoc([], V[0]);
    ValEmpty();
    PlaceStep(0);
    assert V[..1] == [] + [V[0]];
    for j := 1 to vn
      invariant Val(rp[..un + j]) == u * Val(V[..j])
      invariant OnlyChanged(rp, 0, un + j)
    {
      MulRow(rp, up, un, vp[j], j, u, V);
    }
    assert V[..vn] == V;
    top := rp[un + vn - 1];
  }

  // --- shifts ---

  lemma LshiftAlgebra(low: int, w: int, p: int, high: int, v: int, ret: int, place: int, lo: int, hi: int)
    requires w * p == high + B * v + ret * place && low * p == lo + hi * B
    ensures (low + B * w) * p == lo + B * (high + hi + B * v) + ret * (B * place)
  {
    assert (low + B * w) * p == low * p + B * (w * p);
    assert ret * (B * place) == B * (ret * place);
  }

  // Limbs W are done: R is written, high is pending below it, ret has left at the top.
  ghost predicate Shifted(W: seq<Limb>, cnt: nat, high: Limb, R: seq<Limb>, ret: int) {
    && 0 < Pow2(cnt) && high % Pow2(cnt) == 0
    && Val(W) * Pow2(cnt) == high + B * Val(R) + ret * Place(|W|)
  }

  lemma LshiftStart(low: Limb, cnt: nat)
    requires 1 <= cnt < LIMB_BITS
    ensures Shifted([low], cnt, Shl(low, cnt), [], Shr(low, LIMB_BITS - cnt))
  {
    ShlSplit(low, cnt);
    ValCons([low]);
    assert [low][1..] == [];
    ValEmpty();
    PlaceStep(0);
  }

  lemma LshiftStep(low: Limb, cnt: nat, high: Limb, R: seq<Limb>, W: seq<Limb>, ret: int)
    requires 1 <= cnt < LIMB_BITS && Shifted(W, cnt, high, R, ret)
    ensures Shr(low, LIMB_BITS - cnt) < Pow2(cnt)
    ensures Shifted([low] + W, cnt, Shl(low, cnt), [OrDisjoint(high, Shr(low, LIMB_BITS - cnt), cnt)] + R, ret)
  {
    ShlSplit(low, cnt);
    var c := OrDisjoint(high, Shr(low, LIMB_BITS - cnt), cnt);
    ValCons([low] + W);
    ValCons([c] + R);
    assert ([low] + W)[1..] == W && ([c] + R)[1..] == R;
    PlaceStep(|W|);
    LshiftAlgebra(low, Val(W), Pow2(cnt), high, Val(R), ret, Place(|W|), Shl(low, cnt), Shr(low, LIMB_BITS - cnt));
  }

  lemma LshiftEnd(W: seq<Limb>, cnt: nat, high: Limb, R: seq<Limb>, ret: int)
    requires Shifted(W, cnt, high, R, ret)
    ensures Val([high] + R) + ret * Place(|W|) == Val(W) * Pow2(cnt)
  {
    ValCons([high] + R);
    assert ([high] + R)[1..] == R;
  }

  /** Shift up by cnt bits, from the top limb down; the bits shifted out are returned. */
  method Lshift(rp: array<Limb>, ro: nat, up: array<Limb>, n: nat, cnt: nat) returns (retval: Limb)
    requires 1 <= n && ro + n <= rp.Length && n <= up.Length
    requires 1 <= cnt < LIMB_BITS
    modifies rp
    ensures Val(rp[ro..ro + n]) + retval * Place(n) == old(Val(up[..n])) * Pow2(cnt)
    ensures OnlyChanged(rp, ro, ro + n)
  {
    ghost var U := up[..n];
    var tnc := LIMB_BITS - cnt;
    var low: Limb := up[n - 1];
    retval := Shr(low, tnc);
    var high: Limb := Shl(low, cnt);
    LshiftStart(low, cnt);
    assert U[n - 1..] == [low] && rp[ro + n..ro + n] == [];
    for i := n - 1 downto 0
      invariant forall k :: 0 <= k < i ==> up[k] == U[k]
      invariant OnlyChanged(rp, ro, ro + n)
      invariant Shifted(U[i..], cnt, high, rp[ro + i + 1..ro + n], retval)
    {
      low := up[i];
      ghost var R := rp[ro + i + 2..ro + n];
      assert U[i..] == [low] + U[i + 1..];
      LshiftStep(low, cnt, high, R, U[i + 1..], retval);
      rp[ro + i + 1] := OrDisjoint(high, Shr(low, tnc), cnt);
      assert rp[ro + i + 1..ro + n] == [rp[ro + i + 1]] + R;
      high := Shl(low, cnt);
    }
    ghost var R := rp[ro + 1..ro + n];
    LshiftEnd(U, cnt, high, R, retval);
    rp[ro] := high;
    assert rp[ro..ro + n] == [high] + R;
  }

  // Limbs W are read: R is written, low is pending above it, ret has left at the bottom.
  ghost predicate ShiftedDown(W: seq<Limb>, tnc: nat, low: Limb, R: seq<Limb>, ret: int) {
    && |W| == |R| + 1 && low < Pow2(tnc)
    && Val(W) * Pow2(tnc) == ret + B * (Val(R) + low * Place(|R|))
  }

  lemma RshiftStart(first: Limb, tnc: nat)
    requires 1 <= tnc < LIMB_BITS
    ensures ShiftedDown([first], tnc, Shr(first, LIMB_BITS - tnc), [], Shl(first, tnc))
  {
    ShlSplit(first, tnc);
    ValCons([first]);
    assert [first][1..] == [];
    ValEmpty();
    PlaceStep(0);
  }

  lemma RshiftAlgebra(w: int, u: int, p: int, ret: int, v: int, low: int, place: int, lo: int, hi: int)
    requires w * p == ret + B * (v + low * place) && u * p == lo + hi * B
    ensures (w + u * (B * place)) * p == ret + B * (v + (lo + low) * place + hi * (B * place))
  {
    assert u * (B * place) * p == u * p * (B * place);
    assert (lo + hi * B) * (B * place) == B * (lo * place) + B * (hi * (B * place));
  }

  lemma RshiftStep(u: Limb, tnc: nat, low: Limb, R: seq<Limb>, W: seq<Limb>, ret: int)
    requires 1 <= tnc < LIMB_BITS && ShiftedDown(W, tnc, low, R, ret)
    ensures 0 < Pow2(tnc) && Shl(u, tnc) % Pow2(tnc) == 0
    ensures ShiftedDown(W + [u], tnc, Shr(u, LIMB_BITS - tnc), R + [OrDisjoint(Shl(u, tnc), low, tnc)], ret)
  {
    ShlSplit(u, tnc);
    var c := OrDisjoint(Shl(u, tnc), low, tnc);
    ValSnoc(W, u);
    ValSnoc(R, c);
    PlaceStep(|R|);
    PlaceStep(|R| + 1);
    RshiftAlgebra(Val(W), u, Pow2(tnc), ret, Val(R), low, Place(|R|), Shl(u, tnc), Shr(u, LIMB_BITS - tnc));
  }

  lemma RshiftEnd(W: seq<Limb>, tnc: nat, low: Limb, R: seq<Limb>, ret: int)
    requires ShiftedDown(W, tnc, low, R, ret)
    ensures Val(W) * Pow2(tnc) == ret + B * Val(R + [low])
  {
    ValSnoc(R, low);
  }

  /** Shift down by cnt bits, from the bottom limb up; the bits shifted out are returned, left-justified. */
  method Rshift(rp: array<Limb>, up: array<Limb>, uo: nat, n: nat, cnt: nat) returns (retval: Limb)
    requires 1 <= n && n <= rp.Length && uo + n <= up.Length
    requires 1 <= cnt < LIMB_BITS
    modifies rp
    ensures old(Val(up[uo..uo + n])) * Pow2(LIMB_BITS - cnt) == retval + B * Val(rp[..n])
    ensures OnlyChanged(rp, 0, n)
  {
    ghost var U, R := up[uo..uo + n], [];
    var tnc := LIMB_BITS - cnt;
    var high: Limb := up[uo];
    retval := Shl(high, tnc);
    var low: Limb := Shr(high, cnt);
    RshiftStart(high, tnc);
    assert U[..1] == [high];
    for i := 1 to n
      invariant rp[..i - 1] == R
      invariant forall k :: i <= k < n ==> up[uo + k] == U[k]
      invariant OnlyChanged(rp, 0, i - 1)
      invariant ShiftedDown(U[..i], tnc, low, R, retval)
    {
      high := up[uo + i];
      RshiftStep(high, tnc, low, R, U[..i], retval);
      assert U[..i + 1] == U[..i] + [high];
      rp[i - 1] := OrDisjoint(Shl(high, tnc), low, tnc);
      R := R + [rp[i - 1]];
      low := Shr(high, cnt);
    }
    rp[n - 1] := low;
    RshiftEnd(U[..n], tnc, low, R, retval);
    assert rp[..n] == R + [low] && U[..n] == U;
  }

  // --- complement and negation ---

  lemma ComStep(U: seq<Limb>, R: seq<Limb>, limb: Limb, i: nat)
    requires i < |U| && |R| == i && limb == B - 1 - U[i]
    requires Val(R) == Place(i) - 1 - Val(U[..i])
    ensures Val(R + [limb]) == Place(i + 1) - 1 - Val(U[..i + 1])
  {
    ValSnoc(R, limb);
    ValPrefix(U, i);
    PlaceStep(i);
    var u: int := U[i];
    Distribute(Place(i), B - 1, u);
  }

  /** Each limb complemented. */
  method Com(rp: array<Limb>, ro: nat, up: array<Limb>, uo: nat, n: nat)
    requires ro + n <= rp.Length && uo + n <= up.Length
    requires rp == up ==> ro == uo
    modifies rp
    ensures Val(rp[ro..ro + n]) == Place(n) - 1 - old(Val(up[uo..uo + n]))
    ensures OnlyChanged(rp, ro, ro + n)
  {
    ghost var U, R := up[uo..uo + n], [];
    ChainStart(n);
    for i := 0 to n
      invariant |R| == i
      invariant forall k :: 0 <= k < i ==> rp[ro + k] == R[k]
      invariant forall k :: i <= k < n ==> up[uo + k] == U[k]
      invariant OnlyChanged(rp, ro, ro + i)
      invariant Val(R) == Place(i) - 1 - Val(U[..i])
    {
      rp[ro + i] := B - 1 - up[uo + i];
      ComStep(U, R, rp[ro + i], i);
      R := R + [rp[ro + i]];
    }
    assert rp[ro..ro + n] == R && U[..n] == U;
  }

  lemma NegateIdentity(p: int, u: int, q: int, v: int)
    ensures (B - u) * p + B * p * (q - 1 - v) == B * p * q - (u * p + B * p * v)
  {
  }

  // Zeros below limb i stay, limb i is negated, those above it are complemented.
  lemma NegateFrom(U: seq<Limb>, R: seq<Limb>, i: nat)
    requires i < |U| == |R| && U[i] != 0 && R[i] == B - U[i]
    requires forall k :: 0 <= k < i ==> U[k] == 0 && R[k] == 0
    requires Val(R[i + 1..]) == Place(|U| - i - 1) - 1 - Val(U[i + 1..])
    ensures Val(R) == Place(|U|) - Val(U)
    ensures Val(U) != 0
  {
    ValZeros(U);
    ValZeros(U[..i]);
    ValZeros(R[..i]);
    ValSplit(U, i + 1);
    ValSplit(R, i + 1);
    ValPrefix(U, i);
    ValPrefix(R, i);
    PlaceStep(i);
    PowAdd(B, i + 1, |U| - i - 1);
    NegateIdentity(Place(i), U[i], Place(|U| - i - 1), Val(U[i + 1..]));
  }

  /** Two's complement within n limbs; tells whether the number is non-zero. */
  method Neg(rp: array<Limb>, up: array<Limb>, n: nat) returns (c: Limb)
    requires 1 <= n <= rp.Length && n <= up.Length
    modifies rp
    ensures c == if old(Val(up[..n])) == 0 then 0 else 1
    ensures Val(rp[..n]) == if c == 0 then 0 else Place(n) - old(Val(up[..n]))
    ensures OnlyChanged(rp, 0, n)
  {
    ghost var U := up[..n];
    var i := 0;
    while up[i] == 0
      invariant 0 <= i < n
      invariant forall k :: 0 <= k < i ==> U[k] == 0 && rp[k] == 0
      invariant forall k :: i <= k < n ==> up[k] == U[k]
      invariant OnlyChanged(rp, 0, i)
      decreases n - i
    {
      rp[i] := 0;
      if i == n - 1 {
        ValZeros(U);
        ValZeros(rp[..n]);
        return 0;
      }
      i := i + 1;
    }
    rp[i] := Wrap(B - up[i]);
    assert up[i + 1..n] == U[i + 1..];
    Com(rp, i + 1, up, i + 1, n - i - 1);
    assert rp[..n][i + 1..] == rp[i + 1..i + 1 + (n - i - 1)];
    NegateFrom(U, rp[..n], i);
    c := 1;
  }
}
