/** Bitwise operations on signed numbers, as if in infinite two's complement. */
module MpzBits {
  import opened Arith
  import opened Powers
  import opened Limbs
  import opened LimbSeqs
  import opened Bits
  import opened Mpn
  import opened Mpzs
  import opened MpzDiv
  import opened MpzDiv2exp

  // --- bits of limb sequences ---

  // A multiple of 2^(n) above does not change the bits below.
  lemma {:induction false} BitBelow(x: int, h: int, n: nat, i: nat)
    requires i < n
    ensures Bit(x + Pow2(n) * h, i) == Bit(x, i)
    decreases i
  {
    PowStep(2, n - 1);
    Assoc(2, Pow2(n - 1), h);
    var y := x + Pow2(n) * h;
    BitHalf(x, 0);
    BitHalf(y, 0);
    if i > 0 {
      BitHalf(x, i - 1);
      BitHalf(y, i - 1);
      assert y / 2 == x / 2 + Pow2(n - 1) * h;
      BitBelow(x / 2, h, n - 1, i - 1);
    }
  }

  lemma BitAbove(x: int, n: nat, i: nat)
    requires 0 <= x < Pow2(n) && n <= i
    ensures !Bit(x, i) && Bit(x - Pow2(n), i)
  {
    BitIs(x, i);
    BitIs(x - Pow2(n), i);
    PowMono(2, n, i);
    PowPositive(2, i);
    PowPositive(2, n);
    DivModUnique(x, Pow2(i), 0, x);
    DivModUnique(x - Pow2(n), Pow2(i), -1, x - Pow2(n) + Pow2(i));
  }

  lemma {:induction false} BitShifted(x: int, j: nat, i: nat)
    ensures 0 < Pow2(j) && Bit(x, j + i) == Bit(x / Pow2(j), i)
    decreases j
  {
    PowPositive(2, j);
    if j == 0 {
      PowStep(2, 0);
    } else {
      BitShifted(x / 2, j - 1, i);
      BitHalf(x, j + i - 1);
      PowStep(2, j - 1);
      HalfFirst(x, Pow2(j - 1));
    }
  }

  lemma LowLimb(x: Limb, v: int)
    ensures (x + B * v) / B == v
  {
  }

  lemma {:induction false} ValBit(s: seq<Limb>, l: nat, b: nat)
    requires l < |s| && b < LIMB_BITS
    ensures Bit(Val(s), LIMB_BITS * l + b) == Bit(s[l], b)
    decreases l
  {
    ValCons(s);
    Pow2Values();
    if l == 0 {
      BitBelow(s[0], Val(s[1..]), LIMB_BITS, b);
    } else {
      BitShifted(Val(s), LIMB_BITS, LIMB_BITS * (l - 1) + b);
      LowLimb(s[0], Val(s[1..]));
      ValBit(s[1..], l - 1, b);
    }
  }

  /** Bit i of a number whose low limbs are s is a bit of one of those limbs. */
  lemma LimbBit(x: int, s: seq<Limb>, h: int, i: nat)
    requires x == Val(s) + Place(|s|) * h && i < LIMB_BITS * |s|
    ensures Bit(x, i) == Bit(s[i / LIMB_BITS], i % LIMB_BITS)
  {
    PlaceIsPow2(|s|);
    BitBelow(Val(s), h, LIMB_BITS * |s|, i);
    ValBit(s, i / LIMB_BITS, i % LIMB_BITS);
  }

  // --- reading a bit ---

  lemma NegatedBit(m: int, i: nat)
    ensures 0 < Pow2(i) && Bit(-m, i) == if m % Pow2(i) == 0 then Bit(m, i) else !Bit(m, i)
  {
    BitIs(m, i);
    BitIs(-m, i);
    PowPositive(2, i);
    var p := Pow2(i);
    DivMod(m, p);
    var q, r := m / p, m % p;
    if r == 0 {
      DivModUnique(-m, p, -q, 0);
    } else {
      Distribute(p, -q, 1);
      DivModUnique(-m, p, -q - 1, p - r);
    }
  }

  lemma ShiftedRemainder(w: int, p: int, m: int, l: int, h: int)
    requires 0 < p && 0 < m && w * m == l + h * (m * p) && 0 <= l < m * p
    ensures l == w % p * m
  {
    var q, r := w / p, w % p;
    DivMod(w, p);
    Distribute(m, q * p, r);
    assert q * p * m == q * (m * p);
    MulStrict(r, p, m);
    MulNonneg(r, m);
    DivModPairUnique(m * p, q, r * m, h, l);
  }

  // What a shift to the top leaves of a limb tells about its low bits.
  lemma LowBitsTest(w: Limb, shift: nat)
    requires 0 < shift < LIMB_BITS
    ensures 0 < Pow2(shift) && (Shl(w, LIMB_BITS - shift) > 0) == (w % Pow2(shift) != 0)
  {
    var p, m := Pow2(shift), Pow2(LIMB_BITS - shift);
    PowPositive(2, shift);
    PowPositive(2, LIMB_BITS - shift);
    PowAdd(2, LIMB_BITS - shift, shift);
    Pow2Values();
    ShlSplit(w, LIMB_BITS - shift);
    ShiftedRemainder(w, p, m, Shl(w, LIMB_BITS - shift), Shr(w, shift));
    DivMod(w, p);
    if w % p != 0 {
      MulMono(1, w % p, m);
    }
  }

  // All bits at and above the top limb are the sign.
  lemma SignBit(x: int, s: seq<Limb>, i: nat)
    requires AbsInt(x) == Val(s) && LIMB_BITS * |s| <= i
    ensures Bit(x, i) == (x < 0)
  {
    BitIs(x, i);
    ValBound(s);
    PlaceIsPow2(|s|);
    PowPositive(2, i);
    PowMono(2, LIMB_BITS * |s|, i);
    if x < 0 {
      DivModUnique(x, Pow2(i), -1, x + Pow2(i));
    } else {
      DivModUnique(x, Pow2(i), 0, x);
    }
  }

  // Negation keeps bit i exactly if no bit below it is set.
  lemma BitOfNegated(s: seq<Limb>, i: nat)
    requires i < LIMB_BITS * |s|
    ensures var l, b := i / LIMB_BITS, i % LIMB_BITS;
            Bit(Val(s), i) == Bit(s[l], b) && 0 < Pow2(b)
            && Bit(-Val(s), i) == if Val(s[..l]) == 0 && s[l] % Pow2(b) == 0 then Bit(s[l], b) else !Bit(s[l], b)
  {
    NegatedBit(Val(s), i);
    LimbBit(Val(s), s, 0, i);
    QuotientBits(s, i / LIMB_BITS, i % LIMB_BITS);
  }

  /** mpz_tstbit: bit i of a signed number. */
  method TstBit(d: Mpz, i: nat) returns (bit: bool)
    requires d.Valid()
    ensures bit == Bit(d.Value(), i)
  {
    var dn := AbsInt(d.size);
    var limbIndex, shift := i / LIMB_BITS, i % LIMB_BITS;
    ghost var s := d.d[..dn];
    Signs(d);
    if limbIndex >= dn {
      SignBit(d.Value(), s, i);
      return d.size < 0;
    }
    BitOfNegated(s, i);
    var w: Limb := d.d[limbIndex];
    BitIs(w, shift);
    bit := Shr(w, shift) % 2 == 1;
    PowStep(2, 0);
    if d.size < 0 {
      if shift > 0 {
        LowBitsTest(w, shift);
        if Shl(w, LIMB_BITS - shift) > 0 {
          return !bit;
        }
      }
      var j := limbIndex;
      while j > 0
        invariant forall k :: j <= k < limbIndex ==> s[k] == 0
      {
        j := j - 1;
        if d.d[j] > 0 {
          ValZeros(s[..limbIndex]);
          assert s[..limbIndex][j] != 0;
          return !bit;
        }
      }
      ValZeros(s[..limbIndex]);
    }
  }

  // --- and, or, xor ---

  /** T holds the low limbs of S or -S in two's complement; c is the carry of the negation so far. */
  ghost predicate Complemented(neg: bool, S: seq<Limb>, T: seq<Limb>, c: Limb) {
    && |S| == |T| && c <= 1 && (!neg ==> c == 0)
    && Val(T) + c * Place(|S|) == if neg then Place(|S|) - Val(S) else Val(S)
  }

  lemma ComplementStart(neg: bool)
    ensures Complemented(neg, [], [], if neg then 1 else 0)
  {
    ValEmpty();
    PlaceStep(0);
  }

  method ComplementLimb(x: Limb, neg: bool, c: Limb) returns (l: Limb, c': Limb)
    requires c <= 1 && (!neg ==> c == 0)
    ensures c' <= 1 && (!neg ==> c' == 0) && l + c' * B == (if neg then B - 1 - x else x) + c
  {
    l := Wrap((if neg then B - 1 - x else x) + c);
    c' := if l < c then 1 else 0;
  }

  lemma ComplementOne(p: int, v: int, x: int)
    ensures p - v + (B - 1 - x) * p == B * p - (v + x * p)
  {
  }

  lemma ComplementStep(neg: bool, S: seq<Limb>, T: seq<Limb>, c: Limb, x: Limb, l: Limb, c': Limb)
    requires Complemented(neg, S, T, c) && c' <= 1 && (!neg ==> c' == 0)
    requires l + c' * B == (if neg then B - 1 - x else x) + c
    ensures Complemented(neg, S + [x], T + [l], c')
  {
    var p := Place(|S|);
    ValSnoc(S, x);
    PlaceStep(|S|);
    if neg {
      ChainStep(T, p - Val(S), B - 1 - x, c, l, c');
      ComplementOne(p, Val(S), x);
    } else {
      ChainStep(T, Val(S), x, c, l, c');
    }
  }

  /** The limbs of one operand taken together with the sign agree with the number modulo their place. */
  lemma ComplementLow(neg: bool, U: seq<Limb>, n: nat, T: seq<Limb>, c: Limb) returns (h: int)
    requires n <= |U| && Complemented(neg, U[..n], T, c)
    ensures (if neg then -Val(U) else Val(U)) == Val(T) + Place(n) * h
  {
    ValSplit(U, n);
    var p, v := Place(n), Val(U[n..]);
    if neg {
      h := c - 1 - v;
      Distribute(p, c - 1, v);
    } else {
      h := v;
    }
  }

  // Once a non-zero number has been taken in, the negation carry is gone.
  lemma CarryGone(neg: bool, S: seq<Limb>, T: seq<Limb>, c: Limb)
    requires Complemented(neg, S, T, c) && Val(S) > 0
    ensures c == 0
  {
    ValBound(T);
    if c == 1 {
      ValBound(S);
    }
  }

  /** The limbs W are the limbwise combination of UL and VL. */
  ghost predicate Combined(op: BitOp, UL: seq<Limb>, VL: seq<Limb>, W: seq<Limb>) {
    && |UL| == |VL| == |W|
    && forall k :: 0 <= k < |W| ==> W[k] == Bitwise(op, UL[k], VL[k])
  }

  /** x is u op v, bit by bit. */
  ghost predicate BitsOf(op: BitOp, x: int, u: int, v: int) {
    forall i: nat :: Bit(x, i) == op.Apply(Bit(u, i), Bit(v, i))
  }

  function SignLimb(neg: bool): int {
    if neg then -1 else 0
  }

  lemma CombinedBits(op: BitOp, u: int, v: int, x: int, UL: seq<Limb>, VL: seq<Limb>, W: seq<Limb>, hu: int, hv: int,
                     h: int)
    requires Combined(op, UL, VL, W)
    requires u == Val(UL) + Place(|W|) * hu && v == Val(VL) + Place(|W|) * hv && x == Val(W) + Place(|W|) * h
    requires forall i: nat :: LIMB_BITS * |W| <= i ==> Bit(x, i) == op.Apply(Bit(u, i), Bit(v, i))
    ensures BitsOf(op, x, u, v)
  {
    forall i: nat ensures Bit(x, i) == op.Apply(Bit(u, i), Bit(v, i)) {
      if i < LIMB_BITS * |W| {
        LimbBit(u, UL, hu, i);
        LimbBit(v, VL, hv, i);
        LimbBit(x, W, h, i);
        var k := i / LIMB_BITS;
        BitwiseBit(op, UL[k], VL[k], i % LIMB_BITS);
      }
    }
  }

  /** The number of limbs that can differ from the sign of the result. */
  function ResultLimbs(op: BitOp, un: nat, vn: nat, vneg: bool): nat {
    match op
    case And => if vneg then un else vn
    case Or => if vneg then vn else un
    case Xor => un
  }

  // Above those limbs every bit of the result is its sign.
  lemma AboveResult(op: BitOp, u: int, U: seq<Limb>, v: int, V: seq<Limb>, x: int, W: seq<Limb>)
    requires AbsInt(u) == Val(U) && AbsInt(v) == Val(V) && |V| <= |U| && |W| == ResultLimbs(op, |U|, |V|, v < 0)
    requires x == Val(W) + Place(|W|) * SignLimb(op.Apply(u < 0, v < 0))
    ensures forall i: nat :: LIMB_BITS * |W| <= i ==> Bit(x, i) == op.Apply(Bit(u, i), Bit(v, i))
  {
    ValBound(W);
    PlaceIsPow2(|W|);
    forall i: nat | LIMB_BITS * |W| <= i ensures Bit(x, i) == op.Apply(Bit(u, i), Bit(v, i)) {
      BitAbove(Val(W), LIMB_BITS * |W|, i);
      SignBit(v, V, i);
      if |W| == |U| {
        SignBit(u, U, i);
      }
    }
  }

  lemma ExtendSign(v: int, T: seq<Limb>, neg: bool, l: Limb)
    requires v == Val(T) + Place(|T|) * SignLimb(neg) && l == if neg then B - 1 else 0
    ensures v == Val(T + [l]) + Place(|T| + 1) * SignLimb(neg)
  {
    ValSnoc(T, l);
    PlaceStep(|T|);
    Distribute(Place(|T|), B, 1);
  }

  lemma CombineStep(op: BitOp, UL: seq<Limb>, VL: seq<Limb>, W: seq<Limb>, ul: Limb, vl: Limb) returns (w: Limb)
    requires Combined(op, UL, VL, W)
    ensures w == Bitwise(op, ul, vl) && Combined(op, UL + [ul], VL + [vl], W + [w])
  {
    Pow2Values();
    BitwiseBound(op, ul, vl, LIMB_BITS);
    w := Bitwise(op, ul, vl);
  }

  /** Invariant of the limb loops: S are the limbs of u taken in, R the limbs written. */
  ghost predicate Progress(op: BitOp, uneg: bool, rneg: bool, S: seq<Limb>, UL: seq<Limb>, VL: seq<Limb>, W: seq<Limb>,
                           R: seq<Limb>, uc: Limb, rc: Limb) {
    && Complemented(uneg, S, UL, uc) && Complemented(rneg, W, R, rc) && Combined(op, UL, VL, W)
  }

  /** Result limb from one limb of u and the two's complement limb vl of v. */
  method LogicLimb(op: BitOp, uneg: bool, rneg: bool, x: Limb, vl: Limb, uc: Limb, rc: Limb, ghost S: seq<Limb>,
                   ghost UL: seq<Limb>, ghost VL: seq<Limb>, ghost W: seq<Limb>, ghost R: seq<Limb>)
    returns (rl: Limb, uc': Limb, rc': Limb, ghost UL': seq<Limb>, ghost W': seq<Limb>)
    requires Progress(op, uneg, rneg, S, UL, VL, W, R, uc, rc)
    ensures Progress(op, uneg, rneg, S + [x], UL', VL + [vl], W', R + [rl], uc', rc')
  {
    var ul: Limb;
    ul, uc' := ComplementLimb(x, uneg, uc);
    ComplementStep(uneg, S, UL, uc, x, ul, uc');
    ghost var w := CombineStep(op, UL, VL, W, ul, vl);
    rl, rc' := ComplementLimb(Bitwise(op, ul, vl), rneg, rc);
    ComplementStep(rneg, W, R, rc, w, rl, rc');
    UL', W' := UL + [ul], W + [w];
  }

  // One limb of both operands.
  method LogicLimbPair(op: BitOp, uneg: bool, vneg: bool, rneg: bool, x: Limb, y: Limb, uc: Limb, vc: Limb, rc: Limb,
                       ghost S: seq<Limb>, ghost T: seq<Limb>, ghost UL: seq<Limb>, ghost VL: seq<Limb>,
                       ghost W: seq<Limb>, ghost R: seq<Limb>)
    returns (rl: Limb, uc': Limb, vc': Limb, rc': Limb, ghost UL': seq<Limb>, ghost VL': seq<Limb>, ghost W': seq<Limb>)
    requires Progress(op, uneg, rneg, S, UL, VL, W, R, uc, rc) && Complemented(vneg, T, VL, vc)
    ensures Progress(op, uneg, rneg, S + [x], UL', VL', W', R + [rl], uc', rc')
    ensures Complemented(vneg, T + [y], VL', vc') && |W'| == |W| + 1
  {
    var vl: Limb;
    vl, vc' := ComplementLimb(y, vneg, vc);
    ComplementStep(vneg, T, VL, vc, y, vl, vc');
    rl, uc', rc', UL', W' := LogicLimb(op, uneg, rneg, x, vl, uc, rc, S, UL, VL, W, R);
    VL' := VL + [vl];
  }

  // One turn of the loop over both operands.
  method LogicLowStep(op: BitOp, rp: array<Limb>, up: array<Limb>, vp: array<Limb>, i: nat, uneg: bool, vneg: bool,
                      rneg: bool, uc: Limb, vc: Limb, rc: Limb, ghost U: seq<Limb>, ghost V: seq<Limb>,
                      ghost UL: seq<Limb>, ghost VL: seq<Limb>, ghost W: seq<Limb>)
    returns (uc': Limb, vc': Limb, rc': Limb, ghost UL': seq<Limb>, ghost VL': seq<Limb>, ghost W': seq<Limb>)
    requires i < rp.Length && i < |U| <= up.Length && i < |V| <= vp.Length && up[i] == U[i] && vp[i] == V[i]
    requires Progress(op, uneg, rneg, U[..i], UL, VL, W, rp[..i], uc, rc) && Complemented(vneg, V[..i], VL, vc)
    modifies rp
    ensures Progress(op, uneg, rneg, U[..i + 1], UL', VL', W', rp[..i + 1], uc', rc') && |W'| == |W| + 1
    ensures Complemented(vneg, V[..i + 1], VL', vc')
    ensures OnlyChanged(rp, i, i + 1)
  {
    ghost var R := rp[..i];
    var x: Limb, y: Limb := up[i], vp[i];
    var rl: Limb;
    rl, uc', vc', rc', UL', VL', W' :=
      LogicLimbPair(op, uneg, vneg, rneg, x, y, uc, vc, rc, U[..i], V[..i], UL, VL, W, R);
    rp[i] := rl;
    assert rp[..i + 1] == R + [rl] && U[..i + 1] == U[..i] + [x] && V[..i + 1] == V[..i] + [y];
  }

  /** First loop: both operands still have limbs. */
  method LogicLow(op: BitOp, rp: array<Limb>, up: array<Limb>, uneg: bool, vp: array<Limb>, vn: nat, vneg: bool,
                  rneg: bool, ghost U: seq<Limb>, ghost V: seq<Limb>)
    returns (uc: Limb, rc: Limb, ghost UL: seq<Limb>, ghost VL: seq<Limb>, ghost W: seq<Limb>)
    requires vn <= |U| <= up.Length && |V| == vn <= vp.Length && vn <= rp.Length && Val(V) > 0
    requires up[..|U|] == U && vp[..vn] == V
    modifies rp
    ensures Progress(op, uneg, rneg, U[..vn], UL, VL, W, rp[..vn], uc, rc)
    ensures (if vneg then -Val(V) else Val(V)) == Val(VL) + Place(vn) * SignLimb(vneg)
    ensures OnlyChanged(rp, 0, vn)
  {
    var vc: Limb;
    uc, vc, rc := if uneg then 1 else 0, if vneg then 1 else 0, if rneg then 1 else 0;
    UL, VL, W := [], [], [];
    ComplementStart(uneg);
    ComplementStart(vneg);
    ComplementStart(rneg);
    assert U[..0] == [] && V[..0] == [] && rp[..0] == [];
    for i := 0 to vn
      invariant forall k :: i <= k < vn ==> up[k] == U[k] && vp[k] == V[k]
      invariant OnlyChanged(rp, 0, i)
      invariant Progress(op, uneg, rneg, U[..i], UL, VL, W, rp[..i], uc, rc) && |W| == i
      invariant Complemented(vneg, V[..i], VL, vc)
    {
      uc, vc, rc, UL, VL, W := LogicLowStep(op, rp, up, vp, i, uneg, vneg, rneg, uc, vc, rc, U, V, UL, VL, W);
    }
    assert V[..vn] == V;
    CarryGone(vneg, V, VL, vc);
  }

  /** Second loop: the shorter operand continues with its sign. */
  method LogicHigh(op: BitOp, rp: array<Limb>, up: array<Limb>, uneg: bool, vn: nat, rn: nat, vneg: bool, rneg: bool,
                   uc0: Limb, rc0: Limb, ghost U: seq<Limb>, ghost v: int, ghost UL0: seq<Limb>, ghost VL0: seq<Limb>,
                   ghost W0: seq<Limb>)
    returns (rc: Limb, ghost UL: seq<Limb>, ghost VL: seq<Limb>, ghost W: seq<Limb>, ghost uc: Limb)
    requires vn <= rn <= |U| <= up.Length && rn <= rp.Length && |W0| == vn
    requires up[vn..|U|] == U[vn..]
    requires Progress(op, uneg, rneg, U[..vn], UL0, VL0, W0, rp[..vn], uc0, rc0)
    requires v == Val(VL0) + Place(vn) * SignLimb(vneg)
    modifies rp
    ensures |W| == rn && Progress(op, uneg, rneg, U[..rn], UL, VL, W, rp[..rn], uc, rc)
    ensures v == Val(VL) + Place(rn) * SignLimb(vneg)
    ensures OnlyChanged(rp, vn, rn)
  {
    var c := uc0;
    rc, UL, VL, W := rc0, UL0, VL0, W0;
    var vx: Limb := if vneg then B - 1 else 0;
    assert forall k :: vn <= k < |U| ==> up[k] == up[vn..|U|][k - vn] == U[vn..][k - vn] == U[k];
    for i := vn to rn
      invariant forall k :: i <= k < |U| ==> up[k] == U[k]
      invariant OnlyChanged(rp, vn, i)
      invariant |W| == i && Progress(op, uneg, rneg, U[..i], UL, VL, W, rp[..i], c, rc)
      invariant v == Val(VL) + Place(i) * SignLimb(vneg)
    {
      ghost var R := rp[..i];
      var x: Limb := up[i];
      var rl: Limb;
      rl, c, rc, UL, W := LogicLimb(op, uneg, rneg, x, vx, c, rc, U[..i], UL, VL, W, R);
      ExtendSign(v, VL, vneg, vx);
      VL := VL + [vx];
      rp[i] := rl;
      assert rp[..i + 1] == R + [rl] && U[..i + 1] == U[..i] + [x];
    }
    uc := c;
  }

  // Magnitude and sign of the result, read back as a two's complement number.
  lemma ResultValue(rneg: bool, W: seq<Limb>, R: seq<Limb>, rc: Limb) returns (x: int)
    requires Complemented(rneg, W, R, rc)
    ensures x == Val(W) + Place(|W|) * SignLimb(rneg)
    ensures x == if rneg then -(Val(R) + rc * Place(|R|)) else Val(R)
    ensures Val(R + [rc]) == Val(R) + rc * Place(|R|)
  {
    ValSnoc(R, rc);
    x := if rneg then -(Val(R) + rc * Place(|R|)) else Val(R);
  }

  /** The common shape of mpz_and, mpz_ior and mpz_xor on limbs, for un >= vn >= 1. */
  method LogicLimbs(op: BitOp, rp: array<Limb>, up: array<Limb>, un: nat, uneg: bool, vp: array<Limb>, vn: nat,
                    vneg: bool, ghost u: int, ghost v: int)
    returns (rn: nat, rneg: bool, ghost x: int)
    requires 1 <= vn <= un <= up.Length && vn <= vp.Length
    requires ResultLimbs(op, un, vn, vneg) + (if op.Apply(uneg, vneg) then 1 else 0) <= rp.Length
    requires Normalised(up[..un]) && Normalised(vp[..vn])
    requires u == (if uneg then -Val(up[..un]) else Val(up[..un]))
             && v == (if vneg then -Val(vp[..vn]) else Val(vp[..vn]))
    modifies rp
    ensures rneg == op.Apply(uneg, vneg)
    ensures rn <= ResultLimbs(op, un, vn, vneg) + (if rneg then 1 else 0) && Normalised(rp[..rn])
    ensures x == (if rneg then -Val(rp[..rn]) else Val(rp[..rn])) && BitsOf(op, x, u, v)
  {
    ghost var U, V := up[..un], vp[..vn];
    NormalisedBound(U);
    NormalisedBound(V);
    PlaceStep(un - 1);
    PlaceStep(vn - 1);
    rneg := op.Apply(uneg, vneg);
    var uc: Limb, rc: Limb;
    ghost var UL, VL, W, c;
    uc, rc, UL, VL, W := LogicLow(op, rp, up, uneg, vp, vn, vneg, rneg, U, V);
    rn := ResultLimbs(op, un, vn, vneg);
    rc, UL, VL, W, c := LogicHigh(op, rp, up, uneg, vn, rn, vneg, rneg, uc, rc, U, v, UL, VL, W);
    ghost var R := rp[..rn];
    ghost var hu := ComplementLow(uneg, U, rn, UL, c);
    x := ResultValue(rneg, W, R, rc);
    AboveResult(op, u, U, v, V, x, W);
    CombinedBits(op, u, v, x, UL, VL, W, hu, SignLimb(vneg), SignLimb(rneg));
    if rc != 0 {
      rp[rn] := rc;
      assert rp[..rn + 1] == R + [rc];
      rn := rn + 1;
    } else {
      rn := NormalizedSize(rp, rn);
    }
  }

  lemma BitsOfZero(op: BitOp, u: int)
    ensures op == And ==> BitsOf(op, 0, u, 0)
    ensures op != And ==> BitsOf(op, u, u, 0)
  {
    forall i: nat ensures !Bit(0, i) {
      BitIs(0, i);
      DivModUnique(0, Pow2(i), 0, 0);
    }
  }

  lemma BitsOfSwap(op: BitOp, x: int, u: int, v: int)
    requires BitsOf(op, x, u, v)
    ensures BitsOf(op, x, v, u)
  {
  }

  // Room for n limbs in the result, which may be one of the operands.
  method Room(r: Mpz, u: Mpz, v: Mpz, n: nat)
    requires r.Valid() && u.Valid() && v.Valid() && r.Apart(u) && r.Apart(v)
    modifies r
    ensures r.Valid() && n <= r.alloc && (r.d == old(r.d) || fresh(r.d))
    ensures u.Valid() && u.size == old(u.size) && u.Value() == old(u.Value())
    ensures v.Valid() && v.size == old(v.size) && v.Value() == old(v.Value())
  {
    ghost var U, V, R := u.d[..AbsInt(u.size)], v.d[..AbsInt(v.size)], r.d[..AbsInt(r.size)];
    r.Realloc(n);
    assert u.d[..AbsInt(u.size)] == U && v.d[..AbsInt(v.size)] == V && r.d[..AbsInt(r.size)] == R;
  }

  // The shorter number is not zero.
  method LogicNonzero(op: BitOp, r: Mpz, u: Mpz, v: Mpz, ghost x: int, ghost y: int)
    requires r.Valid() && u.Valid() && v.Valid() && r.Apart(u) && r.Apart(v) && 0 < AbsInt(v.size) <= AbsInt(u.size)
    requires x == u.Value() && y == v.Value()
    modifies r, r.d
    ensures r.Valid() && BitsOf(op, r.Value(), x, y) && (r.d == old(r.d) || fresh(r.d))
  {
    var un, vn := AbsInt(u.size), AbsInt(v.size);
    var uneg, vneg := u.size < 0, v.size < 0;
    Room(r, u, v, ResultLimbs(op, un, vn, vneg) + if op.Apply(uneg, vneg) then 1 else 0);
    var rn, rneg, z := LogicLimbs(op, r.d, u.d, un, uneg, v.d, vn, vneg, x, y);
    Finish(r, rn, rneg, Val(r.d[..rn]));
  }

  method LogicOrdered(op: BitOp, r: Mpz, u: Mpz, v: Mpz, ghost x: int, ghost y: int)
    requires r.Valid() && u.Valid() && v.Valid() && r.Apart(u) && r.Apart(v) && AbsInt(v.size) <= AbsInt(u.size)
    requires x == u.Value() && y == v.Value()
    modifies r, r.d
    ensures r.Valid() && BitsOf(op, r.Value(), x, y) && (r.d == old(r.d) || fresh(r.d))
  {
    if v.size == 0 {
      ValEmpty();
      BitsOfZero(op, x);
      if op == And {
        r.size := 0;
      } else {
        r.Set(u);
      }
      return;
    }
    LogicNonzero(op, r, u, v, x, y);
  }

  /** mpz_and, mpz_ior and mpz_xor: every bit of the result is the combination of the operands' bits. */
  method Logic(op: BitOp, r: Mpz, u: Mpz, v: Mpz)
    requires r.Valid() && u.Valid() && v.Valid() && r.Apart(u) && r.Apart(v)
    modifies r, r.d
    ensures r.Valid() && BitsOf(op, r.Value(), old(u.Value()), old(v.Value()))
    ensures r.d == old(r.d) || fresh(r.d)
  {
    ghost var x, y := u.Value(), v.Value();
    if AbsInt(u.size) < AbsInt(v.size) {
      LogicOrdered(op, r, v, u, y, x);
      BitsOfSwap(op, r.Value(), y, x);
    } else {
      LogicOrdered(op, r, u, v, x, y);
    }
  }

  /** mpz_and. */
  method MpzAnd(r: Mpz, u: Mpz, v: Mpz)
    requires r.Valid() && u.Valid() && v.Valid() && r.Apart(u) && r.Apart(v)
    modifies r, r.d
    ensures r.Valid() && (r.d == old(r.d) || fresh(r.d))
    ensures forall i: nat :: Bit(r.Value(), i) == (Bit(old(u.Value()), i) && Bit(old(v.Value()), i))
  {
    Logic(And, r, u, v);
  }

  /** mpz_ior. */
  method MpzIor(r: Mpz, u: Mpz, v: Mpz)
    requires r.Valid() && u.Valid() && v.Valid() && r.Apart(u) && r.Apart(v)
    modifies r, r.d
    ensures r.Valid() && (r.d == old(r.d) || fresh(r.d))
    ensures forall i: nat :: Bit(r.Value(), i) == (Bit(old(u.Value()), i) || Bit(old(v.Value()), i))
  {
    Logic(Or, r, u, v);
  }

  /** mpz_xor. */
  method MpzXor(r: Mpz, u: Mpz, v: Mpz)
    requires r.Valid() && u.Valid() && v.Valid() && r.Apart(u) && r.Apart(v)
    modifies r, r.d
    ensures r.Valid() && (r.d == old(r.d) || fresh(r.d))
    ensures forall i: nat :: Bit(r.Value(), i) == (Bit(old(u.Value()), i) != Bit(old(v.Value()), i))
  {
    Logic(Xor, r, u, v);
  }

  /** Two numbers with the same bits are the same number. */
  lemma {:induction false} BitsDetermine(x: int, y: int)
    requires forall i: nat :: Bit(x, i) == Bit(y, i)
    ensures x == y
    decreases AbsInt(x) + AbsInt(y)
  {
    BitHalf(x, 0);
    BitHalf(y, 0);
    if -1 <= x <= 0 && -1 <= y <= 0 {
    } else {
      forall i: nat ensures Bit(x / 2, i) == Bit(y / 2, i) {
        BitHalf(x, i);
        BitHalf(y, i);
        assert Bit(x, i + 1) == Bit(y, i + 1);
      }
      BitsDetermine(x / 2, y / 2);
    }
  }
}
