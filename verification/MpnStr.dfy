/** Conversion of limb buffers to and from digits in bases 2 to 256. */
module MpnStr {
  import opened Arith
  import opened Powers
  import opened Limbs
  import opened LimbSeqs
  import opened Bits
  import opened Digits
  import opened Mpn
  import opened MpnDivQr
  import opened Mpzs
  import opened MpzDiv2exp

  // --- bases ---

  /** mpn_base_power_of_two_p. */
  function BaseBits(b: nat): (bits: nat)
    requires 2 <= b <= 256
    ensures bits <= 8 && (0 < bits ==> b == Pow2(bits))
    ensures bits == 0 ==> forall i :: 0 <= i <= 8 ==> b != Pow2(i)
  {
    SmallPowers();
    if b == 2 then 1 else if b == 4 then 2 else if b == 8 then 3 else if b == 16 then 4
    else if b == 32 then 5 else if b == 64 then 6 else if b == 128 then 7 else if b == 256 then 8 else 0
  }

  lemma SmallPowers()
    ensures Pow2(0) == 1 && Pow2(1) == 2 && Pow2(2) == 4 && Pow2(3) == 8 && Pow2(4) == 16
    ensures Pow2(5) == 32 && Pow2(6) == 64 && Pow2(7) == 128 && Pow2(8) == 256
  {
  }

  datatype BaseInfo = BaseInfo(exp: nat, bb: Limb)

  /** bb = b^exp is the largest power of b in a limb. */
  ghost predicate LargestPower(info: BaseInfo, b: int) {
    1 <= info.exp && info.bb == Pow(b, info.exp) && 0 < info.bb && B <= b * info.bb
  }

  lemma FitsProduct(p: int, m: int, b: int)
    requires 0 < b && m == (B - 1) / b
    ensures p <= m <==> p * b < B
  {
    DivMod(B - 1, b);
    if p <= m {
      MulMono(p, m, b);
    } else {
      MulMono(m + 1, p, b);
    }
  }

  /** mpn_get_base_info. */
  method GetBaseInfo(b: Limb) returns (info: BaseInfo)
    requires 2 <= b <= 256
    ensures LargestPower(info, b)
  {
    var m: Limb := (B - 1) / b;
    var exp := 1;
    var p: Limb := b;
    PowStep(b, 0);
    FitsProduct(p, m, b);
    while p <= m
      invariant 1 <= exp && p == Pow(b, exp) && 0 < p && (p <= m <==> p * b < B)
      decreases B - p
    {
      PowStep(b, exp);
      MulStrict(1, b, p);
      p := p * b;
      exp := exp + 1;
      FitsProduct(p, m, b);
    }
    info := BaseInfo(exp, p);
  }

  // --- from limbs to digits of a few bits ---

  lemma UpperPart(n: nat, limbs: nat, U: seq<Limb>, shift: nat)
    requires limbs < |U| && shift < LIMB_BITS && n == LIMB_BITS * limbs + shift
    ensures 0 < Pow2(n) && 0 < Pow2(shift) && Val(U) / Pow2(n) == Val(U[limbs..]) / Pow2(shift)
  {
    QuotientBits(U, limbs, shift);
  }

  // x / 2^shift where x continues above its low limb w: the bits of w, then those above.
  lemma AcrossLimbs(w: Limb, v: int, shift: nat)
    requires shift < LIMB_BITS
    ensures 0 < Pow2(shift) && (w + B * v) / Pow2(shift) == w / Pow2(shift) + Pow2(LIMB_BITS - shift) * v
  {
    PowPositive(2, shift);
    Pow2Values();
    PowAdd(2, LIMB_BITS - shift, shift);
    DividedSum(w, v, Pow2(shift), Pow2(LIMB_BITS - shift), B);
  }

  lemma DividedSum(w: int, v: int, p: int, m: int, b: int)
    requires 0 < p && b == m * p
    ensures (w + b * v) / p == w / p + m * v
  {
    DivMod(w, p);
    Assoc(m, p, v);
    Assoc(m, v, p);
    Distribute(p, w / p, m * v);
    DivModUnique(w + b * v, p, w / p + m * v, w % p);
  }

  lemma MultipleVanishes(x: int, k: nat, bits: nat, v: int)
    requires bits <= k
    ensures 0 < Pow2(bits) && (x + Pow2(k) * v) % Pow2(bits) == x % Pow2(bits)
  {
    PowPositive(2, bits);
    PowAdd(2, k - bits, bits);
    LowDigit(x, v, Pow2(k - bits), Pow2(bits));
  }

  lemma LimbFits(w: Limb, bits: nat)
    requires 1 <= bits <= 8
    ensures 2 <= Pow2(bits) <= 256
  {
    SmallPowers();
    PowMono(2, 1, bits);
    PowMono(2, bits, 8);
  }

  lemma DigitInLimb(w: Limb, v: int, shift: nat, bits: nat)
    requires shift + bits <= LIMB_BITS && shift < LIMB_BITS
    ensures 0 < Pow2(shift) && 0 < Pow2(bits) && (w + B * v) / Pow2(shift) % Pow2(bits) == Shr(w, shift) % Pow2(bits)
  {
    AcrossLimbs(w, v, shift);
    MultipleVanishes(Shr(w, shift), LIMB_BITS - shift, bits, v);
  }

  lemma SameLowBits(q: int, x: int, k: nat, bits: nat, v: int)
    requires bits <= k && q == x + Pow2(k) * v
    ensures 0 < Pow2(bits) && q % Pow2(bits) == x % Pow2(bits)
  {
    MultipleVanishes(x, k, bits, v);
  }

  lemma DigitInTwo(w: Limb, x: Limb, v: int, y: int, shift: nat, bits: nat)
    requires shift < LIMB_BITS && bits <= 8 && y == x + B * v
    ensures 0 < Pow2(shift) && 0 < Pow2(bits)
    ensures (w + B * y) / Pow2(shift) % Pow2(bits) == (Shr(w, shift) + Pow2(LIMB_BITS - shift) * x) % Pow2(bits)
  {
    var m, s := Pow2(LIMB_BITS - shift), Shr(w, shift);
    AcrossLimbs(w, y, shift);
    AcrossTwo(x, v, y, m, s, shift);
    SameLowBits((w + B * y) / Pow2(shift), s + m * x, LIMB_BITS - shift + LIMB_BITS, bits, v);
  }

  /** The digit that starts at bit n of U, within one limb or across two. */
  lemma DigitOf(U: seq<Limb>, limbs: nat, shift: nat, bits: nat)
    requires limbs < |U| && shift < LIMB_BITS && 1 <= bits <= 8
    ensures var n, p := LIMB_BITS * limbs + shift, Pow2(bits);
            0 < p && 0 < Pow2(n)
            && Val(U) / Pow2(n) % p ==
               if shift + bits <= LIMB_BITS || limbs + 1 == |U| then Shr(U[limbs], shift) % p
               else (Shr(U[limbs], shift) + Pow2(LIMB_BITS - shift) * U[limbs + 1]) % p
  {
    var T := U[limbs..];
    var R := T[1..];
    UpperPart(LIMB_BITS * limbs + shift, limbs, U, shift);
    PowPositive(2, bits);
    ValCons(T);
    if shift + bits <= LIMB_BITS {
      DigitInLimb(T[0], Val(R), shift, bits);
    } else if R == [] {
      ValEmpty();
    } else {
      ValCons(R);
      DigitInTwo(T[0], R[0], Val(R[1..]), Val(R), shift, bits);
    }
  }

  lemma AcrossTwo(w: int, v: int, y: int, m: int, x: int, shift: nat)
    requires shift < LIMB_BITS && m == Pow2(LIMB_BITS - shift) && y == w + B * v
    ensures x + m * y == x + m * w + Pow2(LIMB_BITS - shift + LIMB_BITS) * v
  {
    Pow2Values();
    PowAdd(2, LIMB_BITS - shift, LIMB_BITS);
    Distribute(m, w, B * v);
    Assoc(m, B, v);
  }

  lemma BitLengthOf(t: int, c: nat)
    requires c < LIMB_BITS && HIGHBIT <= t * Pow2(c) < B
    ensures Pow2(LIMB_BITS - c - 1) <= t < Pow2(LIMB_BITS - c)
  {
    Pow2Values();
    PowPositive(2, c);
    PowAdd(2, LIMB_BITS - c, c);
    PowAdd(2, LIMB_BITS - c - 1, c);
    MulCancel(t, Pow2(LIMB_BITS - c), Pow2(c));
    if t < Pow2(LIMB_BITS - c - 1) {
      MulStrict(t, Pow2(LIMB_BITS - c - 1), Pow2(c));
    }
  }

  lemma BitLengthAbove(v: int, low: int, top: int, p: int, a: int, b: int)
    requires v == low + top * p && 0 <= low < p && a <= top < b
    ensures a * p <= v < b * p
  {
    MulMono(a, top, p);
    MulMono(top + 1, b, p);
    Distribute(p, top, 1);
  }

  /** mpn_limb_size_in_base_2. */
  method LimbSizeInBase2(u: Limb) returns (bits: nat)
    requires 0 < u
    ensures 1 <= bits <= LIMB_BITS && Pow2(bits - 1) <= u < Pow2(bits)
  {
    var shift := Clz(u);
    BitLengthOf(u, shift);
    bits := LIMB_BITS - shift;
  }

  /** The number of bits of a limb buffer. */
  method BitLength(up: array<Limb>, un: nat) returns (bits: nat)
    requires 1 <= un <= up.Length && Normalised(up[..un])
    ensures 1 <= bits <= LIMB_BITS * un && Pow2(bits - 1) <= Val(up[..un]) < Pow2(bits)
  {
    ghost var U := up[..un];
    var top := LimbSizeInBase2(up[un - 1]);
    bits := (un - 1) * LIMB_BITS + top;
    TopOne(U);
    ValBound(U[..un - 1]);
    PlaceIsPow2(un - 1);
    PowAdd(2, top, LIMB_BITS * (un - 1));
    PowAdd(2, top - 1, LIMB_BITS * (un - 1));
    BitLengthAbove(Val(U), Val(U[..un - 1]), U[un - 1], Place(un - 1), Pow2(top - 1), Pow2(top));
  }

  lemma ModMod(x: int, bits: nat)
    requires 1 <= bits <= 8
    ensures 0 < Pow2(bits) <= 256 && x % 256 % Pow2(bits) == x % Pow2(bits)
  {
    LimbFits(0, bits);
    SmallPowers();
    PowAdd(2, 8 - bits, bits);
    DivMod(x, 256);
    LowDigit(x % 256, x / 256, Pow2(8 - bits), Pow2(bits));
    assert x == x % 256 + 256 * (x / 256);
  }

  // Where the next digit starts.
  ghost predicate At(i: nat, shift: nat, n: nat, un: nat) {
    i <= un && if i < un then shift < LIMB_BITS && n == LIMB_BITS * i + shift else LIMB_BITS * un <= n
  }

  lemma DigitAcross(x: int, y: Limb, k: nat, bits: nat)
    requires 1 <= bits <= 8 && k <= bits && 0 <= x < Pow2(k)
    ensures 0 < Pow2(k) && Shl(y, k) % Pow2(k) == 0 && x < B && k <= LIMB_BITS
    ensures 0 < Pow2(bits) && (Shl(y, k) + x) % Pow2(bits) == (x + Pow2(k) * y) % Pow2(bits)
  {
    ShlSplit(y, k);
    PowMono(2, k, bits);
    LimbFits(0, bits);
    Pow2Values();
    MultipleVanishes(Shl(y, k) + x, LIMB_BITS, bits, Shr(y, LIMB_BITS - k));
    assert x + Pow2(k) * y == Shl(y, k) + x + B * Shr(y, LIMB_BITS - k);
  }

  lemma ShrSmall(x: Limb, shift: nat)
    requires shift < LIMB_BITS
    ensures Shr(x, shift) < Pow2(LIMB_BITS - shift)
  {
    ShlSplit(x, LIMB_BITS - shift);
  }

  lemma OrIsSum(hi: Limb, lo: Limb, k: nat)
    requires k <= LIMB_BITS && lo < Pow2(k) && 0 < Pow2(k) && hi % Pow2(k) == 0
    ensures OrDisjoint(hi, lo, k) == hi + lo
  {
  }

  // A digit whose low k bits are in hand and whose others start the limb y.
  method JoinDigit(digit: Byte, y: Limb, k: nat, bits: nat) returns (r: Byte)
    requires 1 <= bits <= 8 && k <= bits && digit < Pow2(k)
    ensures 0 < Pow2(bits) && r % Pow2(bits) == (digit + Pow2(k) * y) % Pow2(bits)
  {
    DigitAcross(digit, y, k, bits);
    var both: Limb := OrDisjoint(Shl(y, k), digit, k);
    OrIsSum(Shl(y, k), digit, k);
    ModMod(both, bits);
    r := both % 256;
  }

  // One digit of mpn_get_str_bits, and the place of the next.
  method NextDigit(up: array<Limb>, un: nat, i: nat, shift: nat, bits: nat, ghost n: nat)
    returns (digit: Byte, i': nat, shift': nat)
    requires i < un <= up.Length && 1 <= bits <= 8 && At(i, shift, n, un)
    ensures 0 < Pow2(bits) && 0 < Pow2(n) && digit == Val(up[..un]) / Pow2(n) % Pow2(bits)
    ensures At(i', shift', n + bits, un)
  {
    DigitOf(up[..un], i, shift, bits);
    if shift + bits == LIMB_BITS {
      DigitOfExact(up[..un], i, shift, bits);
    }
    var w: Limb := Shr(up[i], shift);
    ModMod(w, bits);
    var d: Byte := w % 256;
    i', shift' := i, shift + bits;
    if shift' >= LIMB_BITS {
      i' := i' + 1;
      if i' < un {
        shift' := shift' - LIMB_BITS;
        ShrByte(up[i], shift, bits - shift', bits);
        d := JoinDigit(d, up[i'], bits - shift', bits);
        assert up[..un][i + 1] == up[i'];
      }
    }
    digit := LowBits(d, bits);
  }

  // The last bits of a limb fit a byte.
  lemma ShrByte(x: Limb, shift: nat, k: nat, bits: nat)
    requires shift < LIMB_BITS && k == LIMB_BITS - shift <= bits <= 8
    ensures Shr(x, shift) < Pow2(k) && Shr(x, shift) % 256 == Shr(x, shift)
  {
    ShrSmall(x, shift);
    PowMono(2, k, 8);
    SmallPowers();
    DivModUnique(Shr(x, shift), 256, 0, Shr(x, shift));
  }

  lemma DigitOfExact(U: seq<Limb>, limbs: nat, shift: nat, bits: nat)
    requires limbs < |U| && shift < LIMB_BITS && 1 <= bits <= 8 && shift + bits == LIMB_BITS
    ensures 0 < Pow2(bits) && (limbs + 1 < |U| ==>
              (Shr(U[limbs], shift) + Pow2(LIMB_BITS - shift) * U[limbs + 1]) % Pow2(bits) ==
              Shr(U[limbs], shift) % Pow2(bits))
  {
    PowPositive(2, bits);
    if limbs + 1 < |U| {
      MultipleVanishes(Shr(U[limbs], shift), bits, bits, U[limbs + 1]);
    }
  }

  // A digit in front of the ones produced so far.
  lemma DigitInFront(u: int, n: nat, bits: nat, digit: Byte, s: seq<Byte>)
    requires 0 < Pow2(n) && 0 < Pow2(bits) && n == bits * |s|
    requires digit == u / Pow2(n) % Pow2(bits) && Big(s, Pow2(bits)) == u % Pow2(n)
    ensures 0 < Pow2(n + bits) && Big([digit] + s, Pow2(bits)) == u % Pow2(n + bits)
  {
    PowAdd(2, n, bits);
    PowOfPower(2, bits, |s|);
    DivByProduct(u, Pow2(n), Pow2(bits));
    assert ([digit] + s)[1..] == s;
    BigCons([digit] + s, Pow2(bits));
  }

  lemma CeilDiv(n: nat, d: nat, q: nat)
    requires 1 <= n && 1 <= d && q == (n + d - 1) / d
    ensures 1 <= q && d * (q - 1) < n <= d * q
  {
    DivMod(n + d - 1, d);
    if q < 1 {
      MulMono(q, 0, d);
    }
    Distribute(d, q, 1);
  }

  // The top digit is not zero.
  lemma TopDigit(s: seq<Byte>, b: int, u: int)
    requires s != [] && 1 < b && DigitsBelow(s, b) && Big(s, b) == u && Pow(b, |s| - 1) <= u
    ensures s[0] != 0
  {
    BigCons(s, b);
    BigBound(s[1..], b);
  }

  // The buffer holds all digits of u.
  lemma DigitCount(u: int, b: int, bits: nat, len: nat, sn: nat, room: nat)
    requires 1 <= bits && b == Pow2(bits) && 1 <= len && Pow2(len - 1) <= u < Pow2(len) && u < Pow(b, room)
    requires sn == (len + bits - 1) / bits
    ensures 1 <= sn <= room && bits * (sn - 1) < len <= bits * sn && Pow(b, sn - 1) <= u < Pow(b, sn)
  {
    CeilDiv(len, bits, sn);
    PowOfPower(2, bits, sn - 1);
    PowOfPower(2, bits, sn);
    PowOfPower(2, bits, room);
    MulNonneg(bits, sn - 1);
    PowMono(2, bits * (sn - 1), len - 1);
    PowMono(2, len, bits * sn);
    if room < sn {
      MulMono(room, sn - 1, bits);
      PowMono(2, bits * room, bits * (sn - 1));
    }
  }

  /** The digits s are those of u: below the base, and the first not zero. */
  ghost predicate DigitsOf(s: seq<Byte>, u: int, b: int) {
    DigitsBelow(s, b) && Big(s, b) == u && s != [] && s[0] != 0
  }

  lemma PositionBefore(bits: nat, sn: nat, j: nat, len: nat)
    requires bits * (sn - 1) < len && 1 <= j <= sn
    ensures 0 <= bits * (sn - j) < len && bits * (sn - j) + bits == bits * (sn - (j - 1))
  {
    MulNonneg(bits, sn - j);
    MulMono(sn - j, sn - 1, bits);
    Distribute(bits, sn - j, 1);
  }

  /** mpn_get_str_bits: digits cut out of the limbs, from the last to the first. */
  method GetStrBits(sp: array<Byte>, bits: nat, up: array<Limb>, un: nat) returns (sn: nat)
    requires 1 <= bits <= 8 && 1 <= un <= up.Length && Normalised(up[..un])
    requires Val(up[..un]) < Pow(Pow2(bits), sp.Length)
    modifies sp
    ensures sn <= sp.Length && DigitsOf(sp[..sn], Val(up[..un]), Pow2(bits))
  {
    ghost var U, b := Val(up[..un]), Pow2(bits);
    var len := BitLength(up, un);
    sn := (len + bits - 1) / bits;
    DigitCount(U, b, bits, len, sn, sp.Length);
    LimbFits(0, bits);
    var i: nat, shift: nat, j: nat := 0, 0, sn;
    ghost var n: nat := 0;
    PowStep(2, 0);
    BigEmpty(b);
    assert sp[sn..sn] == [];
    while j > 0
      invariant j <= sn && n == bits * (sn - j) && At(i, shift, n, un)
      invariant DigitsBelow(sp[j..sn], b) && 0 < Pow2(n) && Big(sp[j..sn], b) == U % Pow2(n)
    {
      PositionBefore(bits, sn, j, len);
      var digit: Byte;
      digit, i, shift := NextDigit(up, un, i, shift, bits, n);
      DigitInFront(U, n, bits, digit, sp[j..sn]);
      ghost var s := sp[j..sn];
      j := j - 1;
      sp[j] := digit;
      assert sp[j..sn] == [digit] + s;
      n := n + bits;
    }
    PowOfPower(2, bits, sn);
    DivModUnique(U, Pow2(n), 0, U);
    assert sp[0..sn] == sp[..sn];
    TopDigit(sp[..sn], b, U);
  }

  // --- from digits of a few bits to limbs ---

  /** The limbs R hold n bits of value v; shift counts the bits in the top limb, zero standing for a full one. */
  ghost predicate Filled(R: seq<Limb>, shift: nat, n: nat, v: int) {
    && Val(R) == v && 0 <= v < Pow2(n) && shift < LIMB_BITS
    && if shift == 0 then n == LIMB_BITS * |R| else R != [] && n == LIMB_BITS * (|R| - 1) + shift
  }

  lemma TopLimbBits(R: seq<Limb>, shift: nat, n: nat, v: int)
    requires Filled(R, shift, n, v) && 0 < shift
    ensures R[|R| - 1] < Pow2(shift) && Pow2(n) == Pow2(shift) * Place(|R| - 1)
  {
    TopOne(R);
    ValBound(R[..|R| - 1]);
    PlaceStep(|R| - 1);
    PlaceIsPow2(|R| - 1);
    PowAdd(2, shift, LIMB_BITS * (|R| - 1));
    MulCancel(R[|R| - 1], Pow2(shift), Place(|R| - 1));
  }

  lemma AppendedBound(v: int, x: int, p: int, q: int)
    requires 0 <= v < p && 0 <= x < q
    ensures 0 <= v + x * p < q * p
  {
    MulNonneg(x, p);
    MulMono(x + 1, q, p);
    Distribute(p, x, 1);
  }

  // A digit that starts a limb.
  lemma FillNew(R: seq<Limb>, n: nat, v: int, x: Byte, bits: nat)
    requires Filled(R, 0, n, v) && 1 <= bits <= 8 && x < Pow2(bits)
    ensures Filled(R + [x], bits, n + bits, v + x * Pow2(n))
  {
    ValSnoc(R, x);
    PlaceIsPow2(|R|);
    PowAdd(2, bits, n);
    AppendedBound(v, x, Pow2(n), Pow2(bits));
  }

  // A digit that goes on top of the bits in the top limb, with what spills over.
  lemma FillSpill(R: seq<Limb>, shift: nat, n: nat, v: int, x: Byte, bits: nat, R': seq<Limb>)
    requires Filled(R, shift, n, v) && 0 < shift && 1 <= bits <= 8 && x < Pow2(bits)
    requires |R'| == |R| && R'[..|R| - 1] == R[..|R| - 1] && R'[|R| - 1] == Shl(x, shift) + R[|R| - 1]
    ensures Val(R') + Shr(x, LIMB_BITS - shift) * Place(|R|) == v + x * Pow2(n)
    ensures 0 <= v + x * Pow2(n) < Pow2(n + bits)
  {
    TopOne(R);
    TopOne(R');
    TopLimbBits(R, shift, n, v);
    ShlSplit(x, shift);
    PlaceStep(|R| - 1);
    SpillAlgebra(x, Pow2(shift), Place(|R| - 1), Shl(x, shift), Shr(x, LIMB_BITS - shift), R[|R| - 1]);
    PowAdd(2, bits, n);
    AppendedBound(v, x, Pow2(n), Pow2(bits));
  }

  lemma SpillAlgebra(x: int, s: int, p: int, l: int, h: int, t: int)
    requires x * s == l + h * B
    ensures (l + t) * p + h * (B * p) == t * p + x * (s * p)
  {
    Assoc(x, s, p);
    Assoc(h, B, p);
    Distribute(p, l, t);
    Distribute(p, l, h * B);
  }

  // Nothing spills over unless the digit passes the end of the limb.
  lemma NoSpill(x: Byte, shift: nat, bits: nat)
    requires 0 < shift < LIMB_BITS && shift + bits <= LIMB_BITS && x < Pow2(bits)
    ensures Shr(x, LIMB_BITS - shift) == 0
  {
    PowPositive(2, LIMB_BITS - shift);
    PowMono(2, bits, LIMB_BITS - shift);
    DivModUnique(x, Pow2(LIMB_BITS - shift), 0, x);
  }

  /** One digit of mpn_set_str_bits. */
  method PutDigit(rp: array<Limb>, rn: nat, shift: nat, x: Byte, bits: nat, ghost n: nat, ghost v: int)
    returns (rn': nat, shift': nat)
    requires rn <= rp.Length && Filled(rp[..rn], shift, n, v) && 1 <= bits <= 8 && x < Pow2(bits)
    requires n + bits <= LIMB_BITS * rp.Length
    modifies rp
    ensures rn' <= rp.Length && Filled(rp[..rn'], shift', n + bits, v + x * Pow2(n))
  {
    rn', shift' := rn, shift + bits;
    ghost var R := rp[..rn];
    if shift == 0 {
      rp[rn] := x;
      rn' := rn + 1;
      FillNew(R, n, v, x, bits);
      assert rp[..rn + 1] == R + [x];
    } else {
      TopLimbBits(R, shift, n, v);
      ShlSplit(x, shift);
      OrIsSum(Shl(x, shift), rp[rn - 1], shift);
      rp[rn - 1] := OrDisjoint(Shl(x, shift), rp[rn - 1], shift);
      ghost var R' := rp[..rn];
      FillSpill(R, shift, n, v, x, bits, R');
      if shift' < LIMB_BITS {
        NoSpill(x, shift, bits);
      } else {
        shift' := shift' - LIMB_BITS;
        if shift' > 0 {
          ValSnoc(R', Shr(x, bits - shift'));
          rp[rn] := Shr(x, bits - shift');
          rn' := rn + 1;
          assert rp[..rn + 1] == R' + [Shr(x, bits - shift')];
        } else {
          NoSpill(x, shift, bits);
        }
      }
    }
  }

  // The digit before position j goes on top of the ones behind it.
  method PutNext(rp: array<Limb>, rn: nat, shift: nat, sp: array<Byte>, j: nat, sn: nat, bits: nat, ghost n: nat,
                 ghost v: int)
    returns (rn': nat, shift': nat)
    requires 1 <= bits <= 8 && 1 <= j <= sn <= sp.Length && DigitsBelow(sp[..sn], Pow2(bits))
    requires rn <= rp.Length && Filled(rp[..rn], shift, n, v) && n + bits <= LIMB_BITS * rp.Length
    requires n == bits * (sn - j) && v == Big(sp[j..sn], Pow2(bits))
    modifies rp
    ensures rn' <= rp.Length && Filled(rp[..rn'], shift', n + bits, Big(sp[j - 1..sn], Pow2(bits)))
  {
    var x := sp[j - 1];
    assert x == sp[..sn][j - 1];
    PowOfPower(2, bits, sn - j);
    assert sp[j - 1..sn] == [x] + sp[j..sn];
    BigCons(sp[j - 1..sn], Pow2(bits));
    rn', shift' := PutDigit(rp, rn, shift, x, bits, n, v);
  }

  /** mpn_set_str_bits: digits packed into limbs, from the last to the first. */
  method SetStrBits(rp: array<Limb>, sp: array<Byte>, sn: nat, bits: nat) returns (rn: nat)
    requires 1 <= bits <= 8 && sn <= sp.Length && DigitsBelow(sp[..sn], Pow2(bits))
    requires sn * bits <= LIMB_BITS * rp.Length
    modifies rp
    ensures rn <= rp.Length && Normalised(rp[..rn]) && Val(rp[..rn]) == Big(sp[..sn], Pow2(bits))
  {
    ghost var b := Pow2(bits);
    var j: nat, shift: nat := sn, 0;
    ghost var n: nat, v := 0, 0;
    rn := 0;
    PowStep(2, 0);
    BigEmpty(b);
    ValEmpty();
    assert rp[..0] == [] && sp[sn..sn] == [];
    while j > 0
      invariant j <= sn && n == bits * (sn - j) && rn <= rp.Length
      invariant Filled(rp[..rn], shift, n, v) && v == Big(sp[j..sn], b)
    {
      PositionBefore(bits, sn, j, bits * (sn - 1) + 1);
      MulMono(sn - (j - 1), sn, bits);
      rn, shift := PutNext(rp, rn, shift, sp, j, sn, bits, n, v);
      j := j - 1;
      n := n + bits;
      v := Big(sp[j..sn], b);
    }
    assert sp[0..sn] == sp[..sn];
    rn := NormalizedSize(rp, rn);
  }

  // --- other bases, least significant digit first ---

  /** The value of digits with the least significant first. */
  function Little(s: seq<Byte>, b: int): int {
    Big(Reversed(s), b)
  }

  lemma LittleSnoc(s: seq<Byte>, x: Byte, b: int)
    ensures Little(s + [x], b) == Little(s, b) + x * Pow(b, |s|)
  {
    assert Reversed(s + [x]) == [x] + Reversed(s);
    assert Reversed(s + [x])[1..] == Reversed(s);
    BigCons(Reversed(s + [x]), b);
  }

  lemma LittleConcat(s: seq<Byte>, t: seq<Byte>, b: int)
    ensures Little(s + t, b) == Little(s, b) + Little(t, b) * Pow(b, |s|)
  {
    assert Reversed(s + t) == Reversed(t) + Reversed(s);
    BigConcat(Reversed(t), Reversed(s), b);
  }

  lemma LittleEmpty(b: int)
    ensures Little([], b) == 0
  {
    assert Reversed([]) == [];
    BigEmpty(b);
  }

  // Quotient and remainder of a limb by the prepared base.
  method DivLimb(w: Limb, inv: DivInverse, ghost b: Limb) returns (q: Limb, r: Limb)
    requires 2 <= b <= 256 && InverseOf(inv, [b])
    ensures q == w / b && r == w % b
  {
    ValCons([b]);
    ValEmpty();
    assert [b][1..] == [];
    ShlSplit(w, inv.shift);
    ghost var s := Pow2(inv.shift);
    PowMono(2, inv.shift, 63);
    Pow2Values();
    var r': Limb;
    q, r' := UdivQrnndPreinv(Shr(w, LIMB_BITS - inv.shift), Shl(w, inv.shift), inv.d1, inv.di);
    Unshift(w, q, b, s, r');
    r := Shr(r', inv.shift);
    DivModUnique(w, b, q, r);
  }

  lemma DigitStep(w0: int, l: int, b: int, p: int, w: int)
    requires 1 < b && w0 == l + w * p && 0 <= w
    ensures w0 == l + w % b * p + w / b * (b * p)
  {
    DivMod(w, b);
    assert (w / b * b + w % b) * p == w / b * (b * p) + w % b * p;
  }

  /** mpn_limb_get_str: the digits of a limb, least significant first, without leading zeros. */
  method LimbGetStr(sp: array<Byte>, so: nat, w0: Limb, inv: DivInverse, ghost b: Limb, ghost room: nat)
    returns (n: nat)
    requires 2 <= b <= 256 && InverseOf(inv, [b]) && so + room <= sp.Length && w0 < Pow(b, room)
    modifies sp
    ensures n <= room && Little(sp[so..so + n], b) == w0 && DigitsBelow(sp[so..so + n], b)
    ensures 0 < n ==> sp[so + n - 1] != 0
    ensures 0 < w0 ==> 0 < n
    ensures forall k :: 0 <= k < sp.Length && !(so <= k < so + n) ==> sp[k] == old(sp[k])
  {
    var w: Limb := w0;
    n := 0;
    LittleEmpty(b);
    PowStep(b, 0);
    assert sp[so..so] == [];
    while w > 0
      invariant n <= room && DigitsBelow(sp[so..so + n], b)
      invariant w0 == Little(sp[so..so + n], b) + w * Pow(b, n) && 0 <= Little(sp[so..so + n], b)
      invariant w == 0 && 0 < n ==> sp[so + n - 1] != 0
      invariant forall k :: 0 <= k < sp.Length && !(so <= k < so + n) ==> sp[k] == old(sp[k])
      decreases w
    {
      RoomLeft(w0, Little(sp[so..so + n], b), w, b, n, room);
      ghost var s := sp[so..so + n];
      var q: Limb, r: Limb := DivLimb(w, inv, b);
      DigitStep(w0, Little(s, b), b, Pow(b, n), w);
      PowStep(b, n);
      QuotientShrinks(w, b);
      sp[so + n] := r;
      assert sp[so..so + n + 1] == s + [r];
      LittleSnoc(s, r, b);
      PowPositive(b, n);
      MulNonneg(r, Pow(b, n));
      w := q;
      n := n + 1;
    }
  }

  lemma QuotientShrinks(w: int, b: int)
    requires 0 < w && 1 < b
    ensures 0 <= w / b < w && (w / b == 0 ==> w % b == w)
  {
    DivMod(w, b);
    if w / b < 0 {
      MulMono(w / b, -1, b);
    } else if w / b >= w {
      MulMono(w, w / b, b);
      MulStrict(1, b, w);
    }
  }

  lemma RoomLeft(w0: int, l: int, w: int, b: int, n: nat, room: nat)
    requires w0 == l + w * Pow(b, n) && 0 <= l && 0 < w && w0 < Pow(b, room) && 1 < b
    ensures n < room
  {
    PowPositive(b, n);
    MulMono(1, w, Pow(b, n));
    if room <= n {
      PowMono(b, room, n);
    }
  }

  // Zero digits up to the width of a chunk.
  method PadZeros(sp: array<Byte>, so: nat, from: nat, to: nat, ghost b: int)
    requires from <= to && so + to <= sp.Length
    modifies sp
    ensures sp[so..so + from] == old(sp[so..so + from])
    ensures Little(sp[so..so + to], b) == Little(old(sp[so..so + from]), b)
    ensures DigitsBelow(old(sp[so..so + from]), b) && 0 < b ==> DigitsBelow(sp[so..so + to], b)
    ensures forall k :: 0 <= k < sp.Length && !(so + from <= k < so + to) ==> sp[k] == old(sp[k])
  {
    var done := from;
    ghost var S := sp[so..so + from];
    while done < to
      invariant from <= done <= to && sp[so..so + from] == S
      invariant Little(sp[so..so + done], b) == Little(S, b)
      invariant DigitsBelow(S, b) && 0 < b ==> DigitsBelow(sp[so..so + done], b)
      invariant forall k :: 0 <= k < sp.Length && !(so + from <= k < so + to) ==> sp[k] == old(sp[k])
    {
      ghost var T := sp[so..so + done];
      sp[so + done] := 0;
      assert sp[so..so + done + 1] == T + [0];
      LittleSnoc(T, 0, b);
      done := done + 1;
    }
  }

  /** Digits written so far and the limbs still to convert make up u. */
  ghost predicate Converting(S: seq<Byte>, V: seq<Limb>, u: int, b: int) {
    && DigitsBelow(S, b) && V != [] && Normalised(V)
    && u == Little(S, b) + Val(V) * Pow(b, |S|)
  }

  lemma LittleBound(s: seq<Byte>, b: int)
    requires 1 < b && DigitsBelow(s, b)
    ensures 0 <= Little(s, b) < Pow(b, |s|)
  {
    BigBound(Reversed(s), b);
  }

  // A chunk of digits goes behind the ones written.
  lemma ChunkDone(S: seq<Byte>, C: seq<Byte>, v: int, q: int, w: int, u: int, b: int)
    requires 1 < b && u == Little(S, b) + v * Pow(b, |S|) && v == q * Pow(b, |C|) + w && Little(C, b) == w
    ensures u == Little(S + C, b) + q * Pow(b, |S + C|)
  {
    LittleConcat(S, C, b);
    PowAdd(b, |C|, |S|);
    Regroup(q, Pow(b, |C|), Pow(b, |S|), w);
    assert |S + C| == |C| + |S|;
  }

  // As long as limbs are left, there is room for their digits.
  lemma ChunkRoom(u: int, b: int, l: int, v: int, n: nat, e: nat, room: nat)
    requires 1 < b && u == l + v * Pow(b, n) && 0 <= l && Pow(b, e) <= v && u < Pow(b, room)
    ensures n + e < room
  {
    PowPositive(b, n);
    MulMono(Pow(b, e), v, Pow(b, n));
    PowAdd(b, e, n);
    if room <= n + e {
      PowMono(b, room, n + e);
    }
  }

  // Dividing by less than a limb leaves at most one limb less.
  lemma QuotientLimbs(V: seq<Limb>, Q: seq<Limb>, bb: int, w: int)
    requires |V| == |Q| >= 2 && Normalised(V) && 0 < bb < B && Val(V) == Val(Q) * bb + w && 0 <= w < bb
    ensures Q[|Q| - 1] == 0 ==> Normalised(Q[..|Q| - 1]) && Val(Q[..|Q| - 1]) == Val(Q)
    ensures bb <= Val(V) && 0 < Val(Q)
  {
    var n := |V|;
    NormalisedBound(V);
    PlaceStep(n - 2);
    PlaceStep(0);
    MulMono(1, Place(n - 2), B);
    if Val(Q) + 1 <= Place(n - 2) {
      MulMono(Val(Q) + 1, Place(n - 2), bb);
      MulMono(bb, B, Place(n - 2));
      Distribute(bb, Val(Q), 1);
    }
    TopLimbOfLarge(Q, Val(Q));
  }

  method DivideChunk(up: array<Limb>, un: nat, inv: DivInverse, bb: Limb) returns (w: Limb, un': nat)
    requires 2 <= un <= up.Length && Normalised(up[..un]) && 1 < bb && InverseOf(inv, [bb])
    modifies up
    ensures 1 <= un' <= un && Normalised(up[..un']) && w < bb <= old(Val(up[..un]))
    ensures old(Val(up[..un])) == Val(up[..un']) * bb + w && 0 < Val(up[..un'])
            && (un' == un ==> Val(up[..un']) < old(Val(up[..un])))
  {
    ghost var V := up[..un];
    ValCons([bb]);
    ValEmpty();
    assert [bb][1..] == [];
    ghost var Q;
    w, Q := DivQr1Preinv(up, up, un, inv, bb);
    assert up[..un] == Q;
    QuotientLimbs(V, Q, bb, w);
    un' := un;
    if up[un - 1] == 0 {
      un' := un - 1;
      assert up[..un - 1] == Q[..un - 1];
    }
    MulStrict(1, bb, Val(Q));
  }

  lemma LastRoom(u: int, l: int, v: int, b: int, n: nat, room: nat)
    requires 1 < b && u == l + v * Pow(b, n) && 0 <= l && 0 < v && u < Pow(b, room)
    ensures n < room && v < Pow(b, room - n)
  {
    PowStep(b, 0);
    PowPositive(b, n);
    ChunkRoom(u, b, l, v, n, 0, room);
    PowAdd(b, room - n, n);
    MulCancel(v, Pow(b, room - n), Pow(b, n));
  }

  /** One turn of the chunk loop: the digits of the remainder by the large power, padded with zeros. */
  method GetChunk(sp: array<Byte>, sn: nat, up: array<Limb>, un: nat, info: BaseInfo, binv: DivInverse,
                  bbinv: DivInverse, ghost b: Limb, ghost u: int) returns (sn': nat, un': nat)
    requires 2 <= b <= 256 && LargestPower(info, b) && InverseOf(binv, [b]) && InverseOf(bbinv, [info.bb])
    requires sn <= sp.Length && 2 <= un <= up.Length && Converting(sp[..sn], up[..un], u, b) && u < Pow(b, sp.Length)
    modifies sp, up
    ensures sn' <= sp.Length && 1 <= un' <= un && Converting(sp[..sn'], up[..un'], u, b)
    ensures 0 < Val(up[..un']) < old(Val(up[..un]))
  {
    ghost var S, v := sp[..sn], Val(up[..un]);
    PowStep(b, info.exp - 1);
    PowPositive(b, info.exp - 1);
    MulMono(1, Pow(b, info.exp - 1), b);
    LittleBound(S, b);
    var w;
    w, un' := DivideChunk(up, un, bbinv, info.bb);
    ChunkRoom(u, b, Little(S, b), v, sn, info.exp, sp.Length);
    var done := LimbGetStr(sp, sn, w, binv, b, info.exp);
    PadZeros(sp, sn, done, info.exp, b);
    sn' := sn + info.exp;
    ghost var C := sp[sn..sn'];
    assert sp[..sn'] == S + C;
    ChunkDone(S, C, v, Val(up[..un']), w, u, b);
    DividendLarger(v, Val(up[..un']), info.bb, w);
  }

  lemma DividendLarger(v: int, q: int, bb: int, w: int)
    requires v == q * bb + w && 0 < q && 1 < bb && 0 <= w
    ensures q < v
  {
    MulStrict(1, bb, q);
  }

  /** Reverses the first n digits in place. */
  method Reverse(sp: array<Byte>, n: nat)
    requires n <= sp.Length
    modifies sp
    ensures sp[..n] == Reversed(old(sp[..n]))
  {
    var i := 0;
    while 2 * i + 1 < n
      invariant 2 * i <= n + 1
      invariant forall k :: 0 <= k < n ==>
        sp[k] == if k < i || n - i <= k then old(sp[n - 1 - k]) else old(sp[k])
    {
      var t := sp[i];
      sp[i] := sp[n - i - 1];
      sp[n - i - 1] := t;
      i := i + 1;
    }
    assert forall k :: 0 <= k < n ==> sp[k] == old(sp[n - 1 - k]);
  }

  // The chunks, then the digits of the last limb: all digits, least significant first.
  method GetDigits(sp: array<Byte>, b: Limb, info: BaseInfo, up: array<Limb>, un0: nat) returns (sn: nat)
    requires 2 <= b <= 256 && LargestPower(info, b)
    requires 1 <= un0 <= up.Length && Normalised(up[..un0]) && Val(up[..un0]) < Pow(b, sp.Length)
    modifies sp, up
    ensures 1 <= sn <= sp.Length && Little(sp[..sn], b) == old(Val(up[..un0])) && DigitsBelow(sp[..sn], b)
    ensures sp[sn - 1] != 0
  {
    var un := un0;
    ghost var u := Val(up[..un]);
    var binv := DivQr1Invert(b);
    var bbinv := DivQr1Invert(info.bb);
    sn := 0;
    NormalisedBound(up[..un]);
    PlaceStep(un - 1);
    LittleEmpty(b);
    PowStep(b, 0);
    assert sp[..0] == [];
    while un > 1
      invariant sn <= sp.Length && 1 <= un <= up.Length && Converting(sp[..sn], up[..un], u, b) && 0 < Val(up[..un])
      decreases Val(up[..un])
    {
      sn, un := GetChunk(sp, sn, up, un, info, binv, bbinv, b, u);
    }
    ghost var S := sp[..sn];
    assert up[..1] == [up[0]] && [up[0]][1..] == [];
    ValCons(up[..1]);
    ValEmpty();
    LittleBound(S, b);
    LastRoom(u, Little(S, b), up[0], b, sn, sp.Length);
    var n := LimbGetStr(sp, sn, up[0], binv, b, sp.Length - sn);
    assert sp[..sn + n] == S + sp[sn..sn + n];
    LittleConcat(S, sp[sn..sn + n], b);
    sn := sn + n;
  }

  /** mpn_get_str_other. */
  method GetStrOther(sp: array<Byte>, b: Limb, info: BaseInfo, up: array<Limb>, un: nat) returns (sn: nat)
    requires 2 <= b <= 256 && LargestPower(info, b)
    requires 1 <= un <= up.Length && Normalised(up[..un]) && Val(up[..un]) < Pow(b, sp.Length)
    modifies sp, up
    ensures sn <= sp.Length && DigitsOf(sp[..sn], old(Val(up[..un])), b)
  {
    sn := GetDigits(sp, b, info, up, un);
    Reverse(sp, sn);
  }

  /** mpn_get_str: the digits of a positive number, most significant first; the limbs may be used up. */
  method GetStr(sp: array<Byte>, b: Limb, up: array<Limb>, un: nat) returns (sn: nat)
    requires 2 <= b <= 256
    requires 1 <= un <= up.Length && Normalised(up[..un]) && Val(up[..un]) < Pow(b, sp.Length)
    modifies sp, up
    ensures sn <= sp.Length && DigitsOf(sp[..sn], old(Val(up[..un])), b)
  {
    var bits := BaseBits(b);
    if bits != 0 {
      sn := GetStrBits(sp, bits, up, un);
    } else {
      var info := GetBaseInfo(b);
      sn := GetStrOther(sp, b, info, up, un);
    }
  }

  // --- from digits of other bases to limbs ---

  /** The value of a chunk of digits, which fits a limb. */
  method ReadChunk(sp: array<Byte>, from: nat, len: nat, b: Limb, info: BaseInfo) returns (w: Limb)
    requires 2 <= b <= 256 && LargestPower(info, b) && 1 <= len <= info.exp && from + len <= sp.Length
    requires DigitsBelow(sp[from..from + len], b)
    ensures w == Big(sp[from..from + len], b) && w < Pow(b, len)
  {
    ghost var s := sp[from..from + len];
    w := sp[from];
    var k := 1;
    BigOne(s[0], b);
    assert s[..1] == [s[0]];
    while k < len
      invariant 1 <= k <= len && w == Big(s[..k], b)
    {
      BigSnoc(s[..k], s[k], b);
      assert s[..k + 1] == s[..k] + [s[k]];
      BigBound(s[..k + 1], b);
      PowMono(b, k + 1, info.exp);
      w := w * b + sp[from + k];
      k := k + 1;
    }
    assert s[..len] == s;
    BigBound(s, b);
  }

  lemma CarrySmall(v: int, bb: int, w: int, p: int, r: int, cy: int)
    requires 0 <= v < p && 0 <= w < bb && r + cy * p == v * bb + w && 0 <= r < p
    ensures cy < bb && 0 <= v * bb
    ensures 0 < bb ==> v <= v * bb + w
  {
    MulMono(v + 1, p, bb);
    Distribute(bb, v, 1);
    MulNonneg(v, bb);
    MulMono(1, bb, v);
    if cy >= bb {
      MulMono(bb, cy, p);
    }
  }

  lemma SumOfCarries(r1: int, c1: int, r2: int, c2: int, p: int, x: int, w: int)
    requires r1 + c1 * p == x && r2 + c2 * p == r1 + w
    ensures r2 + (c1 + c2) * p == x + w
  {
    Distribute(p, c1, c2);
  }

  lemma StillTop(R: seq<Limb>, v: int)
    requires R != [] && Val(R) >= v && (|R| > 1 ==> Place(|R| - 1) <= v)
    ensures |R| > 1 ==> R[|R| - 1] != 0
  {
    TopOne(R);
    ValBound(R[..|R| - 1]);
  }

  /** The number times the large power plus the next chunk. */
  method TakeChunk(rp: array<Limb>, rn: nat, bb: Limb, w: Limb) returns (rn': nat)
    requires 1 <= rn < rp.Length && (rn > 1 ==> rp[rn - 1] != 0) && w < bb
    modifies rp
    ensures rn <= rn' <= rn + 1 && (rn' > 1 ==> rp[rn' - 1] != 0)
    ensures Val(rp[..rn']) == old(Val(rp[..rn])) * bb + w
  {
    ghost var V, v := rp[..rn], Val(rp[..rn]);
    if rn > 1 {
      NormalisedBound(V);
    }
    ValBound(V);
    assert rp[0..0 + rn] == V;
    var c1: int := Mul1(rp, 0, rp, 0, rn, bb);
    ghost var r1 := Val(rp[0..0 + rn]);
    var c2: int := Add1(rp, 0, rp, 0, rn, w);
    ghost var R := rp[..rn];
    assert rp[0..0 + rn] == R;
    SumOfCarries(r1, c1, Val(R), c2, Place(rn), v * bb, w);
    ValBound(R);
    CarrySmall(v, bb, w, Place(rn), Val(R), c1 + c2);
    var cy: Limb := c1 + c2;
    rn' := rn;
    if cy > 0 {
      ValSnoc(R, cy);
      rp[rn] := cy;
      rn' := rn + 1;
      assert rp[..rn + 1] == R + [cy];
    } else {
      StillTop(R, v);
    }
  }

  // How the first, possibly shorter chunk is chosen.
  lemma FirstChunk(sn: nat, exp: nat)
    requires 1 <= sn && 1 <= exp
    ensures var k, c := 1 + (sn - 1) % exp, (sn + exp - 1) / exp;
            1 <= k <= exp && k <= sn && 1 <= c && sn == k + exp * (c - 1)
  {
    DivMod(sn - 1, exp);
    DivNonneg(sn - 1, exp);
    Distribute(exp, (sn - 1) / exp, 1);
    DivModUnique(sn + exp - 1, exp, (sn - 1) / exp + 1, (sn - 1) % exp);
    MulNonneg((sn - 1) / exp, exp);
  }

  lemma ChunksLeft(k: int, exp: int, c: int, total: int)
    requires 1 <= exp
    ensures k + exp * (c - 1) < k + exp * (total - 1) <==> c < total
    ensures c < total ==> k + exp * c <= k + exp * (total - 1)
    ensures exp * c == exp * (c - 1) + exp
  {
    Distribute(exp, c, 1);
    if c < total {
      MulMono(c, total - 1, exp);
    } else {
      MulMono(total - 1, c - 1, exp);
    }
  }

  // One full chunk.
  method NextChunk(rp: array<Limb>, rn: nat, sp: array<Byte>, j: nat, sn: nat, b: Limb, info: BaseInfo)
    returns (rn': nat)
    requires 2 <= b <= 256 && LargestPower(info, b) && j + info.exp <= sn <= sp.Length && DigitsBelow(sp[..sn], b)
    requires 1 <= rn < rp.Length && (rn > 1 ==> rp[rn - 1] != 0) && Val(rp[..rn]) == Big(sp[..j], b)
    modifies rp
    ensures rn <= rn' <= rn + 1 && (rn' > 1 ==> rp[rn' - 1] != 0) && Val(rp[..rn']) == Big(sp[..j + info.exp], b)
  {
    var e := j + info.exp;
    ghost var s := sp[j..e];
    assert s == sp[..sn][j..e];
    BigConcat(sp[..j], s, b);
    assert sp[..e] == sp[..j] + s;
    var w := ReadChunk(sp, j, info.exp, b, info);
    rn' := TakeChunk(rp, rn, info.bb, w);
  }

  /** mpn_set_str_other. A single zero limb stands for zero. */
  method SetStrOther(rp: array<Limb>, sp: array<Byte>, sn: nat, b: Limb, info: BaseInfo) returns (rn: nat)
    requires 2 <= b <= 256 && LargestPower(info, b) && 1 <= sn <= sp.Length && DigitsBelow(sp[..sn], b)
    requires (sn + info.exp - 1) / info.exp <= rp.Length
    modifies rp
    ensures 1 <= rn <= rp.Length && (rn > 1 ==> rp[rn - 1] != 0) && Val(rp[..rn]) == Big(sp[..sn], b)
  {
    var exp := info.exp;
    var k := 1 + (sn - 1) % exp;
    ghost var total := (sn + exp - 1) / exp;
    FirstChunk(sn, exp);
    assert sp[0..0 + k] == sp[..sn][0..k];
    var w: Limb := ReadChunk(sp, 0, k, b, info);
    var j := k;
    rp[0] := w;
    rn := 1;
    assert rp[..1] == [w] && [w][1..] == [] && sp[0..0 + k] == sp[..k];
    ValCons(rp[..1]);
    ValEmpty();
    ghost var c: nat := 1;
    while j < sn
      invariant j == k + exp * (c - 1) && j <= sn && rn <= c <= total
      invariant 1 <= rn <= rp.Length && (rn > 1 ==> rp[rn - 1] != 0) && Val(rp[..rn]) == Big(sp[..j], b)
    {
      ChunksLeft(k, exp, c, total);
      rn := NextChunk(rp, rn, sp, j, sn, b, info);
      j := j + exp;
      c := c + 1;
    }
  }

  /** Limbs that the digits may need, as the callers allocate them. */
  function LimbsFor(sn: nat, bits: nat, exp: nat): int
    requires bits == 0 ==> 1 <= exp
  {
    if bits > 0 then (sn * bits + LIMB_BITS - 1) / LIMB_BITS else (sn + exp - 1) / exp
  }

  lemma LimbsForMono(m: nat, n: nat, bits: nat, exp: nat)
    requires m <= n && 1 <= exp
    ensures LimbsFor(m, bits, exp) <= LimbsFor(n, bits, exp)
  {
    if bits > 0 {
      MulMono(m, n, bits);
      DivMono(m * bits + LIMB_BITS - 1, n * bits + LIMB_BITS - 1, LIMB_BITS);
    } else {
      DivMono(m + exp - 1, n + exp - 1, exp);
    }
  }

  lemma BitsFit(n: int, room: int)
    requires (n + LIMB_BITS - 1) / LIMB_BITS <= room
    ensures n <= LIMB_BITS * room
  {
  }

  /** mpn_set_str: the number with given digits below the base, most significant first. */
  method SetStr(rp: array<Limb>, sp: array<Byte>, sn: nat, b: Limb, ghost exp: nat) returns (rn: nat)
    requires 2 <= b <= 256 && sn <= sp.Length && DigitsBelow(sp[..sn], b)
    requires 1 <= exp && Pow(b, exp) < B <= b * Pow(b, exp)
    requires LimbsFor(sn, BaseBits(b), exp) <= rp.Length
    modifies rp
    ensures rn <= rp.Length && Val(rp[..rn]) == Big(sp[..sn], b)
    ensures 0 < Val(rp[..rn]) ==> Normalised(rp[..rn])
  {
    ValEmpty();
    BigEmpty(b);
    if sn == 0 {
      return 0;
    }
    var bits := BaseBits(b);
    if bits != 0 {
      BitsFit(sn * bits, rp.Length);
      rn := SetStrBits(rp, sp, sn, bits);
    } else {
      var info := GetBaseInfo(b);
      LargestUnique(b, exp, info.exp);
      rn := SetStrOther(rp, sp, sn, b, info);
      if rn == 1 {
        assert rp[..1] == [rp[0]] && [rp[0]][1..] == [];
        ValCons(rp[..1]);
      }
    }
  }

  lemma LargestUnique(b: int, e: nat, f: nat)
    requires 1 < b && Pow(b, e) < B <= b * Pow(b, e) && Pow(b, f) < B <= b * Pow(b, f)
    ensures e == f
  {
    PowStep(b, e);
    PowStep(b, f);
    if e < f {
      PowMono(b, e + 1, f);
    } else if f < e {
      PowMono(b, f + 1, e);
    }
  }

  // --- the round trip ---

  /** Numbers without leading zero limb have one representation. */
  lemma {:induction false} LimbsUnique(s: seq<Limb>, t: seq<Limb>)
    requires Normalised(s) && Normalised(t) && Val(s) == Val(t)
    ensures s == t
    decreases |s|
  {
    ValEmpty();
    if |s| < |t| {
      LongerIsLarger(s, t);
    } else if |t| < |s| {
      LongerIsLarger(t, s);
    } else if s != [] {
      ValCons(s);
      ValCons(t);
      DivModPairUnique(B, Val(s[1..]), s[0], Val(t[1..]), t[0]);
      LimbsUnique(s[1..], t[1..]);
      assert s == [s[0]] + s[1..] && t == [t[0]] + t[1..];
    }
  }

  /** Writing a number out and reading it back gives the same limbs. */
  method RoundTrip(b: Limb, up: array<Limb>, un: nat, sp: array<Byte>, rp: array<Limb>, ghost exp: nat)
    returns (rn: nat)
    requires 2 <= b <= 256 && 1 <= exp && Pow(b, exp) < B <= b * Pow(b, exp)
    requires 1 <= un <= up.Length && Normalised(up[..un]) && Val(up[..un]) < Pow(b, sp.Length)
    requires rp != up && LimbsFor(sp.Length, BaseBits(b), exp) <= rp.Length
    modifies sp, up, rp
    ensures rn == un <= rp.Length && rp[..rn] == old(up[..un])
  {
    ghost var U := up[..un];
    NormalisedBound(U);
    PlaceStep(un - 1);
    var sn := GetStr(sp, b, up, un);
    LimbsForMono(sn, sp.Length, BaseBits(b), exp);
    rn := SetStr(rp, sp, sn, b, exp);
    LimbsUnique(rp[..rn], U);
  }
}
