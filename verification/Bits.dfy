/** Bits of integers, and the bitwise operators on limbs. */
module Bits {
  import opened Arith
  import opened Powers
  import opened Limbs

  /** Bit i of x in infinite two's complement. As below, the recursion sits one call away. */
  predicate Bit(x: int, i: nat)
    decreases i, 1
  {
    BitRec(x, i)
  }

  predicate BitRec(x: int, i: nat)
    decreases i, 0
  {
    if i == 0 then x % 2 == 1 else Bit(x / 2, i - 1)
  }

  lemma BitHalf(x: int, i: nat)
    ensures Bit(x, 0) == (x % 2 == 1)
    ensures Bit(x, i + 1) == Bit(x / 2, i)
  {
    assert BitRec(x, i + 1) == Bit(x / 2, i);
  }

  lemma HalfFirst(x: int, p: int)
    requires 0 < p
    ensures 0 < 2 * p && x / (2 * p) == x / 2 / p
  {
    DivByProduct(x, 2, p);
  }

  lemma {:induction false} BitOverPower(x: int, i: nat, p: int)
    requires p == Pow2(i)
    ensures 0 < p && Bit(x, i) == (x / p % 2 == 1)
    decreases i
  {
    PowPositive(2, i);
    if i == 0 {
      PowStep(2, 0);
      BitHalf(x, 0);
    } else {
      PowStep(2, i - 1);
      var h := Pow2(i - 1);
      BitOverPower(x / 2, i - 1, h);
      BitHalf(x, i - 1);
      HalfFirst(x, h);
    }
  }

  lemma BitIs(x: int, i: nat)
    ensures 0 < Pow2(i) && Bit(x, i) == (x / Pow2(i) % 2 == 1)
  {
    BitOverPower(x, i, Pow2(i));
  }

  datatype BitOp = And | Or | Xor {
    predicate Apply(a: bool, b: bool) {
      match this
      case And => a && b
      case Or => a || b
      case Xor => a != b
    }
  }

  /** x op y, bit by bit. The recursion sits two calls below, so that Bitwise(op, x, y) is a plain term in proofs. */
  function Bitwise(op: BitOp, x: nat, y: nat): nat
    decreases x + y, 2
  {
    BitwiseRec(op, x, y)
  }

  function BitwiseRec(op: BitOp, x: nat, y: nat): nat
    decreases x + y, 1
  {
    if x == 0 && y == 0 then 0 else BitwiseStep(op, x, y)
  }

  function BitwiseStep(op: BitOp, x: nat, y: nat): nat
    requires x + y > 0
    decreases x + y, 0
  {
    (if op.Apply(x % 2 == 1, y % 2 == 1) then 1 else 0) + 2 * Bitwise(op, x / 2, y / 2)
  }

  lemma BitwiseUnfold(op: BitOp, x: nat, y: nat)
    ensures Bitwise(op, x, y) == (if op.Apply(x % 2 == 1, y % 2 == 1) then 1 else 0) + 2 * Bitwise(op, x / 2, y / 2)
    ensures Bitwise(op, 0, 0) == 0
  {
    assert BitwiseRec(op, 0, 0) == 0;
    if x + y > 0 {
      assert BitwiseRec(op, x, y) == BitwiseStep(op, x, y);
    }
  }

  lemma {:induction false} BitwiseBound(op: BitOp, x: nat, y: nat, n: nat)
    requires x < Pow2(n) && y < Pow2(n)
    ensures Bitwise(op, x, y) < Pow2(n)
  {
    BitwiseUnfold(op, x, y);
    if n > 0 {
      BitwiseBound(op, x / 2, y / 2, n - 1);
      PowStep(2, n - 1);
    }
  }

  /** What the operation does to every bit. */
  lemma {:induction false} BitwiseBit(op: BitOp, x: nat, y: nat, i: nat)
    ensures Bit(Bitwise(op, x, y), i) == op.Apply(Bit(x, i), Bit(y, i))
  {
    var r := Bitwise(op, x, y);
    BitwiseUnfold(op, x, y);
    if i == 0 {
      BitHalf(r, 0);
      BitHalf(x, 0);
      BitHalf(y, 0);
    } else {
      BitHalf(r, i - 1);
      BitHalf(x, i - 1);
      BitHalf(y, i - 1);
      BitwiseBit(op, x / 2, y / 2, i - 1);
    }
  }

  lemma {:induction false} WithZero(x: nat)
    ensures Bitwise(Or, x, 0) == x && Bitwise(Xor, x, 0) == x
  {
    BitwiseUnfold(Or, x, 0);
    BitwiseUnfold(Xor, x, 0);
    if x > 0 {
      WithZero(x / 2);
    }
  }

  lemma {:induction false} OrOfDisjoint(x: nat, y: nat, k: nat, n: nat)
    requires k <= n && x < Pow2(n) && y < Pow2(k)
    requires 0 < Pow2(k) && x % Pow2(k) == 0
    ensures Bitwise(Or, x, y) == x + y
  {
    BitwiseUnfold(Or, x, y);
    if k == 0 {
      WithZero(x);
    } else {
      PowStep(2, k - 1);
      PowStep(2, n - 1);
      PowPositive(2, k - 1);
      DivByProduct(x, 2, Pow2(k - 1));
      OrOfDisjoint(x / 2, y / 2, k - 1, n - 1);
    }
  }

  lemma {:induction false} XorWithOnes(x: nat, n: nat)
    requires x < Pow2(n)
    ensures Bitwise(Xor, x, Pow2(n) - 1) == Pow2(n) - 1 - x
  {
    BitwiseUnfold(Xor, x, Pow2(n) - 1);
    if n > 0 {
      PowStep(2, n - 1);
      PowPositive(2, n - 1);
      XorWithOnes(x / 2, n - 1);
      assert (Pow2(n) - 1) / 2 == Pow2(n - 1) - 1;
    }
  }

  lemma {:induction false} AndWithMask(x: nat, k: nat)
    ensures 0 < Pow2(k) && Bitwise(And, x, Pow2(k) - 1) == x % Pow2(k)
  {
    PowPositive(2, k);
    BitwiseUnfold(And, x, Pow2(k) - 1);
    if k == 0 {
      PowStep(2, 0);
      AndWithZero(x);
    } else {
      PowStep(2, k - 1);
      PowPositive(2, k - 1);
      DivByProduct(x, 2, Pow2(k - 1));
      AndWithMask(x / 2, k - 1);
      assert (Pow2(k) - 1) / 2 == Pow2(k - 1) - 1;
    }
  }

  lemma {:induction false} AndWithZero(x: nat)
    ensures Bitwise(And, x, 0) == 0
  {
    BitwiseUnfold(And, x, 0);
    if x > 0 {
      AndWithZero(x / 2);
    }
  }

  // --- shifts of limbs ---

  const LIMB_BITS: nat := 64

  lemma MultipleFits(hi: int, lo: int, p: int, m: int)
    requires 0 < p && 0 <= hi < m * p && 0 <= lo < p && hi % p == 0
    ensures hi + lo < m * p
  {
    DivMod(hi, p);
    if hi / p >= m {
      MulMono(m, hi / p, p);
    } else {
      MulMono(hi / p, m - 1, p);
    }
  }

  lemma ShiftFits(hi: int, lo: int, k: nat)
    requires k <= LIMB_BITS && 0 <= hi < B && 0 <= lo < Pow2(k)
    requires 0 < Pow2(k) && hi % Pow2(k) == 0
    ensures hi + lo < B
  {
    Pow2Values();
    PowAdd(2, LIMB_BITS - k, k);
    MultipleFits(hi, lo, Pow2(k), Pow2(LIMB_BITS - k));
  }

  /** hi | lo where the set bits cannot meet. */
  function OrDisjoint(hi: Limb, lo: Limb, k: nat): (r: Limb)
    requires k <= LIMB_BITS && lo < Pow2(k) && 0 < Pow2(k) && hi % Pow2(k) == 0
    ensures r == Bitwise(Or, hi, lo)
  {
    ShiftFits(hi, lo, k);
    Pow2Values();
    OrOfDisjoint(hi, lo, k, LIMB_BITS);
    hi + lo
  }

  function Shl(x: Limb, k: nat): Limb {
    Wrap(x * Pow2(k))
  }

  function Shr(x: Limb, k: nat): (r: Limb) {
    PowPositive(2, k);
    DivNonneg(x, Pow2(k));
    x / Pow2(k)
  }

  /** x & (2^k - 1) */
  function LowBits(x: Limb, k: nat): (r: Limb)
    ensures 0 < Pow2(k) && r == x % Pow2(k) && r == Bitwise(And, x, Pow2(k) - 1)
  {
    AndWithMask(x, k);
    ModSmall(x, Pow2(k));
    x % Pow2(k)
  }

  lemma ModSmall(x: int, m: int)
    requires 0 <= x && 0 < m
    ensures 0 <= x % m <= x
  {
    DivMod(x, m);
    DivNonneg(x, m);
    MulNonneg(x / m, m);
  }

  lemma DivNonneg(x: int, d: int)
    requires 0 <= x && 0 < d
    ensures 0 <= x / d <= x
  {
    DivMod(x, d);
    if x / d < 0 {
      MulMono(x / d, -1, d);
    } else {
      MulMono(1, d, x / d);
    }
  }

  lemma SplitAt(x: int, p: int, m: int)
    requires 0 < p && 0 < m && 0 <= x < m * p
    ensures 0 < m * p && x * p == x / m * (m * p) + (x * p) % (m * p)
    ensures (x * p) % (m * p) % p == 0 && x / m < p
  {
    var q, r := x / m, x % m;
    DivMod(x, m);
    assert x * p == q * (m * p) + r * p by {
      Assoc(q, m, p);
    }
    MulStrict(r, m, p);
    MulNonneg(r, p);
    DivModUnique(x * p, m * p, q, r * p);
    DivModUnique(r * p, p, r, 0);
    if q >= p {
      MulMono(p, q, m);
    }
  }

  /** A limb shifted up by k: what falls off the top is the same limb shifted down by 64 - k. */
  lemma ShlSplit(x: Limb, k: nat)
    requires k <= LIMB_BITS
    ensures x * Pow2(k) == Shl(x, k) + Shr(x, LIMB_BITS - k) * B
    ensures 0 < Pow2(k) && Shl(x, k) % Pow2(k) == 0
    ensures Shr(x, LIMB_BITS - k) < Pow2(k)
  {
    Pow2Values();
    PowAdd(2, LIMB_BITS - k, k);
    PowPositive(2, k);
    PowPositive(2, LIMB_BITS - k);
    SplitAt(x, Pow2(k), Pow2(LIMB_BITS - k));
  }

  // --- counting zeros ---

  lemma ShiftMore(x: int, y: int, c: nat, k: nat)
    requires 0 < x && y == x * Pow2(c)
    ensures y * Pow2(k) == x * Pow2(c + k)
    ensures Pow2(c + k) <= y * Pow2(k)
  {
    PowAdd(2, c, k);
    PowPositive(2, c + k);
    Assoc(x, Pow2(c), Pow2(k));
    MulMono(1, x, Pow2(c + k));
  }

  /** Number of leading zero bits: first by bytes, then by bits. */
  method Clz(x: Limb) returns (count: nat)
    requires 0 < x
    ensures count < LIMB_BITS
    ensures HIGHBIT <= x * Pow2(count) < B
  {
    count := 0;
    var y: Limb := x;
    Pow2Values();
    while y < 0x100_0000_0000_0000
      invariant y == x * Pow2(count) && 0 < y && Pow2(count) <= y
      decreases B - y
    {
      ShiftMore(x, y, count, 8);
      y := y * 256;
      count := count + 8;
    }
    while y < HIGHBIT
      invariant y == x * Pow2(count) && 0 < y && Pow2(count) <= y
      decreases B - y
    {
      ShiftMore(x, y, count, 1);
      y := y * 2;
      count := count + 1;
    }
    if count >= LIMB_BITS {
      PowMono(2, LIMB_BITS, count);
    }
  }

  /** x & -x keeps only the lowest set bit. */
  lemma {:induction false} LowestBit(x: nat, k: nat, n: nat)
    requires 0 < x < Pow2(n)
    requires 0 < Pow2(k) && x % Pow2(k) == 0 && x / Pow2(k) % 2 == 1
    ensures Bitwise(And, x, Pow2(n) - x) == Pow2(k)
    decreases n
  {
    BitwiseUnfold(And, x, Pow2(n) - x);
    PowStep(2, 0);
    if n > 0 {
      PowStep(2, n - 1);
      if k == 0 {
        AndWithNot(x / 2, n - 1);
        assert (Pow2(n) - x) / 2 == Pow2(n - 1) - 1 - x / 2;
      } else {
        PowStep(2, k - 1);
        PowPositive(2, k - 1);
        DivByProduct(x, 2, Pow2(k - 1));
        LowestBit(x / 2, k - 1, n - 1);
        assert (Pow2(n) - x) / 2 == Pow2(n - 1) - x / 2;
      }
    }
  }

  lemma {:induction false} AndWithNot(x: nat, n: nat)
    requires x < Pow2(n)
    ensures Bitwise(And, x, Pow2(n) - 1 - x) == 0
  {
    BitwiseUnfold(And, x, Pow2(n) - 1 - x);
    if n > 0 {
      PowStep(2, n - 1);
      AndWithNot(x / 2, n - 1);
      assert (Pow2(n) - 1 - x) / 2 == Pow2(n - 1) - 1 - x / 2;
    }
  }

  /** Every positive integer is a power of two times an odd number. */
  lemma {:induction false} OddPart(x: nat) returns (k: nat)
    requires 0 < x
    ensures 0 < Pow2(k) && x % Pow2(k) == 0 && x / Pow2(k) % 2 == 1
  {
    if x % 2 == 1 {
      k := 0;
      PowStep(2, 0);
    } else {
      k := OddPart(x / 2);
      PowStep(2, k);
      DivByProduct(x, 2, Pow2(k));
      k := k + 1;
    }
  }

  lemma LeadingOfPower(k: nat, c: nat)
    requires HIGHBIT <= Pow2(k) * Pow2(c) < B
    ensures k + c == LIMB_BITS - 1
  {
    Pow2Values();
    PowAdd(2, k, c);
    if k + c < LIMB_BITS - 1 {
      PowMono(2, k + c, LIMB_BITS - 1);
    } else if k + c > LIMB_BITS - 1 {
      PowMono(2, LIMB_BITS, k + c);
    }
  }

  lemma LowBitOf(x: Limb, k: nat)
    requires 0 < x && 0 < Pow2(k) && x % Pow2(k) == 0 && x / Pow2(k) % 2 == 1
    ensures Bitwise(And, x, Wrap(B - x)) == Pow2(k) < B
  {
    Pow2Values();
    assert Wrap(B - x) == B - x;
    BitwiseBound(And, x, B - x, LIMB_BITS);
    LowestBit(x, k, LIMB_BITS);
  }

  /** Number of trailing zero bits. */
  method Ctz(x: Limb) returns (count: nat)
    requires 0 < x
    ensures count < LIMB_BITS
    ensures 0 < Pow2(count) && x % Pow2(count) == 0 && x / Pow2(count) % 2 == 1
  {
    ghost var k := OddPart(x);
    LowBitOf(x, k);
    var low: Limb := Bitwise(And, x, Wrap(B - x));
    var c := Clz(low);
    LeadingOfPower(k, c);
    count := LIMB_BITS - 1 - c;
  }
}
