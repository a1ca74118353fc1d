/** 64-bit words and their bits. */
module Lanes {
  import opened Arith
  import opened Powers
  import opened Limbs
  import opened Bits
  import opened MpzBits

  function Lane(op: BitOp, x: Limb, y: Limb): Limb {
    Pow2Values();
    BitwiseBound(op, x, y, LIMB_BITS);
    Bitwise(op, x, y)
  }

  function XorL(x: Limb, y: Limb): Limb {
    Lane(Xor, x, y)
  }

  function Not(x: Limb): (r: Limb)
    ensures r == Bitwise(Xor, x, B - 1)
  {
    Pow2Values();
    XorWithOnes(x, LIMB_BITS);
    B - 1 - x
  }

  /** ROTL64 */
  function Rotl(x: Limb, n: nat): Limb
    requires 0 < n < LIMB_BITS
  {
    Lane(Or, Shl(x, n), Shr(x, LIMB_BITS - n))
  }

  lemma LaneBit(op: BitOp, x: Limb, y: Limb, z: nat)
    ensures Bit(Lane(op, x, y), z) == op.Apply(Bit(x, z), Bit(y, z))
  {
    BitwiseBit(op, x, y, z);
  }

  lemma {:induction false} OnesBit(n: nat, z: nat)
    requires z < n
    ensures Bit(Pow2(n) - 1, z)
  {
    PowStep(2, n - 1);
    PowPositive(2, n - 1);
    BitHalf(Pow2(n) - 1, 0);
    if z > 0 {
      BitHalf(Pow2(n) - 1, z - 1);
      OnesBit(n - 1, z - 1);
      assert (Pow2(n) - 1) / 2 == Pow2(n - 1) - 1;
    }
  }

  lemma NotBit(x: Limb, z: nat)
    requires z < LIMB_BITS
    ensures Bit(Not(x), z) == !Bit(x, z)
  {
    Pow2Values();
    OnesBit(LIMB_BITS, z);
    BitwiseBit(Xor, x, B - 1, z);
  }

  lemma ScaledBit(x: nat, n: nat, z: nat)
    ensures Bit(x * Pow2(n), z) == (n <= z && Bit(x, z - n))
  {
    PowPositive(2, n);
    if n <= z {
      BitShifted(x * Pow2(n), n, z - n);
      DivModUnique(x * Pow2(n), Pow2(n), x, 0);
    } else {
      BitBelow(0, x, n, z);
      PowPositive(2, z);
      DivModUnique(0, Pow2(z), 0, 0);
    }
  }

  lemma ShlBit(x: Limb, n: nat, z: nat)
    requires n <= LIMB_BITS && z < LIMB_BITS
    ensures Bit(Shl(x, n), z) == (n <= z && Bit(x, z - n))
  {
    Pow2Values();
    ShlSplit(x, n);
    BitBelow(Shl(x, n), Shr(x, LIMB_BITS - n), LIMB_BITS, z);
    ScaledBit(x, n, z);
  }

  lemma ShrBit(x: Limb, n: nat, z: nat)
    ensures Bit(Shr(x, n), z) == (n + z < LIMB_BITS && Bit(x, n + z))
  {
    Pow2Values();
    BitShifted(x, n, z);
    if LIMB_BITS <= n + z {
      BitAbove(x, LIMB_BITS, n + z);
    }
  }

  lemma RotatedIndex(n: int, z: int)
    requires 0 < n < LIMB_BITS && 0 <= z < LIMB_BITS
    ensures (z - n) % LIMB_BITS == if n <= z then z - n else LIMB_BITS - n + z
  {
  }

  /** A rotation moves bit z - n to bit z. */
  lemma RotlBit(x: Limb, n: nat, z: nat)
    requires 0 < n < LIMB_BITS && z < LIMB_BITS
    ensures Bit(Rotl(x, n), z) == Bit(x, (z - n) % LIMB_BITS)
  {
    RotatedIndex(n, z);
    RotatedBits(x, n, z);
  }

  lemma RotatedBits(x: Limb, n: nat, z: nat)
    requires 0 < n < LIMB_BITS && z < LIMB_BITS
    ensures Bit(Rotl(x, n), z) == Bit(x, if n <= z then z - n else LIMB_BITS - n + z)
  {
    LaneBit(Or, Shl(x, n), Shr(x, LIMB_BITS - n), z);
    ShlBit(x, n, z);
    ShrBit(x, LIMB_BITS - n, z);
  }
}
