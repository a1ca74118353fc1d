/** The bytes of 64-bit words in memory, least significant first. */
module ByteLanes {
  import opened Powers
  import opened Limbs
  import opened Bits
  import opened MpzBits
  import opened Digits
  import opened MpnStr
  import opened Lanes

  // --- bytes ---

  function XorB(x: Byte, y: Byte): Byte {
    SmallPowers();
    BitwiseBound(Xor, x, y, 8);
    Bitwise(Xor, x, y)
  }

  lemma XorBBit(x: Byte, y: Byte, z: nat)
    ensures Bit(XorB(x, y), z) == (Bit(x, z) != Bit(y, z))
  {
    BitwiseBit(Xor, x, y, z);
  }

  lemma XorBZero(x: Byte)
    ensures XorB(x, 0) == x && XorB(0, x) == x
  {
    WithZero(x);
    XorBCommutes(0, x);
  }

  lemma XorBCommutes(x: Byte, y: Byte)
    ensures XorB(x, y) == XorB(y, x)
  {
    forall z: nat | z < 8 ensures Bit(XorB(x, y), z) == Bit(XorB(y, x), z) {
      XorBBit(x, y, z);
      XorBBit(y, x, z);
    }
    BytesEqual(XorB(x, y), XorB(y, x));
  }

  lemma XorBAssociates(x: Byte, y: Byte, w: Byte)
    ensures XorB(XorB(x, y), w) == XorB(x, XorB(y, w))
  {
    forall z: nat | z < 8 ensures Bit(XorB(XorB(x, y), w), z) == Bit(XorB(x, XorB(y, w)), z) {
      XorBBit(x, y, z);
      XorBBit(XorB(x, y), w, z);
      XorBBit(y, w, z);
      XorBBit(x, XorB(y, w), z);
    }
    BytesEqual(XorB(XorB(x, y), w), XorB(x, XorB(y, w)));
  }

  lemma {:induction false} EqualBits(x: nat, y: nat, n: nat)
    requires x < Pow2(n) && y < Pow2(n) && forall z: nat :: z < n ==> Bit(x, z) == Bit(y, z)
    ensures x == y
  {
    if n == 0 {
      PowStep(2, 0);
    } else {
      PowStep(2, n - 1);
      BitHalf(x, 0);
      BitHalf(y, 0);
      assert Bit(x, 0) == Bit(y, 0);
      forall z: nat | z < n - 1 ensures Bit(x / 2, z) == Bit(y / 2, z) {
        BitHalf(x, z);
        BitHalf(y, z);
        assert Bit(x, z + 1) == Bit(y, z + 1);
      }
      EqualBits(x / 2, y / 2, n - 1);
    }
  }

  lemma BytesEqual(x: Byte, y: Byte)
    requires forall z: nat :: z < 8 ==> Bit(x, z) == Bit(y, z)
    ensures x == y
  {
    SmallPowers();
    EqualBits(x, y, 8);
  }

  // --- the bytes of a word ---

  /** Byte i of a word. */
  function LaneByte(x: Limb, i: nat): Byte {
    Shr(x, 8 * i) % 256
  }

  lemma LowByteBit(x: nat, z: nat)
    requires z < 8
    ensures Bit(x % 256, z) == Bit(x, z)
  {
    SmallPowers();
    BitBelow(x % 256, x / 256, 8, z);
    assert x == x % 256 + 256 * (x / 256);
  }

  lemma LaneByteBit(x: Limb, i: nat, z: nat)
    requires i < 8 && z < 8
    ensures Bit(LaneByte(x, i), z) == Bit(x, 8 * i + z)
  {
    LowByteBit(Shr(x, 8 * i), z);
    ShrBit(x, 8 * i, z);
  }

  /** The word with b exclusive-or'ed to byte i. */
  function XorLaneByte(x: Limb, i: nat, b: Byte): Limb {
    XorL(x, Shl(b, 8 * i))
  }

  lemma ByteAbove(b: Byte, z: nat)
    requires 8 <= z
    ensures !Bit(b, z)
  {
    SmallPowers();
    BitAbove(b, 8, z);
  }

  lemma XorLaneByteBit(x: Limb, i: nat, b: Byte, k: nat, z: nat)
    requires i < 8 && k < 8 && z < 8
    ensures Bit(XorLaneByte(x, i, b), 8 * k + z) == (Bit(x, 8 * k + z) != (k == i && Bit(b, z)))
  {
    LaneBit(Xor, x, Shl(b, 8 * i), 8 * k + z);
    ShlBit(b, 8 * i, 8 * k + z);
    if i < k {
      ByteAbove(b, 8 * k + z - 8 * i);
    }
  }

  /** Only byte i changes. */
  lemma XorLaneByteIs(x: Limb, i: nat, b: Byte, k: nat)
    requires i < 8 && k < 8
    ensures LaneByte(XorLaneByte(x, i, b), k) == if k == i then XorB(LaneByte(x, k), b) else LaneByte(x, k)
  {
    var y := XorLaneByte(x, i, b);
    var r := if k == i then XorB(LaneByte(x, k), b) else LaneByte(x, k);
    forall z: nat | z < 8 ensures Bit(LaneByte(y, k), z) == Bit(r, z) {
      LaneByteBit(y, k, z);
      LaneByteBit(x, k, z);
      XorLaneByteBit(x, i, b, k, z);
      XorBBit(LaneByte(x, k), b, z);
    }
    BytesEqual(LaneByte(y, k), r);
  }

  /** Words with the same bytes are the same. */
  lemma LanesEqual(x: Limb, y: Limb)
    requires forall i: nat :: i < 8 ==> LaneByte(x, i) == LaneByte(y, i)
    ensures x == y
  {
    forall z: nat | z < LIMB_BITS ensures Bit(x, z) == Bit(y, z) {
      var i := z / 8;
      assert LaneByte(x, i) == LaneByte(y, i);
      LaneByteBit(x, i, z % 8);
      LaneByteBit(y, i, z % 8);
    }
    Pow2Values();
    EqualBits(x, y, LIMB_BITS);
  }
}
