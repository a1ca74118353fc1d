/** The sponge construction of FIPS 202, section 4, on bytes, and the Keccak permutation on 200-byte strings. */
module Sponge {
  import opened Arith
  import opened Powers
  import opened Limbs
  import opened Bits
  import opened Digits
  import opened MpnStr
  import opened MpzIO
  import opened ByteLanes
  import opened Keccak
  import opened Blocks

  // --- state strings ---

  type StateString = s: seq<Byte> | |s| == 200 witness seq(200, _ => 0)

  function StateByte(A: State, j: nat): Byte
    requires j < 200
  {
    LaneByte(A[j / 8], j % 8)
  }

  /** The lanes as a string (section 3.1.3): the bytes of lane 0, least significant first, then those of lane 1, ... */
  function ToString(A: State): (S: StateString)
    ensures forall j :: 0 <= j < 200 ==> S[j] == StateByte(A, j)
  {
    seq(200, j requires 0 <= j < 200 => StateByte(A, j))
  }

  function WordOf(s: seq<Byte>): Limb
    requires |s| == 8
  {
    LittleBound(s, 256);
    LimbBytes();
    Little(s, 256)
  }

  function FromString(S: StateString): (A: State)
    ensures forall l :: 0 <= l < 25 ==> A[l] == WordOf(S[8 * l..8 * l + 8])
  {
    seq(25, l requires 0 <= l < 25 => WordOf(S[8 * l..8 * l + 8]))
  }

  lemma LittleCons(b: Byte, t: seq<Byte>)
    ensures Little([b] + t, 256) == b + 256 * Little(t, 256)
  {
    LittleConcat([b], t, 256);
    LittleSnoc([], b, 256);
    LittleEmpty(256);
    PowStep(256, 0);
    assert [] + [b] == [b];
  }

  lemma ByteShifted(x: Limb, i: nat)
    requires i < 8
    ensures LaneByte(x, 0) == x % 256
    ensures i > 0 ==> LaneByte(x, i) == LaneByte(x / 256, i - 1)
  {
    PowStep(2, 0);
    SmallPowers();
    if i > 0 {
      PowPositive(2, 8 * (i - 1));
      PowAdd(2, 8, 8 * (i - 1));
      DivByProduct(x, 256, Pow2(8 * (i - 1)));
    }
  }

  lemma WordBound(s: seq<Byte>)
    requires |s| <= 8
    ensures 0 <= Little(s, 256) < B
  {
    LittleBound(s, 256);
    LimbBytes();
    PowMono(256, |s|, 8);
  }

  lemma LowAndHigh(b: Byte, y: int)
    ensures (b + 256 * y) % 256 == b && (b + 256 * y) / 256 == y
  {
  }

  lemma {:induction false} LittleByte(s: seq<Byte>, i: nat)
    requires i < |s| <= 8
    ensures 0 <= Little(s, 256) < B && LaneByte(Little(s, 256), i) == s[i]
    decreases i
  {
    var t := s[1..];
    assert s == [s[0]] + t;
    WordBound(s);
    WordBound(t);
    LittleCons(s[0], t);
    LowAndHigh(s[0], Little(t, 256));
    ByteShifted(Little(s, 256), i);
    if i > 0 {
      LittleByte(t, i - 1);
    }
  }

  lemma StringBytes(A: State, l: nat, i: nat)
    requires l < 25 && i < 8
    ensures ToString(A)[8 * l..8 * l + 8][i] == LaneByte(A[l], i)
  {
    var j := 8 * l + i;
    assert j / 8 == l && j % 8 == i;
    assert ToString(A)[j] == StateByte(A, j);
  }

  /** Lanes and string are two views of the same memory. */
  lemma TwoViews(A: State)
    ensures FromString(ToString(A)) == A
  {
    var S := ToString(A);
    forall l | 0 <= l < 25 ensures FromString(S)[l] == A[l] {
      var s := S[8 * l..8 * l + 8];
      forall i: nat | i < 8 ensures LaneByte(WordOf(s), i) == LaneByte(A[l], i) {
        LittleByte(s, i);
        StringBytes(A, l, i);
      }
      LanesEqual(WordOf(s), A[l]);
    }
  }

  lemma WordByte(S: StateString, j: nat)
    requires j < 200
    ensures S[8 * (j / 8)..8 * (j / 8) + 8][j % 8] == S[j]
    ensures LaneByte(FromString(S)[j / 8], j % 8) == S[j]
  {
    LittleByte(S[8 * (j / 8)..8 * (j / 8) + 8], j % 8);
  }

  /** And so are string and lanes. */
  lemma TwoViewsBack(S: StateString)
    ensures ToString(FromString(S)) == S
  {
    forall j: nat | j < 200 ensures ToString(FromString(S))[j] == S[j] {
      WordByte(S, j);
      assert ToString(FromString(S))[j] == StateByte(FromString(S), j);
    }
  }

  /** The permutation on strings. */
  function KeccakString(S: StateString): StateString {
    ToString(Rounds(FromString(S), RNDC))
  }

  // --- absorbing ---

  /** P exclusive-or'ed to the front of S. */
  function XorInto(S: StateString, P: seq<Byte>): (T: StateString)
    requires |P| <= 200
    ensures forall j :: 0 <= j < 200 ==> T[j] == if j < |P| then XorB(S[j], P[j]) else S[j]
  {
    seq(200, j requires 0 <= j < 200 => if j < |P| then XorB(S[j], P[j]) else S[j])
  }

  type Permutation = StateString -> StateString

  /** f is the Keccak permutation. */
  ghost predicate IsKeccak(f: Permutation) {
    forall S: StateString {:trigger KeccakString(S)} :: f(S) == KeccakString(S)
  }

  /** sha3_keccakf on the memory seen as bytes. */
  method PermuteString(st: array<Limb>, ghost f: Permutation)
    requires st.Length == 25 && IsKeccak(f)
    modifies st
    ensures ToString(st[..]) == f(ToString(old(st[..])))
  {
    TwoViews(st[..]);
    assert KeccakString(ToString(st[..])) == ToString(Rounds(st[..], RNDC));
    KeccakF(st);
  }

  /** Absorbs the blocks of P, each rate bytes long. */
  function Absorb(f: Permutation, S: StateString, P: seq<Byte>, rate: nat): StateString
    requires 0 < rate <= 200
    decreases |P|
  {
    if |P| < rate then S else Absorb(f, f(XorInto(S, P[..rate])), P[rate..], rate)
  }

  function Squeeze(f: Permutation, S: StateString, rate: nat, d: nat): (Z: seq<Byte>)
    requires 0 < rate <= 200
    ensures |Z| == d
    decreases d
  {
    if d <= rate then S[..d] else S[..rate] + Squeeze(f, f(S), rate, d - rate)
  }

  function Zeros(): StateString { seq(200, _ => 0) }

  /** What padding puts behind a message that leaves t bytes of its last block free: the pad byte first and 0x80 last,
      both in one byte if only one is free. */
  function Tail(t: nat, pad: Byte): seq<Byte>
    requires 1 <= t
  {
    if t == 1 then [XorB(pad, 0x80)] else [pad] + seq(t - 2, _ => 0) + [0x80]
  }

  function Padded(M: seq<Byte>, rate: nat, pad: Byte): seq<Byte>
    requires 0 < rate
  {
    M + Tail(rate - Rest(|M|, rate), pad)
  }

  /** SPONGE[f, pad, rate]: d bytes of output for the message M. */
  function Hash(f: Permutation, M: seq<Byte>, rate: nat, pad: Byte, d: nat): seq<Byte>
    requires 0 < rate <= 200
  {
    Squeeze(f, Absorb(f, Zeros(), Padded(M, rate, pad), rate), rate, d)
  }

  lemma {:induction false} AbsorbMore(f: Permutation, S: StateString, P: seq<Byte>, R: seq<Byte>, rate: nat, n: nat)
    requires 0 < rate <= 200 && |P| == n * rate && |R| == rate
    ensures Absorb(f, S, P + R, rate) == f(XorInto(Absorb(f, S, P, rate), R))
    decreases n
  {
    if n == 0 {
      assert P + R == R;
      assert R[..rate] == R && R[rate..] == [];
    } else {
      Distribute(rate, n, 1);
      MulNonneg(n - 1, rate);
      assert (P + R)[..rate] == P[..rate] && (P + R)[rate..] == P[rate..] + R;
      AbsorbMore(f, f(XorInto(S, P[..rate])), P[rate..], R, rate, n - 1);
    }
  }

  lemma XorIntoMore(S: StateString, P: seq<Byte>, b: Byte)
    requires |P| < 200
    ensures XorInto(S, P + [b]) == XorInto(S, P)[|P| := XorB(S[|P|], b)] && XorInto(S, P)[|P|] == S[|P|]
  {
  }

  lemma XorIntoNothing(S: StateString)
    ensures XorInto(S, []) == S
  {
  }

  // --- the pad as bits ---

  /** The bits of the byte are the suffix, a one and zeros; the last bit stays free for the other end of the pad. */
  ghost predicate PadByte(pad: Byte, suffix: seq<bool>) {
    |suffix| <= 6 && forall z: nat :: z < 8 ==> Bit(pad, z) == if z < |suffix| then suffix[z] else z == |suffix|
  }

  /** The bits behind the message are the suffix and then 1, zeros and 1 (section 5.1), also in a single byte. */
  lemma PadBits(t: nat, pad: Byte, suffix: seq<bool>, i: nat, z: nat)
    requires 1 <= t && i < t && z < 8 && PadByte(pad, suffix)
    ensures |Tail(t, pad)| == t
    ensures Bit(Tail(t, pad)[i], z) ==
            if i == 0 && z < |suffix| then suffix[z] else (i == 0 && z == |suffix|) || (i == t - 1 && z == 7)
  {
    PadByteBits(z);
    assert Bit(pad, z) == if z < |suffix| then suffix[z] else z == |suffix|;
    XorBBit(pad, 0x80, z);
  }

  lemma PadByteBits(z: nat)
    requires z < 8
    ensures Bit(0x01, z) == (z == 0) && Bit(0x06, z) == (z == 1 || z == 2) && Bit(0x80, z) == (z == 7) && !Bit(0, z)
  {
    BitIs(0x01, z);
    BitIs(0x06, z);
    BitIs(0x80, z);
    BitIs(0, z);
    SmallPowers();
  }

  /** Pad byte 0x06 is the suffix 01 of SHA-3, 0x01 the empty suffix of Keccak. */
  lemma PadBytes()
    ensures PadByte(0x06, [false, true]) && PadByte(0x01, [])
  {
    forall z: nat | z < 8
      ensures Bit(0x06, z) == if z < 2 then [false, true][z] else z == 2
      ensures Bit(0x01, z) == (z == 0)
    {
      PadByteBits(z);
    }
  }
}
