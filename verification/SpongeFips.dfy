/** The sponge on bytes is the sponge of FIPS 202 on the bits of the bytes. */
module SpongeFips {
  import opened Arith
  import opened Bits
  import opened Digits
  import opened MpnStr
  import opened ByteLanes
  import opened Keccak
  import opened Blocks
  import opened Sponge
  import opened KeccakFips
  import F = Fips202
  import FS = FipsSponge

  // --- bytes and bits ---

  predicate ByteBit(M: seq<Byte>, j: nat)
    requires j / 8 < |M|
  {
    Bit(M[j / 8], j % 8)
  }

  function EightBits(b: Byte): (S: seq<bool>)
    ensures |S| == 8
  {
    [Bit(b, 0), Bit(b, 1), Bit(b, 2), Bit(b, 3), Bit(b, 4), Bit(b, 5), Bit(b, 6), Bit(b, 7)]
  }

  /** The bits of a byte string, those of a byte from the least significant one on (section B.1). The recursion sits two
      calls below. */
  function BitString(M: seq<Byte>): (S: seq<bool>)
    ensures |S| == 8 * |M|
    decreases |M|, 2
  {
    BitStringRec(M)
  }

  function BitStringRec(M: seq<Byte>): (S: seq<bool>)
    ensures |S| == 8 * |M|
    decreases |M|, 1
  {
    if M == [] then [] else LastByte(M)
  }

  function LastByte(M: seq<Byte>): (S: seq<bool>)
    requires M != []
    ensures |S| == 8 * |M|
    decreases |M|, 0
  {
    BitString(M[..|M| - 1]) + EightBits(M[|M| - 1])
  }

  lemma BitsSnoc(M: seq<Byte>)
    ensures BitString([]) == []
    ensures M != [] ==> BitString(M) == BitString(M[..|M| - 1]) + EightBits(M[|M| - 1])
  {
    assert M != [] ==> BitStringRec(M) == LastByte(M);
    assert BitStringRec([]) == [];
  }

  lemma {:induction false} BitAt(M: seq<Byte>, j: nat)
    requires j < 8 * |M|
    ensures j / 8 < |M| && BitString(M)[j] == ByteBit(M, j)
    decreases |M|
  {
    ByteIndex(j, |M|);
    ByteIndex(j, |M| - 1);
    BitsSnoc(M);
    if j < 8 * (|M| - 1) {
      BitAt(M[..|M| - 1], j);
    }
  }

  lemma {:induction false} BitsConcat(M: seq<Byte>, N: seq<Byte>)
    ensures BitString(M + N) == BitString(M) + BitString(N)
    decreases |N|
  {
    BitsSnoc(N);
    if N == [] {
      assert M + N == M;
    } else {
      var L := N[..|N| - 1];
      BitsSnoc(M + N);
      BitsConcat(M, L);
      assert (M + N)[..|M + N| - 1] == M + L;
    }
  }

  lemma ByteIndex(j: nat, n: nat)
    ensures j < 8 * n <==> j / 8 < n
    ensures 8 * n <= j ==> (j - 8 * n) / 8 == j / 8 - n && (j - 8 * n) % 8 == j % 8
  {
  }

  lemma BitsSlice(M: seq<Byte>, n: nat)
    requires n <= |M|
    ensures BitString(M[..n]) == BitString(M)[..8 * n] && BitString(M[n..]) == BitString(M)[8 * n..]
  {
    assert M == M[..n] + M[n..];
    BitsConcat(M[..n], M[n..]);
  }

  lemma XorBits(S: StateString, P: seq<Byte>)
    requires |P| <= 200
    ensures BitString(XorInto(S, P)) == FS.XorFront(BitString(S), BitString(P))
  {
    forall j: nat | j < 1600 ensures BitString(XorInto(S, P))[j] == FS.XorFront(BitString(S), BitString(P))[j] {
      ByteIndex(j, |P|);
      BitAt(XorInto(S, P), j);
      BitAt(S, j);
      if j / 8 < |P| {
        BitAt(P, j);
        XorBBit(S[j / 8], P[j / 8], j % 8);
      }
    }
  }

  // --- the permutation ---

  ghost predicate PlaceAgrees(S: StateString, A: F.StateArray, x: nat, y: nat, z: nat)
    requires x < 5 && y < 5 && z < 64
  {
    A(x, y, z) == ByteBit(S, 64 * (5 * y + x) + z)
  }

  /** A is the state array of S (section 3.1.2). */
  ghost predicate IsArrayOf(S: StateString, A: F.StateArray) {
    forall x: nat, y: nat, z: nat {:trigger PlaceAgrees(S, A, x, y, z)} ::
      x < 5 && y < 5 && z < 64 ==> PlaceAgrees(S, A, x, y, z)
  }

  lemma BitPlace(k: nat, z: nat, j: nat)
    requires k < 25 && z < 64 && j == 64 * k + z
    ensures j / 8 == 8 * k + z / 8 && j % 8 == z % 8
    ensures j / 8 < 200 && j / 8 / 8 == k && j / 8 % 8 == z / 8
  {
  }

  /** Bit z of lane k is bit 64k + z of the string. */
  lemma LaneInString(s: State, k: nat, z: nat)
    requires k < 25 && z < 64
    ensures ByteBit(ToString(s), 64 * k + z) == Bit(s[k], z)
  {
    var j := 64 * k + z;
    BitPlace(k, z, j);
    assert ToString(s)[j / 8] == StateByte(s, j / 8);
    LaneByteBit(s[k], z / 8, z % 8);
  }

  /** The lanes hold the state array of their string. */
  lemma LanesOfString(s: State, A: F.StateArray)
    ensures IsArrayOf(ToString(s), A) <==> Agrees(s, A)
  {
    forall x: nat, y: nat, z: nat | x < 5 && y < 5 && z < 64
      ensures PlaceAgrees(ToString(s), A, x, y, z) == BitAgrees(s, A, x, y, z)
    {
      LaneInString(s, 5 * y + x, z);
    }
  }

  /** Strings in, state arrays between, strings out. */
  lemma StringPermutation(S: StateString, A: F.StateArray)
    requires IsArrayOf(S, A)
    ensures |RNDC| == 24 && IsArrayOf(KeccakString(S), F.KeccakP(A, |RNDC|))
  {
    var s := FromString(S);
    TwoViewsBack(S);
    LanesOfString(s, A);
    PermutationAgrees(s, A);
    LanesOfString(Rounds(s, RNDC), F.KeccakP(A, |RNDC|));
  }

  lemma ArrayExists(S: StateString)
    ensures IsArrayOf(S, FS.ArrayOf(BitString(S)))
  {
    forall x: nat, y: nat, z: nat | x < 5 && y < 5 && z < 64
      ensures PlaceAgrees(S, FS.ArrayOf(BitString(S)), x, y, z)
    {
      BitAt(S, 64 * (5 * y + x) + z);
    }
  }

  lemma PlaceOf(j: nat)
    requires j < 1600
    ensures j / 64 % 5 < 5 && j / 64 / 5 < 5 && j % 64 < 64
    ensures 64 * (5 * (j / 64 / 5) + j / 64 % 5) + j % 64 == j
  {
  }

  lemma ArrayString(S: StateString, A: F.StateArray)
    requires IsArrayOf(S, A)
    ensures BitString(S) == FS.StringOf(A)
  {
    forall j: nat | j < 1600 ensures BitString(S)[j] == FS.StringOf(A)[j] {
      PlaceOf(j);
      BitAt(S, j);
      assert PlaceAgrees(S, A, j / 64 % 5, j / 64 / 5, j % 64);
    }
  }

  lemma KeccakPAgrees(S: StateString, n: nat)
    requires n == |RNDC|
    ensures BitString(KeccakString(S)) == FS.KeccakP(BitString(S), n)
  {
    ArrayExists(S);
    StringPermutation(S, FS.ArrayOf(BitString(S)));
    ArrayString(KeccakString(S), F.KeccakP(FS.ArrayOf(BitString(S)), |RNDC|));
  }

  ghost predicate SameBits(f: Permutation, S: StateString, n: nat) {
    BitString(f(S)) == FS.KeccakP(BitString(S), n)
  }

  /** f is n rounds of the permutation in the standard. */
  ghost predicate RoundsAre(f: Permutation, n: nat) {
    forall S: StateString {:trigger SameBits(f, S, n)} :: SameBits(f, S, n)
  }

  lemma OneState(f: Permutation, S: StateString, n: nat)
    requires IsKeccak(f) && n == |RNDC|
    ensures SameBits(f, S, n)
  {
    assert f(S) == KeccakString(S);
    KeccakPAgrees(S, n);
  }

  lemma AllRounds(f: Permutation, n: nat)
    requires IsKeccak(f) && n == |RNDC|
    ensures RoundsAre(f, n)
  {
    forall S: StateString ensures SameBits(f, S, n) {
      OneState(f, S, n);
    }
  }

  // --- the sponge ---

  lemma {:induction false} AbsorbAgrees(f: Permutation, S: StateString, P: seq<Byte>, rate: nat, r: nat, n: nat)
    requires 0 < rate <= 200 && RoundsAre(f, n) && r == 8 * rate
    ensures BitString(Absorb(f, S, P, rate)) == FS.Absorb(BitString(S), BitString(P), r, n)
    decreases |P|
  {
    if rate <= |P| {
      var X := XorInto(S, P[..rate]);
      BitsSlice(P, rate);
      XorBits(S, P[..rate]);
      assert SameBits(f, X, n);
      AbsorbAgrees(f, f(X), P[rate..], rate, r, n);
    }
  }

  lemma EightLess(d: int, rate: int)
    requires rate < d
    ensures 8 * rate < 8 * d && 8 * (d - rate) == 8 * d - 8 * rate
  {
  }

  lemma SqueezeFirst(T: StateString, r: nat, n: nat, d: nat, b: nat)
    requires 0 < r <= 1600 && b == 8 * d && b <= r
    ensures d <= 200 && BitString(T[..d]) == FS.Squeeze(BitString(T), r, n, b)
  {
    BitsSlice(T, d);
  }

  lemma SqueezeMore(T: StateString, Y: seq<Byte>, rate: nat, r: nat, n: nat, d: nat, b: nat)
    requires 0 < rate <= 200 && r == 8 * rate && b == r + d && 0 < d
    requires BitString(Y) == FS.Squeeze(FS.KeccakP(BitString(T), n), r, n, d)
    ensures BitString(T[..rate] + Y) == FS.Squeeze(BitString(T), r, n, b)
  {
    BitsSlice(T, rate);
    BitsConcat(T[..rate], Y);
  }

  lemma SqueezeOnce(f: Permutation, S: StateString, rate: nat, d: nat)
    requires 0 < rate <= 200
    ensures d <= rate ==> Squeeze(f, S, rate, d) == S[..d]
    ensures rate < d ==> Squeeze(f, S, rate, d) == S[..rate] + Squeeze(f, f(S), rate, d - rate)
  {
  }

  lemma SqueezeNext(f: Permutation, S: StateString, rate: nat, r: nat, n: nat, d: nat, b: nat)
    requires 0 < rate <= 200 && rate < d && r == 8 * rate && r < b && RoundsAre(f, n)
    requires BitString(Squeeze(f, f(S), rate, d - rate)) == FS.Squeeze(BitString(f(S)), r, n, b - r)
    ensures BitString(Squeeze(f, S, rate, d)) == FS.Squeeze(BitString(S), r, n, b)
  {
    assert SameBits(f, S, n);
    SqueezeOnce(f, S, rate, d);
    SqueezeMore(S, Squeeze(f, f(S), rate, d - rate), rate, r, n, b - r, b);
  }

  lemma SqueezeAll(f: Permutation, S: StateString, rate: nat, r: nat, n: nat, d: nat, b: nat)
    requires 0 < rate <= 200 && d <= rate && r == 8 * rate && b == 8 * d
    ensures BitString(Squeeze(f, S, rate, d)) == FS.Squeeze(BitString(S), r, n, b)
  {
    SqueezeOnce(f, S, rate, d);
    SqueezeFirst(S, r, n, d, b);
  }

  lemma {:induction false} SqueezeAgrees(f: Permutation, S: StateString, rate: nat, r: nat, n: nat, d: nat, b: nat)
    requires 0 < rate <= 200 && RoundsAre(f, n) && r == 8 * rate && b == 8 * d
    ensures BitString(Squeeze(f, S, rate, d)) == FS.Squeeze(BitString(S), r, n, b)
    decreases d
  {
    if d <= rate {
      SqueezeAll(f, S, rate, r, n, d, b);
    } else {
      EightLess(d, rate);
      SqueezeAgrees(f, f(S), rate, r, n, d - rate, b - r);
      SqueezeNext(f, S, rate, r, n, d, b);
    }
  }

  // --- padding ---

  lemma {:induction false} RestSplits(m: nat, rate: nat) returns (n: nat)
    requires 0 < rate
    ensures m == n * rate + Rest(m, rate)
    decreases m
  {
    if m < rate {
      n := 0;
    } else {
      n := RestSplits(m - rate, rate);
      Distribute(rate, n, 1);
      n := n + 1;
    }
  }

  /** The number of zeros that pad10*1 wants behind m bytes and e bits. */
  lemma PadZeros(m: nat, e: nat, rate: nat, t: nat, r: int, k: int)
    requires 0 < rate && t == rate - Rest(m, rate) && r == 8 * rate && k == 8 * m + e && e <= 6
    ensures FS.ZeroCount(r, k) == 8 * t - 2 - e
  {
    var n: int := RestSplits(m, rate);
    EightTimes(n, rate);
    Distribute(r, n, 1);
    DivModUnique(-k - 2, r, -(n + 1), 8 * t - 2 - e);
  }

  lemma EightTimes(n: int, rate: int)
    ensures 8 * (n * rate) == n * (8 * rate)
  {
  }

  lemma TailBits(t: nat, pad: Byte, suffix: seq<bool>, r: nat, k: nat)
    requires 1 <= t && 0 < r && PadByte(pad, suffix) && FS.ZeroCount(r, k) == 8 * t - 2 - |suffix|
    ensures BitString(Tail(t, pad)) == suffix + FS.Pad(r, k)
  {
    PadBits(t, pad, suffix, 0, 0);
    forall j: nat | j < 8 * t ensures BitString(Tail(t, pad))[j] == (suffix + FS.Pad(r, k))[j] {
      BitAt(Tail(t, pad), j);
      PadBits(t, pad, suffix, j / 8, j % 8);
    }
  }

  /** The padded message is the message with the suffix and pad10*1 behind it. */
  lemma PaddedBits(M: seq<Byte>, pad: Byte, suffix: seq<bool>, rate: nat, r: nat)
    requires 0 < rate && r == 8 * rate && PadByte(pad, suffix)
    ensures BitString(Padded(M, rate, pad)) == BitString(M) + suffix + FS.Pad(r, |BitString(M) + suffix|)
  {
    var t := rate - Rest(|M|, rate);
    var k := |BitString(M) + suffix|;
    PadZeros(|M|, |suffix|, rate, t, r, k);
    TailBits(t, pad, suffix, r, k);
    BitsConcat(M, Tail(t, pad));
  }

  lemma ZeroBits()
    ensures BitString(Zeros()) == FS.ZeroState()
  {
    forall j: nat | j < 1600 ensures !BitString(Zeros())[j] {
      PadByteBits(j % 8);
      BitAt(Zeros(), j);
    }
  }

  lemma AbsorbPadded(f: Permutation, M: seq<Byte>, pad: Byte, suffix: seq<bool>, rate: nat, r: nat, n: nat)
    requires 0 < rate <= 200 && RoundsAre(f, n) && PadByte(pad, suffix) && r == 8 * rate
    ensures BitString(Absorb(f, Zeros(), Padded(M, rate, pad), rate)) ==
            FS.Absorb(FS.ZeroState(), BitString(M) + suffix + FS.Pad(r, |BitString(M) + suffix|), r, n)
  {
    PaddedBits(M, pad, suffix, rate, r);
    ZeroBits();
    AbsorbAgrees(f, Zeros(), Padded(M, rate, pad), rate, r, n);
  }

  /** The bytes of the sponge are the bits of KECCAK[c] for the capacity c = 1600 - 8 rate, after the suffix of the pad
      byte. */
  lemma SpongeAgrees(f: Permutation, M: seq<Byte>, pad: Byte, suffix: seq<bool>, rate: nat, n: nat, d: nat, c: nat,
                     b: nat)
    requires 0 < rate <= 200 && RoundsAre(f, n) && PadByte(pad, suffix) && c == 1600 - 8 * rate && b == 8 * d
    ensures BitString(Hash(f, M, rate, pad, d)) == FS.Keccak(c, n, BitString(M) + suffix, b)
  {
    AbsorbPadded(f, M, pad, suffix, rate, 1600 - c, n);
    SqueezeAgrees(f, Absorb(f, Zeros(), Padded(M, rate, pad), rate), rate, 1600 - c, n, d, b);
  }

  lemma Capacity(rate: int, d: int, b: int)
    requires rate == 200 - d - d && b == 8 * d
    ensures 1600 - 8 * rate == b + b
  {
  }

  /** For every pad byte the sponge on bytes is KECCAK[c] with the 24 rounds of the standard. */
  lemma HashIsKeccak(f: Permutation, M: seq<Byte>, pad: Byte, suffix: seq<bool>, rate: nat, n: nat, d: nat, c: nat,
                     b: nat)
    requires IsKeccak(f) && PadByte(pad, suffix) && n == |RNDC|
    requires 0 < rate <= 200 && c == 1600 - 8 * rate && b == 8 * d
    ensures BitString(Hash(f, M, rate, pad, d)) == FS.Keccak(c, n, BitString(M) + suffix, b)
  {
    AllRounds(f, n);
    SpongeAgrees(f, M, pad, suffix, rate, n, d, c, b);
  }

  lemma StandardSha3(Z: seq<bool>, M: seq<bool>, c: nat, n: nat, d: nat)
    requires c < 1600 && c == d + d && Z == FS.Keccak(c, n, M + [false, true], d)
    ensures Z == FS.Sha3(n, M, d)
  {
  }

  lemma HashInRounds(f: Permutation, M: seq<Byte>, rate: nat, n: nat, d: nat, c: nat, b: nat)
    requires RoundsAre(f, n) && 0 < rate <= 200 && b == 8 * d && c == 1600 - 8 * rate && c == b + b
    ensures BitString(Hash(f, M, rate, 0x06, d)) == FS.Sha3(n, BitString(M), b)
  {
    PadBytes();
    SpongeAgrees(f, M, 0x06, [false, true], rate, n, d, c, b);
    StandardSha3(BitString(Hash(f, M, rate, 0x06, d)), BitString(M), c, n, b);
  }

  /** With 200 - 2d bytes in a block the sponge is SHA-3 with 8d bits of output. */
  lemma HashIsSha3(f: Permutation, M: seq<Byte>, rate: nat, n: nat, d: nat, b: nat)
    requires IsKeccak(f) && d < 100 && rate == 200 - d - d && n == |RNDC| && b == 8 * d
    ensures BitString(Hash(f, M, rate, 0x06, d)) == FS.Sha3(n, BitString(M), b)
  {
    AllRounds(f, n);
    Capacity(rate, d, b);
    HashInRounds(f, M, rate, n, d, b + b, b);
  }
}
