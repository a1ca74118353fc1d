/** The hash functions of FIPS 202 on bit strings: the permutation on strings (section 3.1), the sponge construction and
    pad10*1 (sections 4 and 5) and SHA-3 (section 6.1). */
module FipsSponge {
  import Fips202

  type StateArray = Fips202.StateArray

  type StateBits = S: seq<bool> | |S| == 1600 witness seq(1600, _ => false)

  // --- strings and state arrays ---

  /** Section 3.1.2. */
  function ArrayOf(S: StateBits): StateArray {
    (x, y, z) => 0 <= x < 5 && 0 <= y < 5 && 0 <= z < 64 && S[64 * (5 * y + x) + z]
  }

  /** Section 3.1.3. */
  function StringOf(A: StateArray): (S: StateBits)
    ensures forall j :: 0 <= j < 1600 ==> S[j] == A(j / 64 % 5, j / 64 / 5, j % 64)
  {
    seq(1600, j => A(j / 64 % 5, j / 64 / 5, j % 64))
  }

  /** KECCAK-p[1600, n] on strings (section 3.3). */
  function KeccakP(S: StateBits, n: nat): StateBits {
    StringOf(Fips202.KeccakP(ArrayOf(S), n))
  }

  // --- the sponge ---

  /** S exclusive-or'ed with P and zeros behind it. */
  function XorFront(S: StateBits, P: seq<bool>): (T: StateBits)
    requires |P| <= 1600
    ensures forall j :: 0 <= j < 1600 ==> T[j] == (S[j] != (j < |P| && P[j]))
  {
    seq(1600, j requires 0 <= j < 1600 => S[j] != (j < |P| && P[j]))
  }

  /** The sponge with n rounds of the permutation takes in the blocks of P, each of r bits. */
  function Absorb(S: StateBits, P: seq<bool>, r: nat, n: nat): StateBits
    requires 0 < r <= 1600
    decreases |P|
  {
    if |P| < r then S else Absorb(KeccakP(XorFront(S, P[..r]), n), P[r..], r, n)
  }

  function Squeeze(S: StateBits, r: nat, n: nat, d: nat): seq<bool>
    requires 0 < r <= 1600
    decreases d
  {
    if d <= r then S[..d] else S[..r] + Squeeze(KeccakP(S, n), r, n, d - r)
  }

  function ZeroCount(x: int, m: int): (j: int)
    requires 0 < x
    ensures 0 <= j < x
  {
    (-m - 2) % x
  }

  /** pad10*1 (section 5.1): what makes the length m a multiple of x. */
  function Pad(x: nat, m: nat): seq<bool>
    requires 0 < x
  {
    [true] + seq(ZeroCount(x, m), _ => false) + [true]
  }

  function ZeroState(): StateBits { seq(1600, _ => false) }

  /** SPONGE[KECCAK-p[1600, n], pad10*1, 1600 - c], which is KECCAK[c] (section 5.2) for n = 24: d bits of output for
      the string N. */
  function Keccak(c: nat, n: nat, N: seq<bool>, d: nat): seq<bool>
    requires c < 1600
  {
    var r := 1600 - c;
    Squeeze(Absorb(ZeroState(), N + Pad(r, |N|), r, n), r, n, d)
  }

  /** SHA-3 with d bits of output (section 6.1), which has n = 24 rounds. */
  function Sha3(n: nat, M: seq<bool>, d: nat): seq<bool>
    requires d < 800
  {
    Keccak(d + d, n, M + [false, true], d)
  }
}
