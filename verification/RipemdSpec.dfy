/** RIPEMD-160 by its definition: 80 steps in two lines, on words given by their bits, over the padded message.
    Nothing here is shared with the code. */
module RipemdSpec {
  import opened Arith
  import opened Powers
  import opened Bits
  import opened Digits

  const M32: int := 0x1_0000_0000

  // --- words by their bits ---

  /** The number with the bits s, the least significant first. */
  function Number(s: seq<bool>): nat {
    if s == [] then 0 else (if s[0] then 1 else 0) + 2 * Number(s[1..])
  }

  /** The Boolean function of step j, on one bit of each word. */
  predicate FBit(j: nat, x: bool, y: bool, z: bool) {
    if j < 16 then x != (y != z)
    else if j < 32 then if x then y else z
    else if j < 48 then (y ==> x) != z
    else if j < 64 then if z then x else y
    else x != (z ==> y)
  }

  function F(j: nat, x: nat, y: nat, z: nat): nat {
    Number(seq(32, i requires 0 <= i => FBit(j, Bit(x, i), Bit(y, i), Bit(z, i))))
  }

  /** x turned left by s bits. */
  function Turn(s: nat, x: nat): nat {
    Number(seq(32, i => Bit(x, (i - s) % 32)))
  }

  // --- selection of words, shifts and constants ---

  function Rho(i: nat): nat
    requires i < 16
  {
    [7, 4, 13, 1, 10, 6, 15, 3, 12, 0, 9, 5, 2, 14, 11, 8][i]
  }

  function RhoPower(n: nat, i: nat): (r: nat)
    requires i < 16
    ensures r < 16
  {
    if n == 0 then i else Rho(RhoPower(n - 1, i))
  }

  function Pi(i: nat): (r: nat)
    ensures r < 16
  {
    (9 * i + 5) % 16
  }

  /** The word of step j in the left line, and in the right line. */
  function R(j: nat): (r: nat)
    ensures r < 16
  {
    RhoPower(j / 16, j % 16)
  }

  function R'(j: nat): (r: nat)
    ensures r < 16
  {
    RhoPower(j / 16, Pi(j % 16))
  }

  /** The shifts of the sixteen words in each round, the same for both lines. */
  const SHIFTS: seq<seq<nat>> := [
    [11, 14, 15, 12, 5, 8, 7, 9, 11, 13, 14, 15, 6, 7, 9, 8],
    [12, 13, 11, 15, 6, 9, 9, 7, 12, 15, 11, 13, 7, 8, 7, 7],
    [13, 15, 14, 11, 7, 7, 6, 8, 13, 14, 13, 12, 5, 5, 6, 9],
    [14, 11, 12, 14, 8, 6, 5, 5, 15, 12, 15, 14, 9, 9, 8, 6],
    [15, 12, 13, 13, 9, 5, 8, 6, 14, 11, 12, 11, 8, 6, 5, 5]]

  function Shift(round: nat, word: nat): nat
    requires round < 5 && word < 16
  {
    SHIFTS[round][word]
  }

  /** 2^30 times the z-th root of x, rounded down. */
  ghost function ScaledRoot(x: nat, z: nat): (k: nat)
    requires 1 <= z
    ensures 0 <= x * Pow2(30 * z) && FloorRoot(k, x * Pow2(30 * z), z)
  {
    PowPositive(2, 30 * z);
    MulNonneg(x, Pow2(30 * z));
    FloorRootIsThere(x * Pow2(30 * z), z);
    var k: nat :| FloorRoot(k, x * Pow2(30 * z), z);
    k
  }

  /** The constants of the left line come from square roots, those of the right line from cube roots. */
  ghost function K(j: nat): nat {
    if j < 16 then 0
    else if j < 32 then ScaledRoot(2, 2)
    else if j < 48 then ScaledRoot(3, 2)
    else if j < 64 then ScaledRoot(5, 2)
    else ScaledRoot(7, 2)
  }

  ghost function K'(j: nat): nat {
    if j < 16 then ScaledRoot(2, 3)
    else if j < 32 then ScaledRoot(3, 3)
    else if j < 48 then ScaledRoot(5, 3)
    else if j < 64 then ScaledRoot(7, 3)
    else 0
  }

  // --- the compression function ---

  datatype Five = Five(a: nat, b: nat, c: nat, d: nat, e: nat)

  function Step(l: Five, j: nat, x: nat, k: nat, s: nat): Five {
    Five(l.e, (Turn(s, (l.a + F(j, l.b, l.c, l.d) + x + k) % M32) + l.e) % M32, l.b, Turn(10, l.c), l.d)
  }

  /** The left line after n of its 80 steps. */
  ghost function Left(l: Five, X: seq<nat>, n: nat): Five
    requires |X| == 16 && n <= 80
    decreases n, X
  {
    if n == 0 then l
    else
      var j := n - 1;
      Step(Left(l, X, j), j, X[R(j)], K(j), Shift(j / 16, R(j)))
  }

  /** The right line, which takes the Boolean functions in the opposite order. */
  ghost function Right(l: Five, X: seq<nat>, n: nat): Five
    requires |X| == 16 && n <= 80
    decreases n, X
  {
    if n == 0 then l
    else
      var j := n - 1;
      Step(Right(l, X, j), 79 - j, X[R'(j)], K'(j), Shift(j / 16, R'(j)))
  }

  ghost function Compression(h: seq<nat>, X: seq<nat>): (r: seq<nat>)
    requires |h| == 5 && |X| == 16
    ensures |r| == 5
  {
    var l := Five(h[0], h[1], h[2], h[3], h[4]);
    Mixed(h, Left(l, X, 80), Right(l, X, 80))
  }

  function Mixed(h: seq<nat>, l: Five, r: Five): (m: seq<nat>)
    requires |h| == 5
    ensures |m| == 5
  {
    [(h[1] + l.c + r.d) % M32, (h[2] + l.d + r.e) % M32, (h[3] + l.e + r.a) % M32, (h[4] + l.a + r.b) % M32,
     (h[0] + l.b + r.c) % M32]
  }

  // --- the hash function ---

  /** Word i of a string of bytes, the least significant byte first. */
  function WordOf(b: seq<Byte>, i: nat): nat
    requires 4 * i + 4 <= |b|
  {
    var b0: nat, b1: nat, b2: nat, b3: nat := b[4 * i], b[4 * i + 1], b[4 * i + 2], b[4 * i + 3];
    b0 + b1 * 0x100 + b2 * 0x1_0000 + b3 * 0x100_0000
  }

  /** The sixteen words of a block. */
  function Words(b: seq<Byte>): (X: seq<nat>)
    requires |b| == 64
    ensures |X| == 16
  {
    seq(16, i requires 0 <= i < 16 => WordOf(b, i))
  }

  /** The initial words as bytes: 01 23 45 67 89 AB CD EF FE DC BA 98 76 54 32 10 F0 E1 D2 C3. */
  function InitialByte(j: nat): Byte
    requires j < 20
  {
    if j < 8 then 16 * (2 * j) + 2 * j + 1
    else if j < 16 then 16 * (31 - 2 * j) + 30 - 2 * j
    else 16 * (31 - j) + j - 16
  }

  function Initial(): seq<nat> {
    var b := seq(20, j requires 0 <= j < 20 => InitialByte(j));
    [WordOf(b, 0), WordOf(b, 1), WordOf(b, 2), WordOf(b, 3), WordOf(b, 4)]
  }

  /** A byte 0x80, zeros up to eight bytes before the end of a block, and the length in bits modulo 2^64, the least
      significant byte first (RFC 1320, sections 3.1 and 3.2). */
  function Pad(m: nat): seq<Byte> {
    [0x80] + seq(ZeroBytes(m), _ => 0) + seq(8, i requires 0 <= i < 8 => ByteOf(8 * m, i))
  }

  function ZeroBytes(m: int): (n: int)
    ensures 0 <= n < 64
  {
    (55 - m) % 64
  }

  /** Byte i of a number. */
  function ByteOf(x: nat, i: nat): Byte {
    PowPositive(256, i);
    x / Pow(256, i) % 256
  }

  /** The chaining words after the blocks of P. The recursion sits one call below. */
  ghost function Chained(P: seq<Byte>): (h: seq<nat>)
    ensures |h| == 5
    decreases |P|, 1
  {
    if |P| < 64 then Initial() else LastBlock(P)
  }

  ghost function LastBlock(P: seq<Byte>): (h: seq<nat>)
    requires 64 <= |P|
    ensures |h| == 5
    decreases |P|, 0
  {
    Compression(Chained(P[..|P| - 64]), Words(P[|P| - 64..]))
  }

  /** RIPEMD-160. */
  ghost function Hash(M: seq<Byte>): seq<Byte> {
    var h := Chained(M + Pad(|M|));
    seq(20, j requires 0 <= j < 20 => ByteOf(h[j / 4], j % 4))
  }
}
