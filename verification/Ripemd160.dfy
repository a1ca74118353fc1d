/** Streaming RIPEMD-160: a block buffer in front of the compression function. */
module Ripemd160 {
  import opened Arith
  import opened Powers
  import opened Digits
  import opened MpnStr
  import opened Blocks
  import opened RipemdBlock
  import opened RipemdAgrees
  import RipemdSpec

  type Block = s: seq<Byte> | |s| == 64 witness seq(64, _ => 0)

  // --- words in memory ---

  lemma WordBound(s: seq<Byte>)
    requires |s| == 4
    ensures 0 <= Little(s, 256) < W
  {
    LittleBound(s, 256);
    PowStep(256, 0);
    PowStep(256, 1);
    PowStep(256, 2);
    PowStep(256, 3);
  }

  /** Word i of the buffer: four bytes, least significant first. */
  function WordAt(b: Block, i: nat): Word
    requires i < 16
  {
    WordBound(b[4 * i..4 * i + 4]);
    Little(b[4 * i..4 * i + 4], 256)
  }

  function Words(b: Block): (X: seq<Word>)
    ensures |X| == 16
  {
    seq(16, i requires 0 <= i < 16 => WordAt(b, i))
  }

  function CompressBlock(h: Chain, b: Block): Chain {
    Compress(h, Words(b))
  }

  function WordBytes(x: Word): (s: seq<Byte>)
    ensures |s| == 4
  {
    [x % 256, x / 0x100 % 256, x / 0x1_0000 % 256, x / 0x100_0000]
  }

  // --- the definition ---

  type Compression = (Chain, Block) -> Chain

  /** f is the compression function on a block of bytes. */
  ghost predicate IsRipemd(f: Compression) {
    forall h: Chain, b: Block {:trigger CompressBlock(h, b)} :: f(h, b) == CompressBlock(h, b)
  }

  /** The compression function folded over the blocks of P. */
  function Fold(f: Compression, h: Chain, P: seq<Byte>): Chain
    decreases |P|
  {
    if |P| < 64 then h else Fold(f, f(h, P[..64]), P[64..])
  }

  const InitialH: Chain := [0x67452301, 0xEFCDAB89, 0x98BADCFE, 0x10325476, 0xC3D2E1F0]

  const LENGTH: int := 0x1_0000_0000_0000_0000

  /** The length in bits, modulo 2^64, as two words. */
  function LengthBytes(bits: nat): (s: seq<Byte>)
    requires bits < LENGTH
    ensures |s| == 8
  {
    WordBytes(bits % W) + WordBytes(bits / W)
  }

  /** Zeros between the byte 0x80 and the length when the last block holds rest bytes of the message. */
  function ZeroCount(rest: nat): nat
    requires rest < 64
  {
    if rest < 56 then 55 - rest else 119 - rest
  }

  function Zeros(n: nat): (s: seq<Byte>)
    ensures |s| == n
  {
    seq(n, _ => 0)
  }

  /** The message with its padding (RFC 1320, sections 3.1 and 3.2). */
  function Padded(M: seq<Byte>): seq<Byte> {
    M + [0x80] + Zeros(ZeroCount(Rest(|M|, 64))) + LengthBytes(8 * |M| % LENGTH)
  }

  function DigestBytes(h: Chain): seq<Byte> {
    WordBytes(h[0]) + WordBytes(h[1]) + WordBytes(h[2]) + WordBytes(h[3]) + WordBytes(h[4])
  }

  function Hash(f: Compression, M: seq<Byte>): seq<Byte> {
    DigestBytes(Fold(f, InitialH, Padded(M)))
  }

  lemma {:induction false} FoldMore(f: Compression, h: Chain, P: seq<Byte>, R: Block)
    requires Whole(P, 64)
    ensures Fold(f, h, P + R) == f(Fold(f, h, P), R) && Whole(P + R, 64)
    decreases |P|
  {
    if P == [] {
      assert P + R == R;
      assert R[..64] == R && R[64..] == [];
    } else {
      assert (P + R)[..64] == P[..64] && (P + R)[64..] == P[64..] + R;
      FoldMore(f, f(h, P[..64]), P[64..], R);
    }
  }

  /** The padding fills the last block, with the length in its last eight bytes. */
  lemma PaddedWhole(M: seq<Byte>)
    ensures |Padded(M)| % 64 == 0 && |M| + 9 <= |Padded(M)| < |M| + 9 + 64
  {
    RestMod(|M|);
    FillsBlock(|M|, Rest(|M|, 64));
    assert |Padded(M)| == |M| + 1 + ZeroCount(Rest(|M|, 64)) + 8;
  }

  lemma FillsBlock(m: int, r: int)
    requires 0 <= m && r == m % 64
    ensures (m + 64 - r) % 64 == 0 && (m + 128 - r) % 64 == 0
  {
  }

  lemma {:induction false} RestMod(m: nat)
    ensures Rest(m, 64) == m % 64
  {
    if 64 <= m {
      RestMod(m - 64);
    }
  }

  /** The length bytes are the number of bits modulo 2^64, least significant byte first. */
  lemma LengthIs(bits: nat)
    requires bits < LENGTH
    ensures Little(LengthBytes(bits), 256) == bits
  {
    WordBytesIs(bits % W);
    WordBytesIs(bits / W);
    LittleConcat(WordBytes(bits % W), WordBytes(bits / W), 256);
    PowStep(256, 0);
    PowStep(256, 1);
    PowStep(256, 2);
    PowStep(256, 3);
  }

  lemma FourBytes(x: int)
    requires 0 <= x < W
    ensures x == x % 256 + x / 0x100 % 256 * 256 + x / 0x1_0000 % 256 * 0x1_0000 + x / 0x100_0000 * 0x100_0000
    ensures x / 0x100_0000 < 256
  {
    DivByProduct(x, 256, 256);
    DivByProduct(x, 0x1_0000, 256);
    var y, z := x / 256, x / 0x1_0000;
    assert x == x % 256 + 256 * y && y == y % 256 + 256 * z && z == z % 256 + 256 * (x / 0x100_0000);
  }

  lemma WordBytesIs(x: Word)
    ensures Little(WordBytes(x), 256) == x
  {
    var a: Byte, b: Byte, c: Byte, d: Byte := x % 256, x / 0x100 % 256, x / 0x1_0000 % 256, x / 0x100_0000;
    LittleEmpty(256);
    PowStep(256, 0);
    PowStep(256, 1);
    PowStep(256, 2);
    LittleSnoc([], a, 256);
    LittleSnoc([a], b, 256);
    LittleSnoc([a, b], c, 256);
    LittleSnoc([a, b, c], d, 256);
    FourBytes(x);
    assert [] + [a] == [a] && [a] + [b] == [a, b] && [a, b] + [c] == [a, b, c] && [a, b, c] + [d] == WordBytes(x);
  }

  // --- the definition in words and bits ---

  lemma LittleOfFour(s: seq<Byte>)
    requires |s| == 4
    ensures Little(s, 256) == RipemdSpec.WordOf(s, 0)
  {
    LittleEmpty(256);
    PowStep(256, 0);
    PowStep(256, 1);
    PowStep(256, 2);
    LittleSnoc([], s[0], 256);
    LittleSnoc([s[0]], s[1], 256);
    LittleSnoc([s[0], s[1]], s[2], 256);
    LittleSnoc([s[0], s[1], s[2]], s[3], 256);
    assert [] + [s[0]] == [s[0]] && [s[0]] + [s[1]] == [s[0], s[1]] && [s[0], s[1]] + [s[2]] == [s[0], s[1], s[2]];
    assert [s[0], s[1], s[2]] + [s[3]] == s;
  }

  lemma WordsAgree(b: Block)
    ensures Words(b) == RipemdSpec.Words(b)
  {
    forall i: nat | i < 16 ensures WordAt(b, i) == RipemdSpec.WordOf(b, i) {
      LittleOfFour(b[4 * i..4 * i + 4]);
    }
  }

  lemma BlockAgrees(f: Compression, h: Chain, b: Block)
    requires IsRipemd(f)
    ensures f(h, b) == RipemdSpec.Compression(h, RipemdSpec.Words(b))
  {
    assert f(h, b) == CompressBlock(h, b);
    CompressAgrees(h, Words(b));
    WordsAgree(b);
  }

  lemma InitialAgrees()
    ensures InitialH == RipemdSpec.Initial()
  {
  }

  lemma NoBlocks()
    ensures RipemdSpec.Chained([]) == InitialH
  {
    InitialAgrees();
  }

  lemma LastBlockIs(P: seq<Byte>, b: Block)
    ensures RipemdSpec.Chained(P + b) == RipemdSpec.Compression(RipemdSpec.Chained(P), RipemdSpec.Words(b))
  {
    assert (P + b)[..|P + b| - 64] == P && (P + b)[|P + b| - 64..] == b;
    assert RipemdSpec.Chained(P + b) == RipemdSpec.LastBlock(P + b);
  }

  lemma OneBlock(f: Compression, P: seq<Byte>, b: Block, Q: seq<Byte>)
    requires IsRipemd(f) && Whole(P, 64) && Fold(f, InitialH, P) == RipemdSpec.Chained(P) && Q == P + b
    ensures Whole(Q, 64) && Fold(f, InitialH, Q) == RipemdSpec.Chained(Q)
  {
    FoldMore(f, InitialH, P, b);
    BlockAgrees(f, Fold(f, InitialH, P), b);
    LastBlockIs(P, b);
  }

  lemma CutBlock(P: seq<Byte>) returns (Q: seq<Byte>, b: Block)
    requires |P| % 64 == 0 && P != []
    ensures P == Q + b && |Q| % 64 == 0 && |Q| < |P|
  {
    Q, b := P[..|P| - 64], P[|P| - 64..];
  }

  lemma {:induction false} ChainedAgrees(f: Compression, P: seq<Byte>)
    requires IsRipemd(f) && |P| % 64 == 0
    ensures Whole(P, 64) && Fold(f, InitialH, P) == RipemdSpec.Chained(P)
    decreases |P|
  {
    if P == [] {
      NoBlocks();
    } else {
      var Q, b := CutBlock(P);
      ChainedAgrees(f, Q);
      OneBlock(f, Q, b, P);
    }
  }

  /** The bytes of a number, the least significant first. */
  function BytesOf(x: nat, n: nat): seq<Byte> {
    seq(n, i requires 0 <= i < n => RipemdSpec.ByteOf(x, i))
  }

  lemma {:induction false} BytesValue(x: nat, n: nat)
    ensures 0 < Pow(256, n) && Little(BytesOf(x, n), 256) == x % Pow(256, n)
  {
    PowPositive(256, n);
    if n == 0 {
      LittleEmpty(256);
      PowStep(256, 0);
    } else {
      BytesValue(x, n - 1);
      var p := Pow(256, n - 1);
      PowStep(256, n - 1);
      assert BytesOf(x, n) == BytesOf(x, n - 1) + [RipemdSpec.ByteOf(x, n - 1)];
      LittleSnoc(BytesOf(x, n - 1), RipemdSpec.ByteOf(x, n - 1), 256);
      DivByProduct(x, p, 256);
    }
  }

  lemma LengthPower()
    ensures Pow(256, 8) == LENGTH
  {
    PowStep(256, 0);
    PowStep(256, 1);
    PowStep(256, 2);
    PowStep(256, 3);
    PowAdd(256, 4, 4);
  }

  lemma LengthAgrees(bits: nat)
    ensures LengthBytes(bits % LENGTH) == BytesOf(bits, 8)
  {
    LengthIs(bits % LENGTH);
    BytesValue(bits, 8);
    LengthPower();
    LittleInjective(LengthBytes(bits % LENGTH), BytesOf(bits, 8));
  }

  lemma LittleInjective(s: seq<Byte>, t: seq<Byte>)
    requires |s| == |t| && Little(s, 256) == Little(t, 256)
    ensures s == t
  {
    BigInjective(Reversed(s), Reversed(t), 256);
    forall i: nat | i < |s| ensures s[i] == t[i] {
      assert Reversed(s)[|s| - 1 - i] == s[i] && Reversed(t)[|s| - 1 - i] == t[i];
    }
  }

  lemma ZerosAgree(m: nat)
    ensures ZeroCount(Rest(m, 64)) == RipemdSpec.ZeroBytes(m)
  {
    RestMod(m);
    ZerosModulo(m, m % 64);
  }

  lemma ZerosModulo(m: int, r: int)
    requires r == m % 64
    ensures (55 - m) % 64 == if r < 56 then 55 - r else 119 - r
  {
  }

  lemma PaddedAgrees(M: seq<Byte>)
    ensures Padded(M) == M + RipemdSpec.Pad(|M|)
  {
    ZerosAgree(|M|);
    LengthAgrees(8 * |M|);
  }

  lemma WordBytesAgree(x: Word, i: nat)
    requires i < 4
    ensures WordBytes(x)[i] == RipemdSpec.ByteOf(x, i)
  {
    PowStep(256, 0);
    PowStep(256, 1);
    PowStep(256, 2);
    FourBytes(x);
  }

  lemma DigestByte(h: Chain, i: nat, k: nat, j: nat)
    requires i < 5 && k < 4 && j == 4 * i + k
    ensures j < 20 && j / 4 == i && j % 4 == k && DigestBytes(h)[j] == WordBytes(h[i])[k]
  {
  }

  lemma DigestAgrees(h: Chain)
    ensures DigestBytes(h) == seq(20, j requires 0 <= j < 20 => RipemdSpec.ByteOf(h[j / 4], j % 4))
  {
    forall j: nat | j < 20 ensures DigestBytes(h)[j] == RipemdSpec.ByteOf(h[j / 4], j % 4) {
      DigestByte(h, j / 4, j % 4, j);
      WordBytesAgree(h[j / 4], j % 4);
    }
  }

  /** Four bytes of the output, the least significant first, are word i. */
  ghost predicate WordInOutput(out: seq<Byte>, i: nat, x: nat) {
    4 * i + 4 <= |out| && Little(out[4 * i..4 * i + 4], 256) == x
  }

  /** The output is the five words. */
  ghost predicate IsOutput(out: seq<Byte>, h: seq<nat>) {
    |out| == 20 && |h| == 5 && forall i: nat :: i < 5 ==> WordInOutput(out, i, h[i])
  }

  lemma DigestIsOutput(h: Chain)
    ensures IsOutput(DigestBytes(h), h)
  {
    forall i: nat | i < 5 ensures WordInOutput(DigestBytes(h), i, h[i]) {
      assert DigestBytes(h)[4 * i..4 * i + 4] == WordBytes(h[i]);
      WordBytesIs(h[i]);
    }
  }

  lemma PaddedFold(f: Compression, M: seq<Byte>)
    requires IsRipemd(f)
    ensures Fold(f, InitialH, Padded(M)) == RipemdSpec.Chained(M + RipemdSpec.Pad(|M|))
  {
    PaddedAgrees(M);
    PaddedWhole(M);
    ChainedAgrees(f, Padded(M));
  }

  lemma OutputAgrees(h: Chain, M: seq<Byte>)
    requires h == RipemdSpec.Chained(M + RipemdSpec.Pad(|M|))
    ensures DigestBytes(h) == RipemdSpec.Hash(M)
  {
    DigestAgrees(h);
  }

  lemma WordsOut(h: Chain, c: seq<nat>)
    requires h == c
    ensures IsOutput(DigestBytes(h), c)
  {
    DigestIsOutput(h);
  }

  /** The hash value is the one of the definition. */
  lemma HashAgrees(f: Compression, M: seq<Byte>)
    requires IsRipemd(f)
    ensures Hash(f, M) == RipemdSpec.Hash(M)
  {
    PaddedFold(f, M);
    OutputAgrees(Fold(f, InitialH, Padded(M)), M);
  }

  lemma HashWords(f: Compression, M: seq<Byte>, c: seq<nat>)
    requires IsRipemd(f) && c == RipemdSpec.Chained(M + RipemdSpec.Pad(|M|))
    ensures IsOutput(Hash(f, M), c)
  {
    PaddedFold(f, M);
    WordsOut(Fold(f, InitialH, Padded(M)), c);
  }

  // --- the streaming state ---

  lemma LengthAdds(m: nat, n: nat)
    ensures (8 * m % LENGTH + 8 * n) % LENGTH == 8 * (m + n) % LENGTH
  {
    AddModulo(8 * m, 8 * n, LENGTH);
  }

  lemma AddModulo(x: int, y: int, m: int)
    requires 0 < m
    ensures (x % m + y) % m == (x + y) % m
  {
    DivMod(x, m);
    DivMod(x % m + y, m);
    Distribute(m, x / m, (x % m + y) / m);
    DivModUnique(x + y, m, x / m + (x % m + y) / m, (x % m + y) % m);
  }

  class Context {
    var length: nat
    const buf: array<Byte>
    const h: array<Word>
    var bufpos: nat
    /** The message so far, and its part that has been compressed. */
    ghost var message: seq<Byte>
    ghost var compressed: seq<Byte>
    /** What ripemd160_compress computes. */
    ghost const f: Compression

    /** The buffer ends the message; behind it there are zeros. */
    ghost predicate Holds()
      reads this, buf, h
    {
      && IsRipemd(f) && buf.Length == 64 && h.Length == 5 && bufpos <= 64
      && Whole(compressed, 64) && message == compressed + buf[..bufpos]
      && h[..] == Fold(f, InitialH, compressed)
      && (forall k :: bufpos <= k < 64 ==> buf[k] == 0)
      && length == 8 * |message| % LENGTH
    }

    /** A full buffer is never left behind. */
    ghost predicate Valid()
      reads this, buf, h
    {
      Holds() && bufpos < 64
    }

    /** ripemd160_init. */
    constructor Init()
      ensures Valid() && message == [] && fresh(buf) && fresh(h)
      ensures h[..] == RipemdSpec.Initial()
    {
      h := new Word[5](i requires 0 <= i < 5 => InitialH[i]);
      buf := new Byte[64](_ => 0);
      length := 0;
      bufpos := 0;
      message := [];
      compressed := [];
      f := CompressBlock;
      new;
      assert h[..] == InitialH;
      InitialAgrees();
    }

    /** ripemd160_compress: takes in the full buffer and clears it. */
    method CompressBuffer()
      requires Holds() && bufpos == 64
      modifies this`bufpos, this`compressed, buf, h
      ensures Valid() && bufpos == 0
    {
      ghost var B := buf[..];
      FoldMore(f, InitialH, compressed, B);
      CompressArrays(h, buf, f);
      compressed := compressed + B;
      bufpos := 0;
    }

    // Bytes that fit the buffer.
    method Append(p: seq<Byte>)
      requires Valid() && bufpos + |p| <= 64
      modifies this`bufpos, this`length, this`message, buf
      ensures Holds() && message == old(message) + p && bufpos == old(bufpos) + |p|
    {
      ghost var b := buf[..bufpos];
      LengthAdds(|message|, |p|);
      CopyIn(buf, bufpos, p);
      assert buf[..bufpos + |p|] == b + p;
      bufpos := bufpos + |p|;
      length := (length + 8 * |p|) % LENGTH;
      message := message + p;
    }

    /** ripemd160_process: takes in any number of bytes. */
    method Process(data: seq<Byte>)
      requires Valid()
      modifies this`bufpos, this`length, this`message, this`compressed, buf, h
      ensures Valid() && message == old(message) + data
    {
      var p := data;
      while |p| > 0
        invariant Valid() && message + p == old(message) + data
      {
        var needed := 64 - bufpos;
        ghost var M := message;
        if |p| >= needed {
          assert M + p == M + p[..needed] + p[needed..];
          Append(p[..needed]);
          p := p[needed..];
          CompressBuffer();
        } else {
          Append(p);
          return;
        }
      }
    }

    /** ripemd160_done: pads, compresses the last one or two blocks, and reads the digest off the chaining words. */
    method Done() returns (out: seq<Byte>)
      requires Valid()
      modifies this`bufpos, buf, h
      ensures out == RipemdSpec.Hash(message)
      ensures IsOutput(out, RipemdSpec.Chained(message + RipemdSpec.Pad(|message|)))
    {
      ghost var C, R, H := compressed, buf[..bufpos], h[..];
      buf[bufpos] := 0x80;
      bufpos := bufpos + 1;
      if bufpos > 56 {
        bufpos := 64;
        ghost var B := buf[..];
        assert B == R + [0x80] + Zeros(63 - |R|);
        CompressArrays(h, buf, f);
        bufpos := 0;
        assert buf[..56] == Zeros(56);
        WriteLength(buf, length);
        PadLong(f, C, R, B, buf[..]);
      } else {
        assert buf[..56] == R + [0x80] + Zeros(55 - |R|);
        WriteLength(buf, length);
        PadShort(f, C, R, buf[..]);
      }
      bufpos := 64;
      CompressArrays(h, buf, f);
      bufpos := 0;
      out := DigestBytes(h[..]);
      HashAgrees(f, message);
      HashWords(f, message, RipemdSpec.Chained(message + RipemdSpec.Pad(|message|)));
    }
  }

  /** The 64-bit length into the last two words of the buffer. */
  method WriteLength(buf: array<Byte>, bits: nat)
    requires buf.Length == 64 && bits < LENGTH
    modifies buf
    ensures buf[..] == old(buf[..56]) + LengthBytes(bits)
  {
    CopyIn(buf, 56, WordBytes(bits % W));
    CopyIn(buf, 60, WordBytes(bits / W));
  }

  // The padding fits the block that the message ends in.
  lemma PadShort(f: Compression, C: seq<Byte>, R: seq<Byte>, B: Block)
    requires Whole(C, 64) && |R| < 56
    requires B == R + [0x80] + Zeros(55 - |R|) + LengthBytes(8 * |C + R| % LENGTH)
    ensures Fold(f, InitialH, Padded(C + R)) == f(Fold(f, InitialH, C), B)
  {
    WholeRest(C, 64, |R|);
    FoldMore(f, InitialH, C, B);
    assert Padded(C + R) == C + B;
  }

  lemma LongPadding(C: seq<Byte>, R: seq<Byte>, B: Block, B': Block, L: seq<Byte>)
    requires 56 <= |R| < 64 && B == R + [0x80] + Zeros(63 - |R|) && B' == Zeros(56) + L
    ensures C + R + [0x80] + Zeros(119 - |R|) + L == C + B + B'
  {
    assert Zeros(119 - |R|) == Zeros(63 - |R|) + Zeros(56);
  }

  // The padding takes another block.
  lemma PadLong(f: Compression, C: seq<Byte>, R: seq<Byte>, B: Block, B': Block)
    requires Whole(C, 64) && 56 <= |R| < 64
    requires B == R + [0x80] + Zeros(63 - |R|) && B' == Zeros(56) + LengthBytes(8 * |C + R| % LENGTH)
    ensures Fold(f, InitialH, Padded(C + R)) == f(f(Fold(f, InitialH, C), B), B')
  {
    WholeRest(C, 64, |R|);
    FoldMore(f, InitialH, C, B);
    FoldMore(f, InitialH, C + B, B');
    LongPadding(C, R, B, B', LengthBytes(8 * |C + R| % LENGTH));
  }

  /** memcpy into the buffer. */
  method CopyIn(buf: array<Byte>, pos: nat, p: seq<Byte>)
    requires pos + |p| <= buf.Length
    modifies buf
    ensures forall k :: 0 <= k < buf.Length ==> buf[k] == if pos <= k < pos + |p| then p[k - pos] else old(buf[k])
  {
    for i := 0 to |p|
      invariant forall k :: 0 <= k < buf.Length ==> buf[k] == if pos <= k < pos + i then p[k - pos] else old(buf[k])
    {
      buf[pos + i] := p[i];
    }
  }

  method Clear(buf: array<Byte>)
    modifies buf
    ensures forall k :: 0 <= k < buf.Length ==> buf[k] == 0
  {
    for i := 0 to buf.Length
      invariant forall k :: 0 <= k < i ==> buf[k] == 0
    {
      buf[i] := 0;
    }
  }

  /** The words of the buffer into the chaining words; the buffer is wiped. */
  method CompressArrays(h: array<Word>, buf: array<Byte>, ghost f: Compression)
    requires h.Length == 5 && buf.Length == 64 && IsRipemd(f)
    modifies h, buf
    ensures h[..] == f(old(h[..]), old(buf[..]))
    ensures forall k :: 0 <= k < 64 ==> buf[k] == 0
  {
    ghost var H, B := h[..], buf[..];
    assert f(H, B) == CompressBlock(H, B);
    CompressChain(h, Words(buf[..]));
    Clear(buf);
  }

  /** ripemd160: the digest of a whole message. */
  method Digest(data: seq<Byte>) returns (out: seq<Byte>)
    ensures out == RipemdSpec.Hash(data)
    ensures IsOutput(out, RipemdSpec.Chained(data + RipemdSpec.Pad(|data|)))
  {
    var c := new Context.Init();
    c.Process(data);
    assert [] + data == data;
    out := c.Done();
  }
}
