/** The compression function of RIPEMD-160 on five chaining words and a block of sixteen. */
module RipemdBlock {
  import opened Powers
  import opened Bits

  const W: int := 0x1_0000_0000

  type Word = x: int | 0 <= x < W

  // --- words ---

  function Op(op: BitOp, x: Word, y: Word): Word {
    Pow2Values();
    BitwiseBound(op, x, y, 32);
    Bitwise(op, x, y)
  }

  function Not(x: Word): (r: Word)
    ensures r == Bitwise(Xor, x, W - 1)
  {
    Pow2Values();
    XorWithOnes(x, 32);
    W - 1 - x
  }

  function Add(x: Word, y: Word): Word {
    (x + y) % W
  }

  /** ROL: a word turned left by s bits. */
  function Rol(s: nat, x: Word): Word
    requires s < 32
  {
    PowPositive(2, 32 - s);
    DivNonneg(x, Pow2(32 - s));
    Op(Or, x * Pow2(s) % W, x / Pow2(32 - s))
  }

  // --- tables ---

  const RL: seq<seq<nat>> := [
    [0, 1, 2, 3, 4, 5, 6, 7, 8, 9, 10, 11, 12, 13, 14, 15],
    [7, 4, 13, 1, 10, 6, 15, 3, 12, 0, 9, 5, 2, 14, 11, 8],
    [3, 10, 14, 4, 9, 15, 8, 1, 2, 7, 0, 6, 13, 11, 5, 12],
    [1, 9, 11, 10, 0, 8, 12, 4, 13, 3, 7, 15, 14, 5, 6, 2],
    [4, 0, 5, 9, 7, 12, 2, 10, 14, 1, 3, 8, 11, 6, 15, 13]]

  const RR: seq<seq<nat>> := [
    [5, 14, 7, 0, 9, 2, 11, 4, 13, 6, 15, 8, 1, 10, 3, 12],
    [6, 11, 3, 7, 0, 13, 5, 10, 14, 15, 8, 12, 4, 9, 1, 2],
    [15, 5, 1, 3, 7, 14, 6, 9, 11, 8, 12, 2, 10, 0, 4, 13],
    [8, 6, 4, 1, 3, 11, 15, 0, 5, 12, 2, 13, 9, 7, 10, 14],
    [12, 15, 10, 4, 1, 5, 8, 7, 6, 2, 13, 14, 0, 3, 9, 11]]

  const SL: seq<seq<nat>> := [
    [11, 14, 15, 12, 5, 8, 7, 9, 11, 13, 14, 15, 6, 7, 9, 8],
    [7, 6, 8, 13, 11, 9, 7, 15, 7, 12, 15, 9, 11, 7, 13, 12],
    [11, 13, 6, 7, 14, 9, 13, 15, 14, 8, 13, 6, 5, 12, 7, 5],
    [11, 12, 14, 15, 14, 15, 9, 8, 9, 14, 5, 6, 8, 6, 5, 12],
    [9, 15, 5, 11, 6, 8, 13, 12, 5, 12, 13, 14, 11, 8, 5, 6]]

  const SR: seq<seq<nat>> := [
    [8, 9, 9, 11, 13, 15, 15, 5, 7, 7, 8, 11, 14, 14, 12, 6],
    [9, 13, 15, 7, 12, 8, 9, 11, 7, 7, 12, 7, 6, 15, 13, 11],
    [9, 7, 15, 11, 8, 6, 6, 14, 12, 13, 5, 14, 13, 13, 7, 5],
    [15, 5, 8, 11, 14, 14, 6, 14, 6, 9, 12, 9, 12, 5, 15, 8],
    [8, 5, 12, 9, 12, 5, 14, 6, 8, 13, 6, 5, 15, 13, 11, 11]]

  const KL: seq<Word> := [0, 0x5A827999, 0x6ED9EBA1, 0x8F1BBCDC, 0xA953FD4E]

  const KR: seq<Word> := [0x50A28BE6, 0x5C4DD124, 0x6D703EF3, 0x7A6D76E9, 0]

  ghost predicate Row(row: seq<nat>, bound: nat) {
    |row| == 16 && forall i :: 0 <= i < 16 ==> row[i] < bound
  }

  lemma LeftTables()
    ensures |RL| == 5 && |SL| == 5 && |KL| == 5
    ensures forall r :: 0 <= r < 5 ==> Row(RL[r], 16)
    ensures forall r :: 0 <= r < 5 ==> Row(SL[r], 16)
  {
  }

  lemma RightTables()
    ensures |RR| == 5 && |SR| == 5 && |KR| == 5
    ensures forall r :: 0 <= r < 5 ==> Row(RR[r], 16)
    ensures forall r :: 0 <= r < 5 ==> Row(SR[r], 16)
  {
  }

  /** The permutation rho of the message words. */
  function Rho(i: nat): nat {
    if i == 0 then 7 else if i == 1 then 4 else if i == 2 then 13 else if i == 3 then 1 else if i == 4 then 10 else
    if i == 5 then 6 else if i == 6 then 15 else if i == 7 then 3 else if i == 8 then 12 else if i == 9 then 0 else
    if i == 10 then 9 else if i == 11 then 5 else if i == 12 then 2 else if i == 13 then 14 else
    if i == 14 then 11 else 8
  }

  function AfterRho(row: seq<nat>): seq<nat>
    requires |row| == 16
  {
    [Rho(row[0]), Rho(row[1]), Rho(row[2]), Rho(row[3]), Rho(row[4]), Rho(row[5]), Rho(row[6]), Rho(row[7]),
     Rho(row[8]), Rho(row[9]), Rho(row[10]), Rho(row[11]), Rho(row[12]), Rho(row[13]), Rho(row[14]), Rho(row[15])]
  }

  /** The left line takes the words in the order of the powers of rho. */
  lemma LeftOrder()
    ensures |RL| == 5 && RL[0] == [0, 1, 2, 3, 4, 5, 6, 7, 8, 9, 10, 11, 12, 13, 14, 15]
    ensures |RL[1]| == 16 && RL[1] == AfterRho(RL[0])
    ensures |RL[2]| == 16 && RL[2] == AfterRho(RL[1])
    ensures |RL[3]| == 16 && RL[3] == AfterRho(RL[2])
    ensures RL[4] == AfterRho(RL[3])
  {
  }

  /** The right line takes them in the order of the powers of rho after pi, which takes i to 9 i + 5 modulo 16. */
  lemma RightOrder()
    ensures |RR| == 5 && |RR[0]| == 16 && forall i :: 0 <= i < 16 ==> RR[0][i] == (9 * i + 5) % 16
    ensures RR[1] == AfterRho(RR[0])
    ensures |RR[1]| == 16 && RR[2] == AfterRho(RR[1])
    ensures |RR[2]| == 16 && RR[3] == AfterRho(RR[2])
    ensures |RR[3]| == 16 && RR[4] == AfterRho(RR[3])
  {
  }

  // --- the two lines ---

  /** F1 to F5. */
  function Mix(n: nat, x: Word, y: Word, z: Word): Word {
    if n == 1 then Op(Xor, Op(Xor, x, y), z)
    else if n == 2 then Op(Or, Op(And, x, y), Op(And, Not(x), z))
    else if n == 3 then Op(Xor, Op(Or, x, Not(y)), z)
    else if n == 4 then Op(Or, Op(And, x, z), Op(And, y, Not(z)))
    else Op(Xor, x, Op(Or, y, Not(z)))
  }

  datatype Line = Line(a: Word, b: Word, c: Word, d: Word, e: Word)

  /** One step with Boolean function n, message word x, constant k and shift s. */
  function Step(l: Line, n: nat, x: Word, k: Word, s: nat): Line
    requires s < 16
  {
    var t := Add(Rol(s, Add(Add(Add(l.a, Mix(n, l.b, l.c, l.d)), x), k)), l.e);
    Line(l.e, t, l.b, Rol(10, l.c), l.d)
  }

  /** The first w steps of a round. The recursion sits two calls below. */
  function Steps(l: Line, n: nat, X: seq<Word>, row: seq<nat>, shifts: seq<nat>, k: Word, w: nat): Line
    requires |X| == 16 && Row(row, 16) && Row(shifts, 16) && w <= 16
    decreases w, 2
  {
    StepsRec(l, n, X, row, shifts, k, w)
  }

  function StepsRec(l: Line, n: nat, X: seq<Word>, row: seq<nat>, shifts: seq<nat>, k: Word, w: nat): Line
    requires |X| == 16 && Row(row, 16) && Row(shifts, 16) && w <= 16
    decreases w, 1
  {
    if w == 0 then l else LastStep(l, n, X, row, shifts, k, w)
  }

  function LastStep(l: Line, n: nat, X: seq<Word>, row: seq<nat>, shifts: seq<nat>, k: Word, w: nat): Line
    requires |X| == 16 && Row(row, 16) && Row(shifts, 16) && 0 < w <= 16
    decreases w, 0
  {
    Step(Steps(l, n, X, row, shifts, k, w - 1), n, X[row[w - 1]], k, shifts[w - 1])
  }

  lemma OneMoreStep(l: Line, n: nat, X: seq<Word>, row: seq<nat>, shifts: seq<nat>, k: Word, w: nat)
    requires |X| == 16 && Row(row, 16) && Row(shifts, 16) && w < 16
    ensures Steps(l, n, X, row, shifts, k, 0) == l
    ensures Steps(l, n, X, row, shifts, k, w + 1) == Step(Steps(l, n, X, row, shifts, k, w), n, X[row[w]], k, shifts[w])
  {
    assert StepsRec(l, n, X, row, shifts, k, 0) == l;
    assert StepsRec(l, n, X, row, shifts, k, w + 1) == LastStep(l, n, X, row, shifts, k, w + 1);
  }

  /** One round of one line. */
  function Round(l: Line, n: nat, X: seq<Word>, row: seq<nat>, shifts: seq<nat>, k: Word): Line
    requires |X| == 16 && Row(row, 16) && Row(shifts, 16)
  {
    Steps(l, n, X, row, shifts, k, |row|)
  }

  method RunRound(l: Line, n: nat, X: seq<Word>, row: seq<nat>, shifts: seq<nat>, k: Word) returns (r: Line)
    requires |X| == 16 && Row(row, 16) && Row(shifts, 16)
    ensures r == Round(l, n, X, row, shifts, k)
  {
    r := l;
    OneMoreStep(l, n, X, row, shifts, k, 0);
    for w := 0 to 16
      invariant r == Steps(l, n, X, row, shifts, k, w)
    {
      OneMoreStep(l, n, X, row, shifts, k, w);
      var t := Add(Rol(shifts[w], Add(Add(Add(r.a, Mix(n, r.b, r.c, r.d)), X[row[w]]), k)), r.e);
      r := Line(r.e, t, r.b, Rol(10, r.c), r.d);
    }
  }

  /** The first r rounds of the left line: functions 1 to 5. */
  function Left(l: Line, X: seq<Word>, r: nat): Line
    requires |X| == 16 && r <= 5
  {
    LeftTables();
    if r == 0 then l else Round(Left(l, X, r - 1), r, X, RL[r - 1], SL[r - 1], KL[r - 1])
  }

  /** The first r rounds of the right line: functions 5 to 1. */
  function Right(l: Line, X: seq<Word>, r: nat): Line
    requires |X| == 16 && r <= 5
  {
    RightTables();
    if r == 0 then l else Round(Right(l, X, r - 1), 6 - r, X, RR[r - 1], SR[r - 1], KR[r - 1])
  }

  type Chain = s: seq<Word> | |s| == 5 witness [0, 0, 0, 0, 0]

  function Mixed(h: Chain, l: Line, r: Line): Chain {
    [Add(Add(h[1], l.c), r.d), Add(Add(h[2], l.d), r.e), Add(Add(h[3], l.e), r.a), Add(Add(h[4], l.a), r.b),
     Add(Add(h[0], l.b), r.c)]
  }

  /** The chaining words after a block. */
  function Compress(h: Chain, X: seq<Word>): Chain
    requires |X| == 16
  {
    var l := Line(h[0], h[1], h[2], h[3], h[4]);
    Mixed(h, Left(l, X, |RL|), Right(l, X, |RR|))
  }

  lemma LeftStep(l: Line, X: seq<Word>, r: nat)
    requires |X| == 16 && r < 5
    ensures |RL| == |SL| == |KL| == 5 && Row(RL[r], 16) && Row(SL[r], 16)
    ensures Left(l, X, 0) == l && Left(l, X, r + 1) == Round(Left(l, X, r), r + 1, X, RL[r], SL[r], KL[r])
  {
    LeftTables();
  }

  lemma RightStep(l: Line, X: seq<Word>, r: nat)
    requires |X| == 16 && r < 5
    ensures |RR| == |SR| == |KR| == 5 && Row(RR[r], 16) && Row(SR[r], 16)
    ensures Right(l, X, 0) == l && Right(l, X, r + 1) == Round(Right(l, X, r), 5 - r, X, RR[r], SR[r], KR[r])
  {
    RightTables();
  }

  method RunLines(l0: Line, X: seq<Word>) returns (l: Line, r: Line)
    requires |X| == 16
    ensures |RL| == |RR| == 5 && l == Left(l0, X, |RL|) && r == Right(l0, X, |RR|)
  {
    l, r := l0, l0;
    LeftStep(l0, X, 0);
    RightStep(l0, X, 0);
    var round: nat := 0;
    while round < |RL|
      invariant round <= |RL| && l == Left(l0, X, round) && r == Right(l0, X, round)
    {
      LeftStep(l0, X, round);
      RightStep(l0, X, round);
      l := RunRound(l, round + 1, X, RL[round], SL[round], KL[round]);
      r := RunRound(r, 5 - round, X, RR[round], SR[round], KR[round]);
      round := round + 1;
    }
  }

  /** ripemd160_compress on the chaining words. */
  method CompressChain(h: array<Word>, X: seq<Word>)
    requires h.Length == 5 && |X| == 16
    modifies h
    ensures h[..] == Compress(old(h[..]), X)
  {
    ghost var H := h[..];
    var l, r := RunLines(Line(h[0], h[1], h[2], h[3], h[4]), X);
    var t := Add(Add(h[1], l.c), r.d);
    h[1] := Add(Add(h[2], l.d), r.e);
    h[2] := Add(Add(h[3], l.e), r.a);
    h[3] := Add(Add(h[4], l.a), r.b);
    h[4] := Add(Add(h[0], l.b), r.c);
    h[0] := t;
    assert h[..] == Mixed(H, l, r);
  }
}
