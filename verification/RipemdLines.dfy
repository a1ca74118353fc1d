/** What the steps of RIPEMD-160 do to the bits of words, and that no step loses anything of its line. */
module RipemdLines {
  import opened Powers
  import opened Bits
  import opened MpzBits
  import opened ByteLanes
  import opened RipemdBlock
  import L = Lanes

  // --- the Boolean functions ---

  predicate MixBits(n: nat, x: bool, y: bool, z: bool) {
    if n == 1 then x != (y != z)
    else if n == 2 then if x then y else z
    else if n == 3 then (y ==> x) != z
    else if n == 4 then if z then x else y
    else x != (z ==> y)
  }

  lemma OpBit(op: BitOp, x: Word, y: Word, i: nat)
    ensures Bit(Op(op, x, y), i) == op.Apply(Bit(x, i), Bit(y, i))
  {
    BitwiseBit(op, x, y, i);
  }

  lemma NotBit(x: Word, i: nat)
    requires i < 32
    ensures Bit(Not(x), i) == !Bit(x, i)
  {
    Pow2Values();
    L.OnesBit(32, i);
    BitwiseBit(Xor, x, W - 1, i);
  }

  lemma Choice(x: Word, y: Word, z: Word, i: nat)
    requires i < 32
    ensures Bit(Op(Or, Op(And, x, y), Op(And, Not(x), z)), i) == if Bit(x, i) then Bit(y, i) else Bit(z, i)
  {
    OpBit(Or, Op(And, x, y), Op(And, Not(x), z), i);
    OpBit(And, x, y, i);
    OpBit(And, Not(x), z, i);
    NotBit(x, i);
  }

  lemma SwappedChoice(x: Word, y: Word, z: Word, i: nat)
    requires i < 32
    ensures Bit(Op(Or, Op(And, x, z), Op(And, y, Not(z))), i) == if Bit(z, i) then Bit(x, i) else Bit(y, i)
  {
    OpBit(Or, Op(And, x, z), Op(And, y, Not(z)), i);
    OpBit(And, x, z, i);
    OpBit(And, y, Not(z), i);
    NotBit(z, i);
  }

  lemma OrNotBit(x: Word, y: Word, i: nat)
    requires i < 32
    ensures Bit(Op(Or, x, Not(y)), i) == (Bit(y, i) ==> Bit(x, i))
  {
    OpBit(Or, x, Not(y), i);
    NotBit(y, i);
  }

  /** F1 to F5 work on each bit by itself: parity, choice by x, (x or not y) xor z, choice by z and x xor
      (y or not z). */
  lemma MixBit(n: nat, x: Word, y: Word, z: Word, i: nat)
    requires i < 32
    ensures Bit(Mix(n, x, y, z), i) == MixBits(n, Bit(x, i), Bit(y, i), Bit(z, i))
  {
    if n == 1 {
      OpBit(Xor, Op(Xor, x, y), z, i);
      OpBit(Xor, x, y, i);
    } else if n == 2 {
      Choice(x, y, z, i);
    } else if n == 3 {
      OpBit(Xor, Op(Or, x, Not(y)), z, i);
      OrNotBit(x, y, i);
    } else if n == 4 {
      SwappedChoice(x, y, z, i);
    } else {
      OpBit(Xor, x, Op(Or, y, Not(z)), i);
      OrNotBit(y, z, i);
    }
  }

  // --- rotation ---

  lemma LowWord(y: nat, i: nat)
    requires i < 32
    ensures Bit(y % W, i) == Bit(y, i)
  {
    Pow2Values();
    BitBelow(y % W, y / W, 32, i);
    assert y == y % W + y / W * W;
  }

  lemma HighPart(s: nat, x: Word, i: nat)
    requires s < 32
    ensures 0 < Pow2(s) && Bit(x / Pow2(s), i) == (s + i < 32 && Bit(x, s + i))
  {
    Pow2Values();
    BitShifted(x, s, i);
    if 32 <= s + i {
      BitAbove(x, 32, s + i);
    }
  }

  /** A word turned by s has bit i - s, modulo 32, at i. */
  lemma RolBit(s: nat, x: Word, i: nat)
    requires 0 < s < 32 && i < 32
    ensures Bit(Rol(s, x), i) == Bit(x, if s <= i then i - s else 32 - s + i)
  {
    PowPositive(2, s);
    HighPart(32 - s, x, i);
    LowWord(x * Pow2(s), i);
    L.ScaledBit(x, s, i);
    OpBit(Or, x * Pow2(s) % W, x / Pow2(32 - s), i);
  }

  lemma RolBack(s: nat, x: Word)
    requires 0 < s < 32
    ensures Rol(32 - s, Rol(s, x)) == x
  {
    forall i: nat | i < 32 ensures Bit(Rol(32 - s, Rol(s, x)), i) == Bit(x, i) {
      RolBit(32 - s, Rol(s, x), i);
      RolBit(s, x, if 32 - s <= i then i - (32 - s) else s + i);
    }
    Pow2Values();
    EqualBits(Rol(32 - s, Rol(s, x)), x, 32);
  }

  // --- a step has an inverse ---

  function Sub(x: Word, y: Word): Word {
    (x - y) % W
  }

  lemma AddBack(x: Word, y: Word)
    ensures Sub(Add(x, y), y) == x && Add(Sub(x, y), y) == x
  {
  }

  function Unstep(m: Line, n: nat, x: Word, k: Word, s: nat): Line
    requires 0 < s < 32
  {
    var c := Rol(22, m.d);
    Line(Sub(Sub(Sub(Rol(32 - s, Sub(m.b, m.a)), k), x), Mix(n, m.c, c, m.e)), m.c, c, m.e, m.a)
  }

  lemma UnstepStep(l: Line, n: nat, x: Word, k: Word, s: nat)
    requires 0 < s < 16
    ensures Unstep(Step(l, n, x, k, s), n, x, k, s) == l
  {
    var f := Mix(n, l.b, l.c, l.d);
    var u := Add(Add(Add(l.a, f), x), k);
    AddBack(Rol(s, u), l.e);
    RolBack(s, u);
    RolBack(10, l.c);
    AddBack(Add(Add(l.a, f), x), k);
    AddBack(Add(l.a, f), x);
    AddBack(l.a, f);
  }

  lemma StepUnstep(m: Line, n: nat, x: Word, k: Word, s: nat)
    requires 0 < s < 16
    ensures Step(Unstep(m, n, x, k, s), n, x, k, s) == m
  {
    var c := Rol(22, m.d);
    var f := Mix(n, m.c, c, m.e);
    var u := Rol(32 - s, Sub(m.b, m.a));
    AddBack(m.b, m.a);
    RolBack(32 - s, Sub(m.b, m.a));
    RolBack(22, m.d);
    AddBack(u, k);
    AddBack(Sub(u, k), x);
    AddBack(Sub(Sub(u, k), x), f);
  }

  ghost predicate Shifts(row: seq<nat>) {
    Row(row, 16) && forall i :: 0 <= i < 16 ==> 0 < row[i]
  }

  /** For fixed message words exactly one line leads to m. */
  lemma {:induction false} StepsInvert(m: Line, n: nat, X: seq<Word>, row: seq<nat>, shifts: seq<nat>, k: Word, w: nat)
    returns (l: Line)
    requires |X| == 16 && Row(row, 16) && Shifts(shifts) && w <= 16
    ensures forall l': Line :: Steps(l', n, X, row, shifts, k, w) == m <==> l' == l
    decreases w
  {
    if w == 0 {
      l := m;
      forall l': Line ensures Steps(l', n, X, row, shifts, k, 0) == l' {
        OneMoreStep(l', n, X, row, shifts, k, 0);
      }
    } else {
      var v := w - 1;
      var before := Unstep(m, n, X[row[v]], k, shifts[v]);
      l := StepsInvert(before, n, X, row, shifts, k, v);
      forall l': Line
        ensures Steps(l', n, X, row, shifts, k, w) == m <==> Steps(l', n, X, row, shifts, k, v) == before
      {
        var y := Steps(l', n, X, row, shifts, k, v);
        OneMoreStep(l', n, X, row, shifts, k, v);
        UnstepStep(y, n, X[row[v]], k, shifts[v]);
        StepUnstep(m, n, X[row[v]], k, shifts[v]);
      }
    }
  }

  lemma LeftShifts(r: nat)
    requires r < 5
    ensures |SL| == 5 && Shifts(SL[r])
  {
  }

  lemma RightShifts(r: nat)
    requires r < 5
    ensures |SR| == 5 && Shifts(SR[r])
  {
  }

  /** The left line is a bijection of its five words for every block: exactly one start leads to m. */
  lemma {:induction false} LeftInvert(m: Line, X: seq<Word>, r: nat) returns (l: Line)
    requires |X| == 16 && r <= 5
    ensures forall l': Line :: Left(l', X, r) == m <==> l' == l
    decreases r
  {
    if r == 0 {
      l := m;
    } else {
      var q := r - 1;
      LeftStep(m, X, q);
      LeftShifts(q);
      var before := StepsInvert(m, r, X, RL[q], SL[q], KL[q], |RL[q]|);
      l := LeftInvert(before, X, q);
      forall l': Line ensures Left(l', X, r) == m <==> Left(l', X, q) == before {
        LeftStep(l', X, q);
      }
    }
  }

  lemma {:induction false} RightInvert(m: Line, X: seq<Word>, r: nat) returns (l: Line)
    requires |X| == 16 && r <= 5
    ensures forall l': Line :: Right(l', X, r) == m <==> l' == l
    decreases r
  {
    if r == 0 {
      l := m;
    } else {
      var q := r - 1;
      RightStep(m, X, q);
      RightShifts(q);
      var before := StepsInvert(m, 6 - r, X, RR[q], SR[q], KR[q], |RR[q]|);
      l := RightInvert(before, X, q);
      forall l': Line ensures Right(l', X, r) == m <==> Right(l', X, q) == before {
        RightStep(l', X, q);
      }
    }
  }

  // --- the constants ---

  predicate SquareRoot(k: int, x: int) {
    k * k <= x * 0x1000_0000_0000_0000 < (k + 1) * (k + 1)
  }

  predicate CubeRoot(k: int, x: int) {
    k * k * k <= x * 0x400_0000_0000_0000_0000_0000 < (k + 1) * (k + 1) * (k + 1)
  }

  /** The constants are 2^30 times the square roots and cube roots of 2, 3, 5 and 7, rounded down. */
  lemma ConstantsAreRoots()
    ensures |KL| == |KR| == 5 && KL[0] == KR[4] == 0
    ensures SquareRoot(KL[1], 2) && SquareRoot(KL[2], 3) && SquareRoot(KL[3], 5) && SquareRoot(KL[4], 7)
    ensures CubeRoot(KR[0], 2) && CubeRoot(KR[1], 3) && CubeRoot(KR[2], 5) && CubeRoot(KR[3], 7)
    ensures 0x1000_0000_0000_0000 == Pow2(60) && 0x400_0000_0000_0000_0000_0000 == Pow2(90)
  {
    Pow2Values();
    PowAdd(2, 30, 30);
    PowAdd(2, 60, 30);
    PowAdd(2, 30, 2);
    assert PowRec(2, 2) == 4;
  }

  // --- every word of the block is taken once in a round ---

  ghost predicate Permutes(row: seq<nat>) {
    Row(row, 16) && forall j :: 0 <= j < 16 ==> j in row
  }

  function RhoBack(j: nat): nat {
    if j == 7 then 0 else if j == 4 then 1 else if j == 13 then 2 else if j == 1 then 3 else if j == 10 then 4 else
    if j == 6 then 5 else if j == 15 then 6 else if j == 3 then 7 else if j == 12 then 8 else if j == 0 then 9 else
    if j == 9 then 10 else if j == 5 then 11 else if j == 2 then 12 else if j == 14 then 13 else
    if j == 11 then 14 else 15
  }

  lemma RhoOnto(j: nat)
    requires j < 16
    ensures RhoBack(j) < 16 && Rho(RhoBack(j)) == j
  {
  }

  lemma RhoBound(i: nat)
    ensures Rho(i) < 16
  {
  }

  lemma AfterRhoAt(row: seq<nat>, p: nat)
    requires |row| == 16 && p < 16
    ensures |AfterRho(row)| == 16 && AfterRho(row)[p] == Rho(row[p])
  {
  }

  lemma AfterRhoHas(row: seq<nat>, j: nat)
    requires Permutes(row) && j < 16
    ensures j in AfterRho(row)
  {
    RhoOnto(j);
    assert RhoBack(j) in row;
    var p :| 0 <= p < 16 && row[p] == RhoBack(j);
    AfterRhoAt(row, p);
  }

  lemma AfterRhoPermutes(row: seq<nat>, next: seq<nat>)
    requires Permutes(row) && next == AfterRho(row)
    ensures Permutes(next)
  {
    forall j: nat | j < 16 ensures j in next {
      AfterRhoHas(row, j);
    }
    forall p: nat | p < 16 ensures |next| == 16 && next[p] < 16 {
      AfterRhoAt(row, p);
      RhoBound(row[p]);
    }
    AfterRhoAt(row, 0);
  }

  lemma PiPermutes(row: seq<nat>)
    requires |row| == 16 && forall i :: 0 <= i < 16 ==> row[i] == (9 * i + 5) % 16
    ensures Permutes(row)
  {
    forall j: nat | j < 16 ensures j in row {
      PiOnto(j);
      assert row[9 * (j + 11) % 16] == j;
    }
  }

  lemma PiOnto(j: int)
    requires 0 <= j < 16
    ensures (9 * (9 * (j + 11) % 16) + 5) % 16 == j
  {
  }

  /** Both lines take every word of the block exactly once in each round. */
  lemma RowsPermute(r: nat)
    requires r < 5
    ensures |RL| == |RR| == 5 && Permutes(RL[r]) && Permutes(RR[r])
  {
    LeftOrder();
    RightOrder();
    if r == 0 {
      PiPermutes(RR[0]);
    } else {
      RowsPermute(r - 1);
      AfterRhoPermutes(RL[r - 1], RL[r]);
      AfterRhoPermutes(RR[r - 1], RR[r]);
    }
  }
}
