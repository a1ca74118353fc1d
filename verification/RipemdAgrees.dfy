/** The compression function in code is the one of the definition. */
module RipemdAgrees {
  import opened Arith
  import opened Powers
  import opened Bits
  import opened ByteLanes
  import opened RipemdBlock
  import opened RipemdLines
  import S = RipemdSpec

  // --- words by their bits ---

  lemma {:induction false} NumberBit(s: seq<bool>, i: nat)
    requires i < |s|
    ensures Bit(S.Number(s), i) == s[i]
    decreases |s|
  {
    BitHalf(S.Number(s), 0);
    if i > 0 {
      NumberBit(s[1..], i - 1);
      BitHalf(S.Number(s), i - 1);
    }
  }

  lemma {:induction false} NumberBound(s: seq<bool>)
    ensures S.Number(s) < Pow2(|s|)
    decreases |s|
  {
    PowStep(2, 0);
    if s != [] {
      NumberBound(s[1..]);
      PowStep(2, |s| - 1);
    }
  }

  lemma NumberIs(s: seq<bool>, x: Word)
    requires |s| == 32 && forall i: nat :: i < 32 ==> Bit(x, i) == s[i]
    ensures S.Number(s) == x
  {
    Pow2Values();
    NumberBound(s);
    forall i: nat | i < 32 ensures Bit(S.Number(s), i) == Bit(x, i) {
      NumberBit(s, i);
    }
    EqualBits(S.Number(s), x, 32);
  }

  lemma FAgrees(n: nat, j: nat, x: Word, y: Word, z: Word)
    requires 1 <= n <= 5 && j / 16 == n - 1
    ensures S.F(j, x, y, z) == Mix(n, x, y, z)
  {
    var s := seq(32, i requires 0 <= i => S.FBit(j, Bit(x, i), Bit(y, i), Bit(z, i)));
    forall i: nat | i < 32 ensures Bit(Mix(n, x, y, z), i) == s[i] {
      MixBit(n, x, y, z, i);
    }
    NumberIs(s, Mix(n, x, y, z));
  }

  lemma TurnAgrees(s: nat, x: Word)
    requires 0 < s < 32
    ensures S.Turn(s, x) == Rol(s, x)
  {
    var b := seq(32, i => Bit(x, (i - s) % 32));
    forall i: nat | i < 32 ensures Bit(Rol(s, x), i) == b[i] {
      RolBit(s, x, i);
    }
    NumberIs(b, Rol(s, x));
  }

  // --- tables ---

  lemma RhoAgrees(i: nat)
    requires i < 16
    ensures S.Rho(i) == Rho(i)
  {
  }

  lemma {:induction false} LeftOrderAgrees(r: nat, w: nat)
    requires r < 5 && w < 16
    ensures |RL| == 5 && Row(RL[r], 16) && RL[r][w] == S.RhoPower(r, w)
    decreases r
  {
    LeftTables();
    LeftOrder();
    if r > 0 {
      LeftOrderAgrees(r - 1, w);
      AfterRhoAt(RL[r - 1], w);
      RhoAgrees(RL[r - 1][w]);
    }
  }

  lemma {:induction false} RightOrderAgrees(r: nat, w: nat)
    requires r < 5 && w < 16
    ensures |RR| == 5 && Row(RR[r], 16) && RR[r][w] == S.RhoPower(r, S.Pi(w))
    decreases r
  {
    RightTables();
    RightOrder();
    if r > 0 {
      RightOrderAgrees(r - 1, w);
      AfterRhoAt(RR[r - 1], w);
      RhoAgrees(RR[r - 1][w]);
    }
  }

  /** The entries of t at the places of the row. */
  function Picked(t: seq<nat>, row: seq<nat>): seq<nat>
    requires Row(row, 16) && |t| == 16
  {
    [t[row[0]], t[row[1]], t[row[2]], t[row[3]], t[row[4]], t[row[5]], t[row[6]], t[row[7]],
     t[row[8]], t[row[9]], t[row[10]], t[row[11]], t[row[12]], t[row[13]], t[row[14]], t[row[15]]]
  }

  lemma PickedAt(t: seq<nat>, row: seq<nat>, w: nat)
    requires Row(row, 16) && |t| == 16 && w < 16
    ensures Picked(t, row)[w] == t[row[w]]
  {
  }

  lemma LeftPicked()
    ensures |RL| == |SL| == |S.SHIFTS| == 5
    ensures forall r :: 0 <= r < 5 ==> Row(RL[r], 16) && |S.SHIFTS[r]| == 16 && SL[r] == Picked(S.SHIFTS[r], RL[r])
  {
  }

  lemma RightPicked()
    ensures |RR| == |SR| == |S.SHIFTS| == 5
    ensures forall r :: 0 <= r < 5 ==> Row(RR[r], 16) && |S.SHIFTS[r]| == 16 && SR[r] == Picked(S.SHIFTS[r], RR[r])
  {
  }

  /** The shift of a word in a round does not depend on the line that takes it. */
  lemma ShiftsAgree(r: nat, w: nat)
    requires r < 5 && w < 16
    ensures |RL| == |SL| == |RR| == |SR| == 5 && Row(RL[r], 16) && Row(RR[r], 16) && |SL[r]| == |SR[r]| == 16
    ensures SL[r][w] == S.Shift(r, RL[r][w]) && SR[r][w] == S.Shift(r, RR[r][w])
  {
    LeftPicked();
    RightPicked();
    PickedAt(S.SHIFTS[r], RL[r], w);
    PickedAt(S.SHIFTS[r], RR[r], w);
  }

  lemma SquareConstant(k: nat, x: nat)
    requires SquareRoot(k, x)
    ensures S.ScaledRoot(x, 2) == k
  {
    ConstantsAreRoots();
    PowStep(k, 1);
    PowStep(k + 1, 1);
    FloorRootUnique(S.ScaledRoot(x, 2), k, x * Pow2(60), 2);
  }

  lemma CubeConstant(k: nat, x: nat)
    requires CubeRoot(k, x)
    ensures S.ScaledRoot(x, 3) == k
  {
    ConstantsAreRoots();
    CubeIs(k);
    CubeIs(k + 1);
    FloorRootUnique(S.ScaledRoot(x, 3), k, x * Pow2(90), 3);
  }

  lemma CubeIs(k: nat)
    ensures Pow(k, 3) == k * k * k
  {
    PowStep(k, 1);
    PowStep(k, 2);
    Assoc(k, k, k);
  }

  lemma ConstantsAgree(r: nat, j: nat)
    requires r < 5 && j / 16 == r
    ensures |KL| == |KR| == 5 && S.K(j) == KL[r] && S.K'(j) == KR[r]
  {
    ConstantsAreRoots();
    SquareConstant(KL[1], 2);
    SquareConstant(KL[2], 3);
    SquareConstant(KL[3], 5);
    SquareConstant(KL[4], 7);
    CubeConstant(KR[0], 2);
    CubeConstant(KR[1], 3);
    CubeConstant(KR[2], 5);
    CubeConstant(KR[3], 7);
  }

  // --- the two lines ---

  function Five(l: Line): S.Five {
    S.Five(l.a, l.b, l.c, l.d, l.e)
  }

  lemma Sums(a: int, f: int, x: int, k: int)
    ensures (((a + f) % W + x) % W + k) % W == (a + f + x + k) % W
  {
  }

  lemma StepAgrees(l: Line, n: nat, j: nat, x: Word, k: Word, s: nat)
    requires 1 <= n <= 5 && j / 16 == n - 1 && 0 < s < 16
    ensures Five(Step(l, n, x, k, s)) == S.Step(Five(l), j, x, k, s)
  {
    var f := Mix(n, l.b, l.c, l.d);
    FAgrees(n, j, l.b, l.c, l.d);
    Sums(l.a, f, x, k);
    TurnAgrees(s, Add(Add(Add(l.a, f), x), k));
    TurnAgrees(10, l.c);
  }

  lemma StepIndex(r: nat, w: nat, j: nat)
    requires r < 5 && w < 16 && j == 16 * r + w
    ensures j < 80 && j / 16 == r && j % 16 == w && (79 - j) / 16 == 4 - r
  {
  }

  lemma LeftNext(l: S.Five, X: seq<Word>, j: nat)
    requires |X| == 16 && j < 80
    ensures S.Left(l, X, j + 1) == S.Step(S.Left(l, X, j), j, X[S.R(j)], S.K(j), S.Shift(j / 16, S.R(j)))
  {
  }

  lemma RightNext(l: S.Five, X: seq<Word>, j: nat)
    requires |X| == 16 && j < 80
    ensures S.Right(l, X, j + 1) ==
            S.Step(S.Right(l, X, j), 79 - j, X[S.R'(j)], S.K'(j), S.Shift(j / 16, S.R'(j)))
  {
  }

  /** Step j = 16 r + v of the left line. */
  lemma LeftNextAgrees(m: Line, l: S.Five, X: seq<Word>, r: nat, v: nat, j: nat)
    requires |X| == 16 && r < 5 && v < 16 && j == 16 * r + v && Five(m) == S.Left(l, X, j)
    ensures |RL| == |SL| == |KL| == 5 && Row(RL[r], 16) && Row(SL[r], 16)
    ensures Five(Step(m, r + 1, X[RL[r][v]], KL[r], SL[r][v])) == S.Left(l, X, j + 1)
  {
    StepIndex(r, v, j);
    LeftTables();
    LeftOrderAgrees(r, v);
    ShiftsAgree(r, v);
    LeftShifts(r);
    ConstantsAgree(r, j);
    StepAgrees(m, r + 1, j, X[RL[r][v]], KL[r], SL[r][v]);
    LeftNext(l, X, j);
  }

  lemma RightNextAgrees(m: Line, l: S.Five, X: seq<Word>, n: nat, r: nat, v: nat, j: nat)
    requires |X| == 16 && r < 5 && n == 5 - r && v < 16 && j == 16 * r + v && Five(m) == S.Right(l, X, j)
    ensures |RR| == |SR| == |KR| == 5 && Row(RR[r], 16) && Row(SR[r], 16)
    ensures Five(Step(m, n, X[RR[r][v]], KR[r], SR[r][v])) == S.Right(l, X, j + 1)
  {
    StepIndex(r, v, j);
    RightTables();
    RightOrderAgrees(r, v);
    ShiftsAgree(r, v);
    RightShifts(r);
    ConstantsAgree(r, j);
    StepAgrees(m, n, 79 - j, X[RR[r][v]], KR[r], SR[r][v]);
    RightNext(l, X, j);
  }

  lemma {:induction false} LeftRound(m: Line, l: S.Five, X: seq<Word>, r: nat, w: nat, j: nat)
    requires |X| == 16 && r < 5 && w <= 16 && j == 16 * r && Five(m) == S.Left(l, X, j)
    ensures |RL| == |SL| == |KL| == 5 && Row(RL[r], 16) && Row(SL[r], 16) && j + w <= 80
    ensures Five(Steps(m, r + 1, X, RL[r], SL[r], KL[r], w)) == S.Left(l, X, j + w)
    decreases w
  {
    LeftTables();
    OneMoreStep(m, r + 1, X, RL[r], SL[r], KL[r], if w == 0 then 0 else w - 1);
    if w > 0 {
      LeftRound(m, l, X, r, w - 1, j);
      LeftNextAgrees(Steps(m, r + 1, X, RL[r], SL[r], KL[r], w - 1), l, X, r, w - 1, j + (w - 1));
    }
  }

  lemma {:induction false} RightRound(m: Line, l: S.Five, X: seq<Word>, n: nat, r: nat, w: nat, j: nat)
    requires |X| == 16 && r < 5 && n == 5 - r && w <= 16 && j == 16 * r && Five(m) == S.Right(l, X, j)
    ensures |RR| == |SR| == |KR| == 5 && Row(RR[r], 16) && Row(SR[r], 16) && j + w <= 80
    ensures Five(Steps(m, n, X, RR[r], SR[r], KR[r], w)) == S.Right(l, X, j + w)
    decreases w
  {
    RightTables();
    OneMoreStep(m, n, X, RR[r], SR[r], KR[r], if w == 0 then 0 else w - 1);
    if w > 0 {
      RightRound(m, l, X, n, r, w - 1, j);
      RightNextAgrees(Steps(m, n, X, RR[r], SR[r], KR[r], w - 1), l, X, n, r, w - 1, j + (w - 1));
    }
  }

  lemma NoSteps(l: S.Five, X: seq<Word>)
    requires |X| == 16
    ensures S.Left(l, X, 0) == l && S.Right(l, X, 0) == l
  {
  }

  lemma {:induction false} LeftAgrees(l: Line, X: seq<Word>, r: nat, j: nat)
    requires |X| == 16 && r <= 5 && j == 16 * r
    ensures Five(Left(l, X, r)) == S.Left(Five(l), X, j)
    decreases r
  {
    if r == 0 {
      NoSteps(Five(l), X);
    } else {
      LeftAgrees(l, X, r - 1, j - 16);
      LeftStep(l, X, r - 1);
      LeftRound(Left(l, X, r - 1), Five(l), X, r - 1, |RL[r - 1]|, j - 16);
    }
  }

  lemma {:induction false} RightAgrees(l: Line, X: seq<Word>, r: nat, j: nat)
    requires |X| == 16 && r <= 5 && j == 16 * r
    ensures Five(Right(l, X, r)) == S.Right(Five(l), X, j)
    decreases r
  {
    if r == 0 {
      NoSteps(Five(l), X);
    } else {
      RightAgrees(l, X, r - 1, j - 16);
      RightStep(l, X, r - 1);
      RightRound(Right(l, X, r - 1), Five(l), X, 5 - (r - 1), r - 1, |RR[r - 1]|, j - 16);
    }
  }

  lemma TwoSums(x: Word, y: Word, z: Word)
    ensures Add(Add(x, y), z) == (x + y + z) % S.M32
  {
  }

  lemma MixedAgrees(h: Chain, l: Line, r: Line)
    ensures Mixed(h, l, r) == S.Mixed(h, Five(l), Five(r))
  {
    TwoSums(h[1], l.c, r.d);
    TwoSums(h[2], l.d, r.e);
    TwoSums(h[3], l.e, r.a);
    TwoSums(h[4], l.a, r.b);
    TwoSums(h[0], l.b, r.c);
  }

  /** The chaining words after a block are those of the definition. */
  lemma CompressAgrees(h: Chain, X: seq<Word>)
    requires |X| == 16
    ensures Compress(h, X) == S.Compression(h, X)
  {
    LeftTables();
    RightTables();
    var l := Line(h[0], h[1], h[2], h[3], h[4]);
    LeftAgrees(l, X, |RL|, 80);
    RightAgrees(l, X, |RR|, 80);
    MixedAgrees(h, Left(l, X, |RL|), Right(l, X, |RR|));
  }
}
