/** The lane-wise permutation computes the bit-wise one of FIPS 202. */
module KeccakFips {
  import opened Powers
  import opened Limbs
  import opened Bits
  import opened Lanes
  import opened Keccak
  import F = Fips202

  /** Bit z of lane x + 5y is A[x, y, z]. */
  ghost predicate BitAgrees(s: State, A: F.StateArray, x: nat, y: nat, z: nat)
    requires x < 5 && y < 5
  {
    A(x, y, z) == Bit(s[x + 5 * y], z)
  }

  /** The lanes hold the bits of the state array. */
  ghost predicate Agrees(s: State, A: F.StateArray) {
    forall x: nat, y: nat, z: nat {:trigger BitAgrees(s, A, x, y, z)} :: x < 5 && y < 5 && z < 64 ==>
      BitAgrees(s, A, x, y, z)
  }

  lemma LaneIndex(x: int, y: int, k: int)
    requires 0 <= x < 5 && 0 <= y < 5 && k == x + 5 * y
    ensures 0 <= k < 25 && k % 5 == x && k / 5 == y
  {
  }

  lemma BitOf(s: State, A: F.StateArray, x: nat, y: nat, k: int, z: nat)
    requires Agrees(s, A) && x < 5 && y < 5 && z < 64 && k == x + 5 * y
    ensures 0 <= k < 25 && A(x, y, z) == Bit(s[k], z)
  {
    assert BitAgrees(s, A, x, y, z);
  }

  // --- theta ---

  lemma ColumnBit(s: State, A: F.StateArray, x: nat, z: nat)
    requires Agrees(s, A) && x < 5 && z < 64
    ensures Bit(Column(s, x), z) == F.C(A, x, z)
  {
    var a := XorL(s[x], s[x + 5]);
    var b := XorL(a, s[x + 10]);
    var c := XorL(b, s[x + 15]);
    LaneBit(Xor, s[x], s[x + 5], z);
    LaneBit(Xor, a, s[x + 10], z);
    LaneBit(Xor, b, s[x + 15], z);
    LaneBit(Xor, c, s[x + 20], z);
    BitOf(s, A, x, 0, x, z);
    BitOf(s, A, x, 1, x + 5, z);
    BitOf(s, A, x, 2, x + 10, z);
    BitOf(s, A, x, 3, x + 15, z);
    BitOf(s, A, x, 4, x + 20, z);
  }

  lemma MixBit(s: State, A: F.StateArray, x: nat, z: nat)
    requires Agrees(s, A) && x < 5 && z < 64
    ensures Bit(Mix(Columns(s), x), z) == F.D(A, x, z)
  {
    var c, d := Column(s, (x + 4) % 5), Column(s, (x + 1) % 5);
    assert (x - 1) % 5 == (x + 4) % 5;
    ColumnBit(s, A, (x + 4) % 5, z);
    ColumnBit(s, A, (x + 1) % 5, (z - 1) % 64);
    RotlBit(d, 1, z);
    LaneBit(Xor, c, Rotl(d, 1), z);
    assert Columns(s)[(x + 4) % 5] == c && Columns(s)[(x + 1) % 5] == d;
  }

  lemma ThetaBit(s: State, A: F.StateArray, T: State, k: nat, x: nat, y: nat, z: nat)
    requires Agrees(s, A) && Mixed(s, Columns(s), T) && x < 5 && y < 5 && z < 64 && k == x + 5 * y
    ensures F.Theta(A)(x, y, z) == Bit(T[k], z)
  {
    LaneIndex(x, y, k);
    BitOf(s, A, x, y, k, z);
    MixBit(s, A, x, z);
    LaneBit(Xor, s[k], Mix(Columns(s), x), z);
  }

  lemma ThetaAgrees(s: State, A: F.StateArray)
    requires Agrees(s, A)
    ensures Agrees(Theta(s), F.Theta(A))
  {
    forall x: nat, y: nat, z: nat | x < 5 && y < 5 && z < 64 ensures BitAgrees(Theta(s), F.Theta(A), x, y, z) {
      ThetaBit(s, A, Theta(s), x + 5 * y, x, y, z);
    }
  }

  // --- rho and pi ---

  lemma WalkTable()
    ensures |PILN| == 24
    ensures forall i {:trigger Source(PILN, i)} :: 0 <= i < 24 ==>
              var p := Source(PILN, i);
              p < 25 && PILN[i] == p / 5 + 5 * ((p % 5 + p % 5 + p / 5 + p / 5 + p / 5) % 5)
  {
  }

  lemma WalkNext(i: nat, p: nat)
    requires i < 24 && |PILN| == 24 && p == Source(PILN, i)
    ensures PILN[i] == p / 5 + 5 * ((p % 5 + p % 5 + p / 5 + p / 5 + p / 5) % 5)
  {
    WalkTable();
  }

  lemma WalkStep(t: nat)
    ensures F.Walk(0) == (1, 0) && F.Walk(t + 1) == F.Next(F.Walk(t))
  {
  }

  lemma NextPosition(x: int, y: int, p: nat, i: nat)
    requires 0 <= x < 5 && 0 <= y < 5 && p == x + 5 * y && i < 24 && |PILN| == 24 && p == Source(PILN, i)
    ensures var (x', y') := F.Next((x, y)); 0 <= x' < 5 && 0 <= y' < 5 && x' + 5 * y' == PILN[i]
  {
    LaneIndex(x, y, p);
    WalkNext(i, p);
  }

  lemma PositionCount()
    ensures |PILN| == 24 && |ROTC| == 24
  {
  }

  /** The walk of algorithm 2 visits the lanes in the order of the position table. */
  lemma {:induction false} WalkIs(t: nat)
    requires t <= 24
    ensures |PILN| == 24 && 0 <= F.Walk(t).0 < 5 && 0 <= F.Walk(t).1 < 5
    ensures F.Walk(t).0 + 5 * F.Walk(t).1 == Source(PILN, t)
  {
    PositionCount();
    if t == 0 {
      WalkStep(0);
    } else {
      WalkIs(t - 1);
      WalkStep(t - 1);
      NextPosition(F.Walk(t - 1).0, F.Walk(t - 1).1, Source(PILN, t - 1), t - 1);
    }
  }

  lemma RotationTable()
    ensures |ROTC| == 24 && ROTC[0] == 1
    ensures forall t :: 0 <= t < 23 ==> ROTC[t + 1] == (ROTC[t] + t + 2) % 64
  {
  }

  lemma RotationNext(t: nat)
    requires t < 23
    ensures |ROTC| == 24 && ROTC[0] == 1 && ROTC[t + 1] == (ROTC[t] + t + 2) % 64
  {
    RotationTable();
  }

  lemma ModShift(a: int, b: int, c: int)
    requires a % 64 == b
    ensures (a + c) % 64 == (b + c) % 64
  {
  }

  lemma NextRotation(t: nat, a: int)
    requires t < 23 && |ROTC| == 24 && a % 64 == ROTC[t]
    ensures (a + t + 2) % 64 == ROTC[t + 1]
  {
    RotationNext(t);
    ModShift(a, ROTC[t], t + 2);
  }

  lemma OffsetStep(t: nat)
    ensures F.Offset(0) == 1 && F.Offset(t + 1) == F.Offset(t) + t + 2
  {
  }

  /** The rotation table holds the offsets modulo 64. */
  lemma {:induction false} OffsetIs(t: nat)
    requires t < 24
    ensures |ROTC| == 24 && F.Offset(t) % 64 == ROTC[t]
  {
    if t == 0 {
      RotationNext(0);
      OffsetStep(0);
    } else {
      OffsetIs(t - 1);
      OffsetStep(t - 1);
      NextRotation(t - 1, F.Offset(t - 1));
    }
  }

  lemma WalkDistinct(t: nat, u: nat)
    requires t < u < 24
    ensures F.Walk(t) != F.Walk(u)
  {
    WalkIs(t);
    WalkIs(u);
    SourcesDistinct(t, u);
  }

  lemma SourcesDistinct(t: nat, u: nat)
    requires t < u < 24
    ensures |PILN| == 24 && 1 <= Source(PILN, t) && Source(PILN, t) != Source(PILN, u)
  {
    Tables();
    LastIsFirst();
    assert Source(PILN, u) == PILN[u - 1];
    assert STEP[PILN[u - 1]] == u - 1;
    if t > 0 {
      assert STEP[PILN[t - 1]] == t - 1;
    }
  }

  lemma LastIsFirst()
    ensures |STEP| == 25 && STEP[1] == 23
  {
  }

  lemma RhoStep(A: F.StateArray, n: nat)
    ensures F.RhoSteps(A, 0) == A
    ensures F.RhoSteps(A, n + 1) == F.Rotate(F.RhoSteps(A, n), A, F.Walk(n), F.Offset(n))
  {
  }

  /** What rho does to the lane of step t. */
  lemma {:induction false} RhoAt(A: F.StateArray, n: nat, t: nat, x: int, y: int, z: int)
    requires t < n <= 24 && (x, y) == F.Walk(t)
    ensures F.RhoSteps(A, n)(x, y, z) == A(x, y, (z - F.Offset(t)) % 64)
  {
    var m := n - 1;
    RhoStep(A, m);
    if t < m {
      WalkDistinct(t, m);
      RhoAt(A, m, t, x, y, z);
    }
  }

  lemma WalkNotOrigin(t: nat)
    requires t < 24
    ensures F.Walk(t) != (0, 0)
  {
    WalkIs(t);
    Tables();
    if t > 0 {
      assert 1 <= PILN[t - 1];
    }
  }

  lemma {:induction false} RhoOrigin(A: F.StateArray, n: nat, z: int)
    requires n <= 24
    ensures F.RhoSteps(A, n)(0, 0, z) == A(0, 0, z)
  {
    if n > 0 {
      RhoStep(A, n - 1);
      WalkNotOrigin(n - 1);
      RhoOrigin(A, n - 1, z);
    } else {
      RhoStep(A, 0);
    }
  }

  ghost predicate StepRotates(A: F.StateArray, R: F.StateArray, t: nat) {
    var (x, y) := F.Walk(t);
    forall z {:trigger R(x, y, z)} :: R(x, y, z) == A(x, y, (z - F.Offset(t)) % 64)
  }

  ghost predicate OriginStays(A: F.StateArray, R: F.StateArray) {
    forall z :: R(0, 0, z) == A(0, 0, z)
  }

  /** What algorithm 2 does to every lane: lane (0, 0) stays, the lane of step t turns by the offset of that step. */
  ghost predicate Rotated(A: F.StateArray, R: F.StateArray) {
    OriginStays(A, R) && forall t: nat :: t < 24 ==> StepRotates(A, R, t)
  }

  lemma RhoStepRotates(A: F.StateArray, n: nat, t: nat)
    requires t < n <= 24
    ensures StepRotates(A, F.RhoSteps(A, n), t)
  {
    var R, x, y := F.RhoSteps(A, n), F.Walk(t).0, F.Walk(t).1;
    forall z ensures R(x, y, z) == A(x, y, (z - F.Offset(t)) % 64) {
      RhoAt(A, n, t, x, y, z);
    }
  }

  lemma RhoRotates(A: F.StateArray, n: nat)
    requires n == 24
    ensures Rotated(A, F.RhoSteps(A, n))
  {
    var R := F.RhoSteps(A, n);
    forall z ensures R(0, 0, z) == A(0, 0, z) {
      RhoOrigin(A, n, z);
    }
    forall t: nat | t < 24 ensures StepRotates(A, R, t) {
      RhoStepRotates(A, n, t);
    }
  }

  lemma WalkRange(t: nat)
    requires t <= 24
    ensures 0 <= F.Walk(t).0 < 5 && 0 <= F.Walk(t).1 < 5
  {
    WalkIs(t);
  }

  lemma PiSource(i: nat, x: int, y: int)
    requires i < 24 && F.Walk(i + 1) == (x, y)
    ensures F.Walk(i) == ((x + y + y + y) % 5, x)
  {
    WalkRange(i);
    WalkStep(i);
    var (u, v) := F.Walk(i);
    Backwards(u, v, y);
  }

  lemma Backwards(u: int, v: int, w: int)
    requires 0 <= u < 5 && w == (u + u + v + v + v) % 5
    ensures (v + w + w + w) % 5 == u
  {
  }

  lemma SameRotation(z: int, a: int, b: int)
    requires a % 64 == b
    ensures (z - a) % 64 == (z - b) % 64
  {
  }

  // The bit that a rotated lane takes in.
  lemma RotatedLane(s: State, A: F.StateArray, i: nat, u: int, v: int, p: nat, r: nat, z: nat)
    requires Agrees(s, A) && i < 24 && (u, v) == F.Walk(i) && 0 <= u < 5 && 0 <= v < 5 && p == u + 5 * v && z < 64
    requires 0 < r < 64 && F.Offset(i) % 64 == r
    ensures A(u, v, (z - F.Offset(i)) % 64) == Bit(Rotl(s[p], r), z)
  {
    RotlBit(s[p], r, z);
    SameRotation(z, F.Offset(i), r);
    BitOf(s, A, u, v, p, (z - r) % 64);
  }

  function Position(lane: (int, int)): int {
    lane.0 + 5 * lane.1
  }

  /** The lane that the walk reaches next in T is the one it is at in s, rotated by the offset of the step. */
  ghost predicate StepMoves(s: State, T: State, i: nat) {
    var p, k, r := Position(F.Walk(i)), Position(F.Walk(i + 1)), F.Offset(i) % 64;
    0 <= p < 25 && 0 <= k < 25 && 0 < r && T[k] == Rotl(s[p], r)
  }

  ghost predicate Moved(s: State, T: State) {
    T[0] == s[0] && forall i: nat :: i < 24 ==> StepMoves(s, T, i)
  }

  lemma StepMovesFrom(s: State, T: State, i: nat, p: nat, k: nat, r: nat)
    requires p == Position(F.Walk(i)) < 25 && k == Position(F.Walk(i + 1)) < 25 && 0 < r < 64 && F.Offset(i) % 64 == r
    requires T[k] == Rotl(s[p], r)
    ensures StepMoves(s, T, i)
  {
  }

  lemma TableMoves(s: State, T: State, i: nat)
    requires Cycle(PILN, ROTC, STEP) && Cycled(s, T, PILN, ROTC, STEP) && i < 24
    ensures StepMoves(s, T, i)
  {
    WalkIs(i);
    WalkIs(i + 1);
    OffsetIs(i);
    var p, k, r := Source(PILN, i), PILN[i], ROTC[i];
    if i > 0 {
      assert PILN[i - 1] < 25;
    }
    StepMovesFrom(s, T, i, p, k, r);
  }

  /** The tables are the walk and the offsets of algorithm 2. */
  lemma RhoPiMoves(s: State)
    ensures Moved(s, RhoPi(s))
  {
    Tables();
    var T := RhoPi(s);
    assert Cycled(s, T, PILN, ROTC, STEP);
    forall i: nat | i < 24 ensures StepMoves(s, T, i) {
      TableMoves(s, T, i);
    }
  }

  lemma SameLane(x: int, y: int, u: int, v: int)
    requires 0 <= x < 5 && 0 <= y < 5 && 0 <= u < 5 && 0 <= v < 5 && x + 5 * y == u + 5 * v
    ensures x == u && y == v
  {
  }

  lemma WalkCovers(x: nat, y: nat) returns (i: nat)
    requires x < 5 && y < 5 && 1 <= x + 5 * y
    ensures i < 24 && F.Walk(i + 1) == (x, y)
  {
    Tables();
    i := STEP[x + 5 * y];
    WalkIs(i + 1);
    assert PILN[i] == x + 5 * y;
    SameLane(F.Walk(i + 1).0, F.Walk(i + 1).1, x, y);
  }

  lemma MovedBit(s: State, A: F.StateArray, R: F.StateArray, t: Limb, i: nat, u: int, v: int, p: nat, r: nat, z: nat)
    requires Agrees(s, A) && StepRotates(A, R, i) && i < 24 && F.Walk(i) == (u, v) && 0 <= u < 5 && 0 <= v < 5
             && p == u + 5 * v
    requires 0 < r < 64 && F.Offset(i) % 64 == r && t == Rotl(s[p], r) && z < 64
    ensures R(u, v, z) == Bit(t, z)
  {
    RotatedLane(s, A, i, u, v, p, r, z);
  }

  lemma OriginBit(s: State, A: F.StateArray, R: F.StateArray, T: State, z: nat)
    requires Agrees(s, A) && OriginStays(A, R) && T[0] == s[0] && z < 64
    ensures R(0, 0, z) == Bit(T[0], z)
  {
    BitOf(s, A, 0, 0, 0, z);
  }

  lemma StepBit(s: State, A: F.StateArray, R: F.StateArray, T: State, i: nat, u: int, v: int, k: nat, z: nat)
    requires Agrees(s, A) && StepRotates(A, R, i) && StepMoves(s, T, i) && i < 24 && z < 64
    requires F.Walk(i) == (u, v) && k == Position(F.Walk(i + 1))
    ensures k < 25 && R(u, v, z) == Bit(T[k], z)
  {
    WalkIs(i);
    MovedBit(s, A, R, T[k], i, u, v, Position(F.Walk(i)), F.Offset(i) % 64, z);
  }

  lemma RhoPiBit(s: State, A: F.StateArray, R: F.StateArray, T: State, x: nat, y: nat, z: nat, k: nat, u: int)
    requires Agrees(s, A) && Rotated(A, R) && Moved(s, T) && x < 5 && y < 5 && z < 64
    requires k == x + 5 * y && u == (x + y + y + y) % 5
    ensures R(u, x, z) == Bit(T[k], z)
  {
    if k == 0 {
      OriginBit(s, A, R, T, z);
    } else {
      var i := WalkCovers(x, y);
      PiSource(i, x, y);
      assert StepRotates(A, R, i) && StepMoves(s, T, i);
      StepBit(s, A, R, T, i, u, x, k, z);
    }
  }

  lemma PiAt(R: F.StateArray, x: int, y: int, z: int, u: int)
    requires u == (x + y + y + y) % 5
    ensures F.Pi(R)(x, y, z) == R(u, x, z)
  {
  }

  lemma RhoPiAgrees(s: State, A: F.StateArray, R: F.StateArray, T: State)
    requires Agrees(s, A) && Rotated(A, R) && Moved(s, T)
    ensures Agrees(T, F.Pi(R))
  {
    forall x: nat, y: nat, z: nat | x < 5 && y < 5 && z < 64 ensures BitAgrees(T, F.Pi(R), x, y, z) {
      var u := (x + y + y + y) % 5;
      RhoPiBit(s, A, R, T, x, y, z, x + 5 * y, u);
      PiAt(R, x, y, z, u);
    }
  }

  // --- chi ---

  lemma ChiLaneBit(C: seq<Limb>, x: nat, z: nat)
    requires |C| == 5 && x < 5 && z < 64
    ensures Bit(ChiLane(C, x), z) == (Bit(C[x], z) != (!Bit(C[(x + 1) % 5], z) && Bit(C[(x + 2) % 5], z)))
  {
    var a, b := C[(x + 1) % 5], C[(x + 2) % 5];
    NotBit(a, z);
    LaneBit(And, Not(a), b, z);
    LaneBit(Xor, C[x], Lane(And, Not(a), b), z);
  }

  lemma RowLane(s: State, A: F.StateArray, C: seq<Limb>, x: nat, y: nat, z: nat)
    requires Agrees(s, A) && x < 5 && y < 5 && z < 64 && C == s[5 * y..5 * y + 5]
    ensures A(x, y, z) == Bit(C[x], z)
  {
    BitOf(s, A, x, y, x + 5 * y, z);
    assert C[x] == s[x + 5 * y];
  }

  lemma ChiBit(s: State, A: F.StateArray, C: seq<Limb>, x: nat, y: nat, z: nat)
    requires Agrees(s, A) && x < 5 && y < 5 && z < 64 && C == s[5 * y..5 * y + 5]
    ensures F.Chi(A)(x, y, z) == Bit(ChiLane(C, x), z)
  {
    RowLane(s, A, C, x, y, z);
    RowLane(s, A, C, (x + 1) % 5, y, z);
    RowLane(s, A, C, (x + 2) % 5, y, z);
    ChiLaneBit(C, x, z);
  }

  lemma RowIs(s: State, T: State, x: nat, y: nat, k: int)
    requires x < 5 && y < 5 && k == x + 5 * y && RowOf(s, T, 5 * y)
    ensures T[k] == ChiLane(s[5 * y..5 * y + 5], x)
  {
    assert T[5 * y..5 * y + 5][x] == T[k];
  }

  lemma AllRows(s: State, y: nat)
    requires y < 5
    ensures RowOf(s, Chi(s), 5 * y)
  {
    ChiRows(s);
  }

  lemma ChiAgrees(s: State, A: F.StateArray)
    requires Agrees(s, A)
    ensures Agrees(Chi(s), F.Chi(A))
  {
    forall x: nat, y: nat, z: nat | x < 5 && y < 5 && z < 64 ensures BitAgrees(Chi(s), F.Chi(A), x, y, z) {
      AllRows(s, y);
      RowIs(s, Chi(s), x, y, x + 5 * y);
      ChiBit(s, A, s[5 * y..5 * y + 5], x, y, z);
    }
  }

  // --- iota ---

  /** The register of algorithm 5 every seven steps. */
  const REGISTERS: seq<F.Register> := [
    F.Register(true, false, false, false, false, false, false, false),
    F.Register(false, false, false, false, false, false, false, true),
    F.Register(false, false, false, true, true, false, true, true),
    F.Register(false, true, false, true, true, false, false, false),
    F.Register(true, true, true, true, true, false, true, true),
    F.Register(true, false, false, true, false, false, false, false),
    F.Register(true, false, true, false, true, true, false, false),
    F.Register(true, true, true, true, false, false, true, false),
    F.Register(false, true, false, true, false, false, true, true),
    F.Register(false, false, false, false, true, true, true, false),
    F.Register(true, false, false, false, false, false, true, false),
    F.Register(false, false, true, true, false, true, true, true),
    F.Register(true, false, true, false, true, false, true, true),
    F.Register(true, false, true, true, false, false, true, true),
    F.Register(true, true, false, false, false, true, true, false),
    F.Register(true, true, false, true, false, true, false, true),
    F.Register(false, true, false, true, false, true, false, true),
    F.Register(false, true, false, true, false, true, false, false),
    F.Register(false, true, false, false, true, true, true, true),
    F.Register(false, false, false, true, false, true, true, true),
    F.Register(true, true, true, false, true, true, false, false),
    F.Register(false, true, true, true, true, true, false, false),
    F.Register(true, true, false, true, false, false, false, false),
    F.Register(false, false, true, false, false, false, true, false)]

  function SevenSteps(r: F.Register): F.Register {
    r.Step().Step().Step().Step().Step().Step().Step()
  }

  /** The number with bit 2^j - 1 set where b_j is. */
  function Spread(b0: bool, b1: bool, b2: bool, b3: bool, b4: bool, b5: bool, b6: bool): nat {
    (if b0 then 1 else 0) + (if b1 then 2 else 0) + (if b2 then 8 else 0) + (if b3 then 128 else 0)
    + (if b4 then 0x8000 else 0) + (if b5 then 0x8000_0000 else 0) + (if b6 then 0x8000_0000_0000_0000 else 0)
  }

  /** The bits that seven steps from register r put out. */
  function SpreadFrom(r: F.Register): nat {
    var r1 := r.Step();
    var r2 := r1.Step();
    var r3 := r2.Step();
    var r4 := r3.Step();
    var r5 := r4.Step();
    Spread(r.r0, r1.r0, r2.r0, r3.r0, r4.r0, r5.r0, r5.Step().r0)
  }

  lemma RegisterTable()
    ensures |REGISTERS| == 24 && |RNDC| == 24
    ensures REGISTERS[0] == F.Register(true, false, false, false, false, false, false, false)
    ensures forall r :: 0 <= r < 23 ==> REGISTERS[r + 1] == SevenSteps(REGISTERS[r])
  {
  }

  lemma ConstantTable()
    ensures |REGISTERS| == 24 && |RNDC| == 24
    ensures forall r :: 0 <= r < 24 ==> RNDC[r] == SpreadFrom(REGISTERS[r])
  {
  }

  lemma {:induction false} ZeroBit(z: nat)
    ensures !Bit(0, z)
  {
    BitHalf(0, 0);
    if z > 0 {
      BitHalf(0, z - 1);
      ZeroBit(z - 1);
    }
  }

  lemma {:induction false} TopBit(x: nat, n: nat, p: nat, z: nat)
    requires p == Pow2(n) && x < p
    ensures Bit(x + p, z) == (z == n || Bit(x, z))
    decreases z
  {
    PowStep(2, 0);
    BitHalf(x, 0);
    BitHalf(x + p, 0);
    if n > 0 {
      PowStep(2, n - 1);
    }
    if z > 0 {
      BitHalf(x, z - 1);
      BitHalf(x + p, z - 1);
      if n == 0 {
        ZeroBit(z - 1);
      } else {
        assert (x + p) / 2 == x / 2 + p / 2;
        TopBit(x / 2, n - 1, p / 2, z - 1);
      }
    }
  }

  lemma SetBit(x: nat, n: nat, p: nat, b: bool, z: nat)
    requires p == Pow2(n) && x < p
    ensures Bit(x + if b then p else 0, z) == ((z == n && b) || Bit(x, z))
  {
    TopBit(x, n, p, z);
  }

  lemma SpreadPowers()
    ensures Pow2(0) == 1 && Pow2(1) == 2 && Pow2(3) == 8 && Pow2(7) == 128
    ensures Pow2(15) == 0x8000 && Pow2(31) == 0x8000_0000 && Pow2(63) == 0x8000_0000_0000_0000
  {
    assert PowRec(2, 7) == 128;
    assert PowRec(2, 3) == 8;
    PowAdd(2, 8, 7);
    PowAdd(2, 16, 15);
    PowAdd(2, 8, 8);
    PowStep(2, 7);
    Pow2Values();
  }

  lemma SpreadLow(b0: bool, b1: bool, b2: bool, b3: bool, z: nat)
    ensures var x := Spread(b0, b1, b2, b3, false, false, false);
            x < 256 && Bit(x, z) == ((z == 0 && b0) || (z == 1 && b1) || (z == 3 && b2) || (z == 7 && b3))
  {
    SpreadPowers();
    ZeroBit(z);
    var x0 := if b0 then 1 else 0;
    var x1 := x0 + if b1 then 2 else 0;
    var x2 := x1 + if b2 then 8 else 0;
    SetBit(0, 0, 1, b0, z);
    SetBit(x0, 1, 2, b1, z);
    SetBit(x1, 3, 8, b2, z);
    SetBit(x2, 7, 128, b3, z);
  }

  lemma SpreadHigh(x3: nat, b4: bool, b5: bool, b6: bool, z: nat)
    requires x3 < 256
    ensures var x4 := x3 + if b4 then 0x8000 else 0;
            var x5 := x4 + if b5 then 0x8000_0000 else 0;
            var x6 := x5 + if b6 then 0x8000_0000_0000_0000 else 0;
            Bit(x6, z) == (Bit(x3, z) || (z == 15 && b4) || (z == 31 && b5) || (z == 63 && b6))
  {
    SpreadPowers();
    var x4 := x3 + if b4 then 0x8000 else 0;
    var x5 := x4 + if b5 then 0x8000_0000 else 0;
    SetBit(x3, 15, 0x8000, b4, z);
    SetBit(x4, 31, 0x8000_0000, b5, z);
    SetBit(x5, 63, 0x8000_0000_0000_0000, b6, z);
  }

  lemma SpreadBit(b0: bool, b1: bool, b2: bool, b3: bool, b4: bool, b5: bool, b6: bool, z: nat)
    ensures Bit(Spread(b0, b1, b2, b3, b4, b5, b6), z) ==
              ((z == 0 && b0) || (z == 1 && b1) || (z == 3 && b2) || (z == 7 && b3) || (z == 15 && b4)
               || (z == 31 && b5) || (z == 63 && b6))
  {
    SpreadLow(b0, b1, b2, b3, z);
    SpreadHigh(Spread(b0, b1, b2, b3, false, false, false), b4, b5, b6, z);
  }

  lemma LfsrStep(t: nat)
    ensures F.Lfsr(t + 1) == F.Lfsr(t).Step()
  {
  }

  lemma SevenMore(t: nat)
    ensures F.Lfsr(t + 7) == SevenSteps(F.Lfsr(t))
    ensures var r := F.Lfsr(t);
            SpreadFrom(r) == Spread(r.r0, F.Lfsr(t + 1).r0, F.Lfsr(t + 2).r0, F.Lfsr(t + 3).r0, F.Lfsr(t + 4).r0,
                                    F.Lfsr(t + 5).r0, F.Lfsr(t + 6).r0)
  {
    LfsrStep(t);
    LfsrStep(t + 1);
    LfsrStep(t + 2);
    LfsrStep(t + 3);
    LfsrStep(t + 4);
    LfsrStep(t + 5);
    LfsrStep(t + 6);
  }

  lemma FirstRegister()
    ensures F.Lfsr(0) == F.Register(true, false, false, false, false, false, false, false)
  {
  }

  /** The first register, and each seven steps behind the one before. */
  ghost predicate SevenApart(regs: seq<F.Register>) {
    && |regs| == 24 && regs[0] == F.Register(true, false, false, false, false, false, false, false)
    && forall r :: 0 <= r < 23 ==> regs[r + 1] == SevenSteps(regs[r])
  }

  lemma RegisterRun()
    ensures SevenApart(REGISTERS)
  {
    RegisterTable();
  }

  lemma {:induction false} RegisterAt(regs: seq<F.Register>, r: nat, t: nat)
    requires SevenApart(regs) && r < 24 && t == 7 * r
    ensures F.Lfsr(t) == regs[r]
    decreases r
  {
    if r == 0 {
      FirstRegister();
    } else {
      RegisterAt(regs, r - 1, t - 7);
      SevenMore(t - 7);
    }
  }

  lemma RegisterIs(r: nat, t: nat)
    requires r < 24 && t == 7 * r
    ensures |REGISTERS| == 24 && F.Lfsr(t) == REGISTERS[r]
  {
    RegisterRun();
    RegisterAt(REGISTERS, r, t);
  }

  /** The constants of the table are those of algorithm 5. */
  lemma ConstantIs(r: nat, z: nat)
    requires r < 24
    ensures |RNDC| == 24 && Bit(RNDC[r], z) == F.RoundConstant(r, z)
  {
    var t := 7 * r;
    RegisterIs(r, t);
    ConstantTable();
    SevenMore(t);
    SpreadBit(F.Lfsr(t).r0, F.Lfsr(t + 1).r0, F.Lfsr(t + 2).r0, F.Lfsr(t + 3).r0, F.Lfsr(t + 4).r0, F.Lfsr(t + 5).r0,
              F.Lfsr(t + 6).r0, z);
    RcIs(t);
    RcIs(t + 1);
    RcIs(t + 2);
    RcIs(t + 3);
    RcIs(t + 4);
    RcIs(t + 5);
    RcIs(t + 6);
  }

  lemma BelowPeriod(t: nat)
    requires t < 255
    ensures t % 255 == t
  {
  }

  lemma RcIs(t: nat)
    requires t < 255
    ensures F.Rc(t) == F.Lfsr(t).r0
  {
    BelowPeriod(t);
  }

  /** c has the bits of the constant of round r. */
  ghost predicate IsConstant(c: Limb, r: nat) {
    forall z: nat :: z < 64 ==> Bit(c, z) == F.RoundConstant(r, z)
  }

  ghost predicate AreConstants(rc: seq<Limb>) {
    |rc| == 24 && forall r: nat {:trigger rc[r]} :: r < 24 ==> IsConstant(rc[r], r)
  }

  lemma ConstantsAre()
    ensures AreConstants(RNDC)
  {
    ConstantTable();
    forall r: nat | r < 24 ensures IsConstant(RNDC[r], r) {
      forall z: nat | z < 64 ensures Bit(RNDC[r], z) == F.RoundConstant(r, z) {
        ConstantIs(r, z);
      }
    }
  }

  lemma IotaAgrees(s: State, A: F.StateArray, c: Limb, r: nat)
    requires Agrees(s, A) && IsConstant(c, r)
    ensures Agrees(Iota(s, c), F.Iota(A, r))
  {
    forall x: nat, y: nat, z: nat | x < 5 && y < 5 && z < 64 ensures BitAgrees(Iota(s, c), F.Iota(A, r), x, y, z) {
      BitOf(s, A, x, y, x + 5 * y, z);
      LaneBit(Xor, s[0], c, z);
    }
  }

  // --- the permutation ---

  lemma RhoPiPart(s: State, A: F.StateArray)
    requires Agrees(s, A)
    ensures Agrees(RhoPi(s), F.Pi(F.Rho(A)))
  {
    RhoRotates(A, 24);
    RhoPiMoves(s);
    RhoPiAgrees(s, A, F.Rho(A), RhoPi(s));
  }

  lemma RoundAgrees(s: State, A: F.StateArray, c: Limb, r: nat)
    requires Agrees(s, A) && IsConstant(c, r)
    ensures Agrees(Round(s, c), F.Rnd(A, r))
  {
    ThetaAgrees(s, A);
    var s1, A1 := Theta(s), F.Theta(A);
    RhoPiPart(s1, A1);
    var s2, A2 := RhoPi(s1), F.Pi(F.Rho(A1));
    ChiAgrees(s2, A2);
    IotaAgrees(Chi(s2), F.Chi(A2), c, r);
  }

  lemma KeccakStep(A: F.StateArray, n: nat)
    ensures F.KeccakP(A, 0) == A && F.KeccakP(A, n + 1) == F.Rnd(F.KeccakP(A, n), n)
  {
  }

  lemma {:induction false} RoundsAgree(s: State, A: F.StateArray, rc: seq<Limb>, n: nat)
    requires Agrees(s, A) && AreConstants(rc) && n <= |rc|
    ensures Agrees(Rounds(s, rc[..n]), F.KeccakP(A, n))
  {
    if n == 0 {
      NoRounds(s, rc);
      KeccakStep(A, 0);
    } else {
      var m := n - 1;
      RoundsAgree(s, A, rc, m);
      RoundAgrees(Rounds(s, rc[..m]), F.KeccakP(A, m), rc[m], m);
      OneMoreRound(s, rc, m);
      KeccakStep(A, m);
    }
  }

  lemma AllRoundsAgree(s: State, A: F.StateArray, rc: seq<Limb>)
    requires Agrees(s, A) && AreConstants(rc)
    ensures Agrees(Rounds(s, rc), F.KeccakP(A, |rc|))
  {
    RoundsAgree(s, A, rc, |rc|);
    NoRounds(s, rc);
  }

  /** The permutation on lanes is KECCAK-f[1600]: 24 rounds of the step mappings on bits. */
  lemma PermutationAgrees(s: State, A: F.StateArray)
    requires Agrees(s, A)
    ensures |RNDC| == 24 && Agrees(Rounds(s, RNDC), F.KeccakP(A, |RNDC|))
  {
    ConstantsAre();
    AllRoundsAgree(s, A, RNDC);
  }
}
