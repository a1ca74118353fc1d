/** The step mappings of FIPS 202, section 3.2, on the bits A[x, y, z] of a state array with lanes of 64 bits. */
module Fips202 {

  type StateArray = (int, int, int) -> bool

  const W: nat := 64

  // --- theta (section 3.2.1) ---

  predicate C(A: StateArray, x: int, z: int) {
    (((A(x, 0, z) != A(x, 1, z)) != A(x, 2, z)) != A(x, 3, z)) != A(x, 4, z)
  }

  predicate D(A: StateArray, x: int, z: int) {
    C(A, (x - 1) % 5, z) != C(A, (x + 1) % 5, (z - 1) % W)
  }

  function Theta(A: StateArray): StateArray {
    (x, y, z) => A(x, y, z) != D(A, x, z)
  }

  // --- rho (section 3.2.2) ---

  /** From (x, y) to (y, 2x + 3y). */
  function Next(lane: (int, int)): (int, int) {
    (lane.1, (lane.0 + lane.0 + lane.1 + lane.1 + lane.1) % 5)
  }

  /** The lane (x, y) that step t of the algorithm rotates. */
  function Walk(t: nat): (int, int) {
    if t == 0 then (1, 0) else Next(Walk(t - 1))
  }

  /** The rotation of step t: 1, 3, 6, 10, ... */
  function Offset(t: nat): int {
    if t == 0 then 1 else Offset(t - 1) + t + 1
  }

  lemma {:induction false} OffsetTriangular(t: nat)
    ensures 2 * Offset(t) == (t + 1) * (t + 2)
  {
    if t > 0 {
      OffsetTriangular(t - 1);
      assert (t + 1) * (t + 2) == t * (t + 1) + 2 * (t + 1);
    }
  }

  /** The first n of the 24 steps. */
  function RhoSteps(A: StateArray, n: nat): StateArray {
    if n == 0 then A
    else Rotate(RhoSteps(A, n - 1), A, Walk(n - 1), Offset(n - 1))
  }

  /** R with one lane taken from A, rotated. */
  function Rotate(R: StateArray, A: StateArray, lane: (int, int), offset: int): StateArray {
    (x, y, z) => if (x, y) == lane then A(x, y, (z - offset) % W) else R(x, y, z)
  }

  function Rho(A: StateArray): StateArray {
    RhoSteps(A, 24)
  }

  // --- pi (section 3.2.3) ---

  /** A'[x, y, z] = A[x + 3y, x, z]. */
  function Pi(A: StateArray): StateArray {
    (x, y, z) => A((x + y + y + y) % 5, x, z)
  }

  // --- chi (section 3.2.4) ---

  function Chi(A: StateArray): StateArray {
    (x, y, z) => A(x, y, z) != (!A((x + 1) % 5, y, z) && A((x + 2) % 5, y, z))
  }

  // --- iota (section 3.2.5) ---

  datatype Register = Register(r0: bool, r1: bool, r2: bool, r3: bool, r4: bool, r5: bool, r6: bool, r7: bool) {
    /** One step of algorithm 5: a zero in front, feedback of the ninth bit, truncation. */
    function Step(): Register {
      Register(r7, r0, r1, r2, r3 != r7, r4 != r7, r5 != r7, r6)
    }
  }

  function Lfsr(t: nat): Register {
    if t == 0 then Register(true, false, false, false, false, false, false, false) else Lfsr(t - 1).Step()
  }

  predicate Rc(t: nat) {
    Lfsr(t % 255).r0
  }

  /** Bit z of the constant of round ir. */
  predicate RoundConstant(ir: nat, z: int) {
    || (z == 0 && Rc(7 * ir)) || (z == 1 && Rc(1 + 7 * ir)) || (z == 3 && Rc(2 + 7 * ir)) || (z == 7 && Rc(3 + 7 * ir))
    || (z == 15 && Rc(4 + 7 * ir)) || (z == 31 && Rc(5 + 7 * ir)) || (z == 63 && Rc(6 + 7 * ir))
  }

  function Iota(A: StateArray, ir: nat): StateArray {
    (x, y, z) => A(x, y, z) != (x == 0 && y == 0 && RoundConstant(ir, z))
  }

  // --- the permutation (section 3.3) ---

  function Rnd(A: StateArray, ir: nat): StateArray {
    Iota(Chi(Pi(Rho(Theta(A)))), ir)
  }

  /** The first n rounds of KECCAK-f[1600], which has 24. */
  function KeccakP(A: StateArray, n: nat): StateArray {
    if n == 0 then A else Rnd(KeccakP(A, n - 1), n - 1)
  }
}
