/** The Keccak-f[1600] permutation on 25 lanes, in place. */
module Keccak {
  import opened Limbs
  import opened Bits
  import opened Lanes

  // --- tables ---

  const RNDC: seq<Limb> := [
    0x0000000000000001, 0x0000000000008082, 0x800000000000808a, 0x8000000080008000,
    0x000000000000808b, 0x0000000080000001, 0x8000000080008081, 0x8000000000008009,
    0x000000000000008a, 0x0000000000000088, 0x0000000080008009, 0x000000008000000a,
    0x000000008000808b, 0x800000000000008b, 0x8000000000008089, 0x8000000000008003,
    0x8000000000008002, 0x8000000000000080, 0x000000000000800a, 0x800000008000000a,
    0x8000000080008081, 0x8000000000008080, 0x0000000080000001, 0x8000000080008008]

  const ROTC: seq<nat> := [1, 3, 6, 10, 15, 21, 28, 36, 45, 55, 2, 14, 27, 41, 56, 8, 25, 43, 62, 18, 39, 61, 20, 44]

  const PILN: seq<nat> := [10, 7, 11, 17, 18, 3, 5, 16, 8, 21, 24, 4, 15, 23, 19, 13, 12, 2, 20, 14, 22, 9, 6, 1]

  /** When the cycle through PILN reaches each lane; lane 0 is never reached. */
  const STEP: seq<nat> := [24, 23, 17, 5, 11, 6, 22, 1, 8, 21, 0, 2, 16, 15, 19, 12, 7, 3, 4, 14, 18, 9, 20, 13, 10]

  /** piln visits every lane but lane 0 once, and step tells when. */
  ghost predicate Cycle(piln: seq<nat>, rotc: seq<nat>, step: seq<nat>) {
    && |piln| == 24 && |rotc| == 24 && |step| == 25 && step[0] == 24
    && (forall i {:trigger piln[i]} :: 0 <= i < 24 ==> 1 <= piln[i] < 25 && step[piln[i]] == i)
    && (forall i {:trigger rotc[i]} :: 0 <= i < 24 ==> 0 < rotc[i] < LIMB_BITS)
    && (forall k {:trigger step[k]} :: 1 <= k < 25 ==> step[k] < 24 && piln[step[k]] == k)
  }

  lemma CycleForward()
    ensures |PILN| == 24 && |STEP| == 25 && STEP[0] == 24
    ensures forall i :: 0 <= i < 24 ==> 1 <= PILN[i] < 25 && STEP[PILN[i]] == i
  {
  }

  lemma CycleBackward()
    ensures |PILN| == 24 && |STEP| == 25
    ensures forall k :: 1 <= k < 25 ==> STEP[k] < 24 && PILN[STEP[k]] == k
  {
  }

  lemma Rotations()
    ensures |ROTC| == 24 && forall i :: 0 <= i < 24 ==> 0 < ROTC[i] < LIMB_BITS
  {
  }

  lemma Tables()
    ensures Cycle(PILN, ROTC, STEP)
  {
    CycleForward();
    CycleBackward();
    Rotations();
  }

  // --- the steps, lane by lane ---

  type State = s: seq<Limb> | |s| == 25 witness seq(25, _ => 0)

  function Column(A: State, x: nat): Limb
    requires x < 5
  {
    XorL(XorL(XorL(XorL(A[x], A[x + 5]), A[x + 10]), A[x + 15]), A[x + 20])
  }

  function Columns(A: State): seq<Limb> {
    [Column(A, 0), Column(A, 1), Column(A, 2), Column(A, 3), Column(A, 4)]
  }

  function Mix(C: seq<Limb>, x: nat): Limb
    requires |C| == 5 && x < 5
  {
    XorL(C[(x + 4) % 5], Rotl(C[(x + 1) % 5], 1))
  }

  /** T is A with every lane mixed with its neighbour columns. */
  ghost predicate Mixed(A: seq<Limb>, C: seq<Limb>, T: seq<Limb>) {
    |A| == |T| == 25 && |C| == 5 && forall k :: 0 <= k < 25 ==> T[k] == XorL(A[k], Mix(C, k % 5))
  }

  function MixLanes(A: State, C: seq<Limb>): (T: State)
    requires |C| == 5
    ensures Mixed(A, C, T)
  {
    seq(25, k requires 0 <= k < 25 => XorL(A[k], Mix(C, k % 5)))
  }

  function Theta(A: State): State {
    MixLanes(A, Columns(A))
  }

  /** The lane that the cycle moves in its i-th step. */
  function Source(piln: seq<nat>, i: nat): nat
    requires i <= |piln|
  {
    if i == 0 then 1 else piln[i - 1]
  }

  /** T is A with its lanes moved along the cycle and rotated. */
  ghost predicate Cycled(A: seq<Limb>, T: seq<Limb>, piln: seq<nat>, rotc: seq<nat>, step: seq<nat>)
    requires Cycle(piln, rotc, step)
  {
    && |A| == |T| == 25 && T[0] == A[0]
    && forall i {:trigger rotc[i]} :: 0 <= i < 24 ==> T[piln[i]] == Rotl(A[Source(piln, i)], rotc[i])
  }

  function CycleLanes(A: State, piln: seq<nat>, rotc: seq<nat>, step: seq<nat>): (T: State)
    requires Cycle(piln, rotc, step)
    ensures Cycled(A, T, piln, rotc, step)
  {
    seq(25, k requires 0 <= k < 25 => if k == 0 then A[0] else Rotl(A[Source(piln, step[k])], rotc[step[k]]))
  }

  function RhoPi(A: State): State {
    Tables();
    CycleLanes(A, PILN, ROTC, STEP)
  }

  function ChiLane(C: seq<Limb>, i: nat): Limb
    requires |C| == 5 && i < 5
  {
    XorL(C[i], Lane(And, Not(C[(i + 1) % 5]), C[(i + 2) % 5]))
  }

  /** V is the row C with each lane changed by the two to its right. */
  ghost predicate RowChanged(C: seq<Limb>, V: seq<Limb>) {
    |C| == |V| == 5 && forall i :: 0 <= i < 5 ==> V[i] == ChiLane(C, i)
  }

  function ChiRow(C: seq<Limb>): (V: seq<Limb>)
    requires |C| == 5
    ensures RowChanged(C, V)
  {
    seq(5, i requires 0 <= i < 5 => ChiLane(C, i))
  }

  function Chi(A: State): State {
    ChiRow(A[0..5]) + ChiRow(A[5..10]) + ChiRow(A[10..15]) + ChiRow(A[15..20]) + ChiRow(A[20..25])
  }

  /** Row j of T is the changed row j of A. */
  ghost predicate RowOf(A: seq<Limb>, T: seq<Limb>, j: nat) {
    |A| == |T| == 25 && j + 5 <= 25 && RowChanged(A[j..j + 5], T[j..j + 5])
  }

  lemma FiveRows(a: seq<Limb>, b: seq<Limb>, c: seq<Limb>, d: seq<Limb>, e: seq<Limb>)
    requires |a| == |b| == |c| == |d| == |e| == 5
    ensures var t := a + b + c + d + e;
            |t| == 25 && t[0..5] == a && t[5..10] == b && t[10..15] == c && t[15..20] == d && t[20..25] == e
  {
  }

  lemma ChiRows(A: State)
    ensures RowOf(A, Chi(A), 0) && RowOf(A, Chi(A), 5) && RowOf(A, Chi(A), 10) && RowOf(A, Chi(A), 15)
            && RowOf(A, Chi(A), 20)
  {
    FiveRows(ChiRow(A[0..5]), ChiRow(A[5..10]), ChiRow(A[10..15]), ChiRow(A[15..20]), ChiRow(A[20..25]));
  }

  function Iota(A: State, c: Limb): State {
    A[0 := XorL(A[0], c)]
  }

  function Round(A: State, c: Limb): State {
    Iota(Chi(RhoPi(Theta(A))), c)
  }

  /** One round for each constant of rc. The recursion sits two calls below, so that Rounds(A, rc) is a plain term. */
  function Rounds(A: State, rc: seq<Limb>): State
    decreases |rc|, 2
  {
    RoundsRec(A, rc)
  }

  function RoundsRec(A: State, rc: seq<Limb>): State
    decreases |rc|, 1
  {
    if rc == [] then A else LastRound(A, rc)
  }

  function LastRound(A: State, rc: seq<Limb>): State
    requires rc != []
    decreases |rc|, 0
  {
    Round(Rounds(A, rc[..|rc| - 1]), rc[|rc| - 1])
  }

  lemma NoRounds(A: State, rc: seq<Limb>)
    ensures Rounds(A, rc[..0]) == A && Rounds(A, rc[..|rc|]) == Rounds(A, rc)
  {
    assert rc[..|rc|] == rc;
    assert RoundsRec(A, rc[..0]) == A;
  }

  lemma OneMoreRound(A: State, rc: seq<Limb>, r: nat)
    requires r < |rc|
    ensures Rounds(A, rc[..r + 1]) == Round(Rounds(A, rc[..r]), rc[r])
  {
    var p := rc[..r + 1];
    assert p[..r] == rc[..r];
    assert RoundsRec(A, p) == LastRound(A, p);
  }

  // --- the steps in place ---

  method ColumnParities(st: array<Limb>, bc: array<Limb>, ghost A: State)
    requires st.Length == 25 && bc.Length == 5 && st != bc && st[..] == A
    modifies bc
    ensures bc[..] == Columns(A)
  {
    for i := 0 to 5
      invariant forall x :: 0 <= x < i ==> bc[x] == Column(A, x)
    {
      assert st[i] == A[i] && st[i + 5] == A[i + 5] && st[i + 10] == A[i + 10] && st[i + 15] == A[i + 15]
             && st[i + 20] == A[i + 20];
      bc[i] := XorL(XorL(XorL(XorL(st[i], st[i + 5]), st[i + 10]), st[i + 15]), st[i + 20]);
    }
  }

  lemma RowColumn(j: int, i: int)
    requires 0 <= j && j % 5 == 0 && 0 <= i < 5
    ensures (j + i) % 5 == i
  {
  }

  // The lanes of column i take in t.
  method MixColumn(st: array<Limb>, i: nat, t: Limb, ghost A: seq<Limb>, ghost T: seq<Limb>)
    requires st.Length == 25 && i < 5 && |A| == |T| == 25
    requires forall k :: 0 <= k < 25 ==> st[k] == if k % 5 < i then T[k] else A[k]
    requires forall k :: 0 <= k < 25 && k % 5 == i ==> T[k] == XorL(A[k], t)
    modifies st
    ensures forall k :: 0 <= k < 25 ==> st[k] == if k % 5 < i + 1 then T[k] else A[k]
  {
    var j := 0;
    while j < 25
      invariant 0 <= j <= 25 && j % 5 == 0
      invariant forall k :: 0 <= k < 25 ==> st[k] == if k % 5 < i || (k % 5 == i && k < j) then T[k] else A[k]
    {
      RowColumn(j, i);
      st[j + i] := XorL(st[j + i], t);
      j := j + 5;
    }
  }

  method MixColumns(st: array<Limb>, bc: array<Limb>, ghost A: seq<Limb>, ghost C: seq<Limb>, ghost T: seq<Limb>)
    requires st.Length == 25 && bc.Length == 5 && st != bc && st[..] == A && bc[..] == C && Mixed(A, C, T)
    modifies st
    ensures st[..] == T
  {
    for i := 0 to 5
      invariant bc[..] == C
      invariant forall k :: 0 <= k < 25 ==> st[k] == if k % 5 < i then T[k] else A[k]
    {
      assert forall x :: 0 <= x < 5 ==> bc[x] == C[x];
      MixColumn(st, i, XorL(bc[(i + 4) % 5], Rotl(bc[(i + 1) % 5], 1)), A, T);
    }
  }

  method ThetaStep(st: array<Limb>, bc: array<Limb>, ghost A: State)
    requires st.Length == 25 && bc.Length == 5 && st != bc && st[..] == A
    modifies st, bc
    ensures st[..] == Theta(A)
  {
    ColumnParities(st, bc, A);
    MixColumns(st, bc, A, Columns(A), Theta(A));
  }

  method RhoPiStep(st: array<Limb>, bc: array<Limb>, piln: seq<nat>, rotc: seq<nat>, ghost step: seq<nat>,
                   ghost A: seq<Limb>, ghost T: seq<Limb>)
    requires st.Length == 25 && bc.Length == 5 && st != bc && st[..] == A
    requires Cycle(piln, rotc, step) && Cycled(A, T, piln, rotc, step)
    modifies st, bc
    ensures st[..] == T
  {
    var t := st[1];
    for i := 0 to 24
      invariant t == A[Source(piln, i)]
      invariant forall k :: 0 <= k < 25 ==> st[k] == if step[k] < i then T[k] else A[k]
    {
      var j := piln[i];
      bc[0] := st[j];
      st[j] := Rotl(t, rotc[i]);
      t := bc[0];
    }
  }

  // One row, whose lanes are copied out before they change.
  method ChiRowStep(st: array<Limb>, bc: array<Limb>, j: nat, ghost C: seq<Limb>, ghost V: seq<Limb>)
    requires st.Length == 25 && bc.Length == 5 && st != bc && j + 5 <= 25 && st[j..j + 5] == C && RowChanged(C, V)
    modifies st, bc
    ensures st[j..j + 5] == V && st[..j] == old(st[..j]) && st[j + 5..] == old(st[j + 5..])
  {
    for i := 0 to 5
      invariant st[..] == old(st[..])
      invariant forall x :: 0 <= x < i ==> bc[x] == C[x]
    {
      assert st[j + i] == C[i];
      bc[i] := st[j + i];
    }
    for i := 0 to 5
      invariant st[..j] == old(st[..j]) && st[j + i..] == old(st[j + i..])
      invariant st[j..j + i] == V[..i]
      invariant forall x :: 0 <= x < 5 ==> bc[x] == C[x]
    {
      assert st[j + i..][0] == C[i];
      var v := XorL(st[j + i], Lane(And, Not(bc[(i + 1) % 5]), bc[(i + 2) % 5]));
      assert v == ChiLane(C, i) == V[i];
      st[j + i] := v;
    }
  }

  method ChiStep(st: array<Limb>, bc: array<Limb>, ghost A: seq<Limb>, ghost T: seq<Limb>)
    requires st.Length == 25 && bc.Length == 5 && st != bc && st[..] == A
    requires RowOf(A, T, 0) && RowOf(A, T, 5) && RowOf(A, T, 10) && RowOf(A, T, 15) && RowOf(A, T, 20)
    modifies st, bc
    ensures st[..] == T
  {
    var j := 0;
    while j < 25
      invariant j in {0, 5, 10, 15, 20, 25}
      invariant st[..j] == T[..j] && st[j..] == A[j..]
    {
      assert RowOf(A, T, j);
      assert st[j..j + 5] == st[j..][..5] && A[j..j + 5] == A[j..][..5];
      assert st[j + 5..] == st[j..][5..] && A[j + 5..] == A[j..][5..];
      ChiRowStep(st, bc, j, A[j..j + 5], T[j..j + 5]);
      assert st[..j + 5] == st[..j] + st[j..j + 5] && T[..j + 5] == T[..j] + T[j..j + 5];
      j := j + 5;
    }
    assert st[..25] == st[..] && T[..25] == T;
  }

  method RoundStep(st: array<Limb>, bc: array<Limb>, c: Limb, ghost A: State)
    requires st.Length == 25 && bc.Length == 5 && st != bc && st[..] == A
    modifies st, bc
    ensures st[..] == Round(A, c)
  {
    Tables();
    ghost var A1 := Theta(A);
    ThetaStep(st, bc, A);
    ghost var A2 := RhoPi(A1);
    RhoPiStep(st, bc, PILN, ROTC, STEP, A1, A2);
    ChiRows(A2);
    ChiStep(st, bc, A2, Chi(A2));
    st[0] := XorL(st[0], c);
  }

  method RunRounds(st: array<Limb>, rndc: seq<Limb>, ghost A: State)
    requires st.Length == 25 && st[..] == A
    modifies st
    ensures st[..] == Rounds(A, rndc)
  {
    var bc := new Limb[5];
    NoRounds(A, rndc);
    for r := 0 to |rndc|
      invariant st[..] == Rounds(A, rndc[..r])
    {
      OneMoreRound(A, rndc, r);
      RoundStep(st, bc, rndc[r], Rounds(A, rndc[..r]));
    }
  }

  /** sha3_keccakf: the 24 rounds in place. */
  method KeccakF(st: array<Limb>)
    requires st.Length == 25
    modifies st
    ensures st[..] == Rounds(old(st[..]), RNDC)
  {
    RunRounds(st, RNDC, st[..]);
  }
}
