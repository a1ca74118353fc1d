/** Messages cut into blocks. */
module Blocks {
  import opened Arith

  /** The bytes that do not fill a block. */
  function Rest(m: nat, rate: nat): (r: nat)
    requires 0 < rate
    ensures r < rate
    decreases m
  {
    if m < rate then m else Rest(m - rate, rate)
  }

  lemma {:induction false} RestIs(m: nat, rate: nat, n: nat, pt: nat)
    requires m == n * rate + pt && pt < rate
    ensures Rest(m, rate) == pt == m % rate
    decreases n
  {
    DivModUnique(m, rate, n, pt);
    if n > 0 {
      Distribute(rate, n, 1);
      MulNonneg(n - 1, rate);
      RestIs(m - rate, rate, n - 1, pt);
    }
  }

  /** The message consists of whole blocks. */
  predicate Whole<T>(P: seq<T>, size: nat)
    requires 0 < size
    decreases |P|
  {
    P == [] || (size <= |P| && Whole(P[size..], size))
  }

  lemma {:induction false} WholeRest<T>(P: seq<T>, size: nat, n: nat)
    requires 0 < size && Whole(P, size) && n < size
    ensures Rest(|P| + n, size) == n
    decreases |P|
  {
    if P != [] {
      WholeRest(P[size..], size, n);
    }
  }
}
