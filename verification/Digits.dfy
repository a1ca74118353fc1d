/** Numbers as strings of digits, most significant first. */
module Digits {
  import opened Arith
  import opened Powers

  type Byte = x: int | 0 <= x < 256

  function BigRec(s: seq<Byte>, b: int): int {
    if s == [] then 0 else s[0] * Pow(b, |s| - 1) + BigRec(s[1..], b)
  }

  /** The number with the digits s in base b. */
  function Big(s: seq<Byte>, b: int): int {
    BigRec(s, b)
  }

  ghost predicate DigitsBelow(s: seq<Byte>, b: int) {
    forall i :: 0 <= i < |s| ==> s[i] < b
  }

  lemma BigCons(s: seq<Byte>, b: int)
    requires s != []
    ensures Big(s, b) == s[0] * Pow(b, |s| - 1) + Big(s[1..], b)
  {
  }

  lemma BigEmpty(b: int)
    ensures Big([], b) == 0
  {
  }

  lemma BigOne(x: Byte, b: int)
    ensures Big([x], b) == x
  {
    BigCons([x], b);
    PowStep(b, 0);
    BigEmpty(b);
    assert [x][1..] == [];
  }

  lemma {:induction false} BigConcat(s: seq<Byte>, t: seq<Byte>, b: int)
    ensures Big(s + t, b) == Big(s, b) * Pow(b, |t|) + Big(t, b)
  {
    if s == [] {
      assert s + t == t;
      BigEmpty(b);
    } else {
      assert (s + t)[1..] == s[1..] + t;
      BigCons(s, b);
      BigCons(s + t, b);
      BigConcat(s[1..], t, b);
      PowAdd(b, |s| - 1, |t|);
      Regroup(s[0], Pow(b, |s| - 1), Pow(b, |t|), Big(s[1..], b));
    }
  }

  lemma Regroup(x: int, p: int, q: int, r: int)
    ensures (x * p + r) * q == x * (p * q) + r * q
  {
    Distribute(q, x * p, r);
    Assoc(x, p, q);
  }

  lemma BigSnoc(s: seq<Byte>, x: Byte, b: int)
    ensures Big(s + [x], b) == Big(s, b) * b + x
  {
    BigConcat(s, [x], b);
    BigOne(x, b);
    PowStep(b, 0);
  }

  lemma DigitBound(x: int, b: int, p: int, r: int)
    requires 0 <= x < b && 0 <= r < p
    ensures 0 <= x * p + r < b * p
    ensures 0 < x ==> p <= x * p + r
  {
    MulNonneg(x, p);
    MulMono(x + 1, b, p);
    Distribute(p, x, 1);
    if 0 < x {
      MulMono(1, x, p);
    }
  }

  lemma {:induction false} BigBound(s: seq<Byte>, b: int)
    requires 1 < b && DigitsBelow(s, b)
    ensures 0 <= Big(s, b) < Pow(b, |s|)
    ensures s != [] && s[0] != 0 ==> Pow(b, |s| - 1) <= Big(s, b)
  {
    PowStep(b, 0);
    if s == [] {
      BigEmpty(b);
    } else {
      BigCons(s, b);
      BigBound(s[1..], b);
      PowStep(b, |s| - 1);
      DigitBound(s[0], b, Pow(b, |s| - 1), Big(s[1..], b));
    }
  }

  lemma {:induction false} BigInjective(s: seq<Byte>, t: seq<Byte>, b: int)
    requires 1 < b && DigitsBelow(s, b) && DigitsBelow(t, b) && |s| == |t| && Big(s, b) == Big(t, b)
    ensures s == t
  {
    if s != [] {
      BigCons(s, b);
      BigCons(t, b);
      BigBound(s[1..], b);
      BigBound(t[1..], b);
      DivModPairUnique(Pow(b, |s| - 1), s[0], Big(s[1..], b), t[0], Big(t[1..], b));
      BigInjective(s[1..], t[1..], b);
      assert s == [s[0]] + s[1..] && t == [t[0]] + t[1..];
    }
  }

  /** A number has one digit string without leading zero. */
  lemma DigitsUnique(s: seq<Byte>, t: seq<Byte>, b: int)
    requires 1 < b && DigitsBelow(s, b) && DigitsBelow(t, b) && Big(s, b) == Big(t, b)
    requires (s != [] ==> s[0] != 0) && (t != [] ==> t[0] != 0)
    ensures s == t
  {
    BigBound(s, b);
    BigBound(t, b);
    PowStep(b, 0);
    if |s| < |t| {
      PowMono(b, |s|, |t| - 1);
    } else if |t| < |s| {
      PowMono(b, |t|, |s| - 1);
    } else {
      BigInjective(s, t, b);
    }
  }

  function Reversed(s: seq<Byte>): (r: seq<Byte>)
    ensures |r| == |s| && forall i :: 0 <= i < |s| ==> r[i] == s[|s| - 1 - i]
  {
    seq(|s|, i requires 0 <= i < |s| => s[|s| - 1 - i])
  }
}
