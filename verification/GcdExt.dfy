/** The extended gcd: cofactors from the subtractive algorithm, then one factor of two at a time. */
module GcdExtended {
  import opened Arith
  import opened Powers
  import opened Divisors
  import opened Limbs
  import opened LimbSeqs
  import opened Bits
  import opened Mpn
  import opened Mpzs
  import opened MpzDiv
  import opened MpzDiv2exp
  import opened MpzUi
  import opened GcdBinary

  // --- the cofactor invariant ---

  /** u = t0 tu + t1 tv and v = s0 tu + s1 tv with determinant 2^p. */
  ghost predicate Cofactors(u: int, v: int, tu: int, tv: int, s0: int, s1: int, t0: int, t1: int, p: nat) {
    && u == t0 * tu + t1 * tv && v == s0 * tu + s1 * tv
    && t0 * s1 - t1 * s0 == Pow2(p)
    && 0 <= s0 && 0 <= s1 && 0 <= t0 && 0 <= t1
  }

  // x = m * w + y: the coefficient of x scales, the one of y takes in the one of x.
  lemma CombinationStep(n: int, a: int, x: int, b: int, y: int, m: int, w: int)
    requires n == a * x + b * y && x - y == w * m
    ensures n == a * m * w + (a + b) * y
  {
    assert a * (x - y) == a * m * w;
  }

  lemma DeterminantStep(t0: int, s1: int, t1: int, s0: int, m: int)
    ensures t0 * m * (s0 + s1) - (t0 + t1) * (s0 * m) == (t0 * s1 - t1 * s0) * m
    ensures (t0 + t1) * (s1 * m) - t1 * m * (s0 + s1) == (t0 * s1 - t1 * s0) * m
  {
    Distribute(t0 * m, s0, s1);
    assert (t0 + t1) * (s0 * m) == t0 * m * s0 + t1 * s0 * m;
    assert (t0 + t1) * (s1 * m) == t0 * s1 * m + t1 * m * s1;
  }

  lemma CofactorsLarger(u: int, v: int, tu: int, tv: int, s0: int, s1: int, t0: int, t1: int, p: nat, w: int, k: nat)
    requires Cofactors(u, v, tu, tv, s0, s1, t0, t1, p) && tu - tv == w * Pow2(k)
    ensures Cofactors(u, v, w, tv, s0 * Pow2(k), s0 + s1, t0 * Pow2(k), t0 + t1, p + k)
  {
    PowAdd(2, p, k);
    PowPositive(2, k);
    CombinationStep(u, t0, tu, t1, tv, Pow2(k), w);
    CombinationStep(v, s0, tu, s1, tv, Pow2(k), w);
    DeterminantStep(t0, s1, t1, s0, Pow2(k));
    MulNonneg(s0, Pow2(k));
    MulNonneg(t0, Pow2(k));
  }

  lemma CofactorsSmaller(u: int, v: int, tu: int, tv: int, s0: int, s1: int, t0: int, t1: int, p: nat, w: int, k: nat)
    requires Cofactors(u, v, tu, tv, s0, s1, t0, t1, p) && tv - tu == w * Pow2(k)
    ensures Cofactors(u, v, tu, w, s0 + s1, s1 * Pow2(k), t0 + t1, t1 * Pow2(k), p + k)
  {
    PowAdd(2, p, k);
    PowPositive(2, k);
    CombinationStep(u, t1, tv, t0, tu, Pow2(k), w);
    CombinationStep(v, s1, tv, s0, tu, Pow2(k), w);
    DeterminantStep(t0, s1, t1, s0, Pow2(k));
    MulNonneg(s1, Pow2(k));
    MulNonneg(t1, Pow2(k));
  }

  // The first division, tu = q tv + r.
  lemma CofactorsStart(tu: int, tv: int, q: int, r: int, uz: nat, vz: nat)
    requires tu == q * tv + r && 0 <= q
    ensures Cofactors(tu * Pow2(uz), tv * Pow2(vz), r, tv, 0, Pow2(vz), Pow2(uz), q * Pow2(uz), uz + vz)
  {
    PowAdd(2, uz, vz);
    PowPositive(2, uz);
    PowPositive(2, vz);
    MulNonneg(q, Pow2(uz));
    assert (q * tv + r) * Pow2(uz) == Pow2(uz) * r + q * Pow2(uz) * tv;
  }

  lemma CofactorsShift(u: int, v: int, tu: int, tv: int, s1: int, t0: int, t1: int, p: nat, w: int, k: nat)
    requires Cofactors(u, v, tu, tv, 0, s1, t0, t1, p) && tu == w * Pow2(k)
    ensures Cofactors(u, v, w, tv, 0, s1, t0 * Pow2(k), t1, p + k)
  {
    PowAdd(2, p, k);
    PowPositive(2, k);
    MulNonneg(t0, Pow2(k));
    assert t0 * (w * Pow2(k)) == t0 * Pow2(k) * w;
    assert t0 * Pow2(k) * s1 == t0 * s1 * Pow2(k);
  }

  /** s a + t b = 2^p with the cofactors between zero and the other number, one of a and b odd. */
  ghost predicate Halving(a: int, b: int, s: int, t: int, p: nat) {
    && s * a + t * b == Pow2(p)
    && -b <= s <= 0 <= t <= a
    && 0 < a && 0 < b && (a % 2 == 1 || b % 2 == 1)
  }

  lemma EvenTimes(x: int, y: int, h: int)
    requires x == 2 * h
    ensures x * y % 2 == 0
  {
    Assoc(2, h, y);
  }

  lemma OddTimesOdd(x: int, y: int, h: int, k: int)
    requires x == 2 * h + 1 && y == 2 * k + 1
    ensures x * y % 2 == 1
  {
    ProductOfOdds(h, k);
  }

  lemma ProductParity(x: int, y: int)
    ensures (x * y) % 2 == if x % 2 == 1 && y % 2 == 1 then 1 else 0
  {
    if x % 2 == 0 {
      EvenTimes(x, y, x / 2);
    } else if y % 2 == 0 {
      EvenTimes(y, x, y / 2);
    } else {
      OddTimesOdd(x, y, x / 2, y / 2);
    }
  }

  lemma HalvedCombination(s: int, a: int, t: int, b: int, h: int)
    requires s * a + t * b == 2 * h && s % 2 == 0 && t % 2 == 0
    ensures s / 2 * a + t / 2 * b == h
  {
    Assoc(2, s / 2, a);
    Assoc(2, t / 2, b);
  }

  lemma SameParity(x: int, y: int, h: int)
    requires x + y == h + h
    ensures x % 2 == y % 2
  {
  }

  // One of a and b is odd, and s a + t b is even: s and t have the parities of b and a, or are both even.
  lemma HalvingParity(s: int, a: int, t: int, b: int, h: int)
    requires (a % 2 == 1 || b % 2 == 1) && s * a + t * b == h + h
    ensures s % 2 == 1 || t % 2 == 1 ==> s % 2 == b % 2 && t % 2 == a % 2
  {
    ProductParity(s, a);
    ProductParity(t, b);
    SameParity(s * a, t * b, h);
  }

  lemma MovedCombination(s: int, a: int, t: int, b: int)
    ensures (s - b) * a + (t + a) * b == s * a + t * b
  {
    Distribute(a, s, b);
    Distribute(b, t, a);
  }

  lemma EvenDifference(x: int, y: int)
    ensures x % 2 == y % 2 ==> (x - y) % 2 == 0
  {
  }

  lemma EvenSumOf(x: int, y: int)
    ensures x % 2 == y % 2 ==> (x + y) % 2 == 0
  {
  }

  lemma MovedParity(a: int, b: int, s: int, t: int, h: int, s': int, t': int)
    requires (a % 2 == 1 || b % 2 == 1) && s * a + t * b == h + h
    requires if s % 2 == 1 || t % 2 == 1 then s' == s - b && t' == t + a else s' == s && t' == t
    ensures s' % 2 == 0 && t' % 2 == 0
  {
    HalvingParity(s, a, t, b, h);
    EvenDifference(s, b);
    EvenSumOf(t, a);
  }

  lemma MovedHalves(a: int, b: int, s: int, t: int, h: int, s': int, t': int)
    requires s * a + t * b == 2 * h && s' % 2 == 0 && t' % 2 == 0
    requires (s' == s - b && t' == t + a) || (s' == s && t' == t)
    ensures s' / 2 * a + t' / 2 * b == h
  {
    MovedCombination(s, a, t, b);
    HalvedCombination(s', a, t', b, h);
  }

  /** A factor of two comes out of both cofactors, if need be after moving them by (-b, a). */
  lemma HalvingStep(a: int, b: int, s: int, t: int, p: nat, s': int, t': int)
    requires Halving(a, b, s, t, p) && 0 < p
    requires if s % 2 == 1 || t % 2 == 1 then s' == s - b && t' == t + a else s' == s && t' == t
    ensures s' % 2 == 0 && t' % 2 == 0 && Halving(a, b, s' / 2, t' / 2, p - 1)
  {
    PowStep(2, p - 1);
    MovedParity(a, b, s, t, Pow2(p - 1), s', t');
    MovedHalves(a, b, s, t, Pow2(p - 1), s', t');
  }

  lemma OddQuotient(u: int, a: int, g: int)
    requires u == a * g && 0 < u && 0 < g
    ensures 0 < a && (u % 2 == 1 ==> a % 2 == 1)
  {
    ProductParity(a, g);
    MulCancel(0, a, g);
  }

  lemma EqualAtEnd(u: int, v: int, g: int, s0: int, s1: int, t0: int, t1: int)
    requires u == t0 * g + t1 * g && v == s0 * g + s1 * g
    ensures u == (t0 + t1) * g && v == (s0 + s1) * g
    ensures -s0 * (t0 + t1) + t0 * (s0 + s1) == t0 * s1 - t1 * s0
  {
    Distribute(g, t0, t1);
    Distribute(g, s0, s1);
    Distribute(t0, s0, s1);
    Distribute(s0, t0, t1);
  }

  // The cofactors when the subtraction phase ends.
  lemma HalvingStart(u: int, v: int, tu: int, tv: int, s0: int, s1: int, t0: int, t1: int, p: nat)
    returns (a: int, b: int)
    requires Cofactors(u, v, tu, tv, s0, s1, t0, t1, p) && 0 < tv && 0 < u && 0 < v && (u % 2 == 1 || v % 2 == 1)
    requires tu == tv || (tu == 0 && s0 == 0 && t0 <= t1)
    ensures u == a * tv && v == b * tv && Halving(a, b, -s0, t0, p)
  {
    if tu == tv {
      a, b := t0 + t1, s0 + s1;
      EqualAtEnd(u, v, tv, s0, s1, t0, t1);
    } else {
      a, b := t1, s1;
    }
    OddQuotient(u, a, tv);
    OddQuotient(v, b, tv);
  }

  // --- the numbers ---

  /** Well-formed and sharing nothing with the others. */
  ghost predicate Alone(x: Mpz, a: Mpz, b: Mpz, c: Mpz, e: Mpz, f: Mpz)
    reads x, a, b, c, e, f, x.d
  {
    && x.Valid()
    && x != a && x != b && x != c && x != e && x != f
    && x.d != a.d && x.d != b.d && x.d != c.d && x.d != e.d && x.d != f.d
  }

  ghost predicate Disjoint(x: Mpz, y: Mpz, a: Mpz, b: Mpz, c: Mpz, e: Mpz)
    reads x, y, a, b, c, e, x.d, y.d, a.d, b.d, c.d, e.d
  {
    && Alone(x, y, a, b, c, e) && Alone(y, x, a, b, c, e) && Alone(a, x, y, b, c, e)
    && Alone(b, x, y, a, c, e) && Alone(c, x, y, a, b, e) && Alone(e, x, y, a, b, c)
  }

  // yt += xt and ys += xs
  method AddPair(yt: Mpz, ys: Mpz, xt: Mpz, xs: Mpz)
    requires Separate(yt, ys) && Separate(yt, xt) && Separate(yt, xs) && Separate(ys, xt) && Separate(ys, xs)
    modifies yt, yt.d, ys, ys.d
    ensures yt.Valid() && ys.Valid() && yt.d != ys.d
    ensures yt.Value() == old(yt.Value()) + old(xt.Value()) && ys.Value() == old(ys.Value()) + old(xs.Value())
    ensures (yt.d == old(yt.d) || fresh(yt.d)) && (ys.d == old(ys.d) || fresh(ys.d))
  {
    yt.Add(xt, yt);
    ys.Add(xs, ys);
  }

  method ScalePair(xt: Mpz, xs: Mpz, shift: nat)
    requires Separate(xt, xs)
    modifies xt, xt.d, xs, xs.d
    ensures xt.Valid() && xs.Valid() && xt.d != xs.d
    ensures xt.Value() == old(xt.Value()) * Pow2(shift) && xs.Value() == old(xs.Value()) * Pow2(shift)
    ensures (xt.d == old(xt.d) || fresh(xt.d)) && (xs.d == old(xs.d) || fresh(xs.d))
  {
    xt.Mul2exp(xt, shift);
    xs.Mul2exp(xs, shift);
  }

  // The odd part of x, its power of two going to the cofactors.
  method OddAndScale(x: Mpz, xt: Mpz, xs: Mpz) returns (shift: nat)
    requires Separate(x, xt) && Separate(x, xs) && Separate(xt, xs) && 0 < x.Value()
    modifies x, x.d, xt, xt.d, xs, xs.d
    ensures x.Valid() && xt.Valid() && xs.Valid() && x.d != xt.d && x.d != xs.d && xt.d != xs.d
    ensures x.Value() % 2 == 1 && 0 < x.Value() <= old(x.Value()) && old(x.Value()) == x.Value() * Pow2(shift)
    ensures xt.Value() == old(xt.Value()) * Pow2(shift) && xs.Value() == old(xs.Value()) * Pow2(shift)
    ensures (x.d == old(x.d) || fresh(x.d)) && (xt.d == old(xt.d) || fresh(xt.d)) && (xs.d == old(xs.d) || fresh(xs.d))
  {
    shift := MakeOdd(x, x.Value());
    ScalePair(xt, xs, shift);
  }

  /** One subtraction: x becomes the odd part of x - y and the cofactors follow. */
  method ReduceBy(x: Mpz, y: Mpz, xt: Mpz, xs: Mpz, yt: Mpz, ys: Mpz) returns (shift: nat)
    requires Disjoint(x, y, xt, xs, yt, ys) && y.Value() < x.Value()
    modifies x, x.d, xt, xt.d, xs, xs.d, yt, yt.d, ys, ys.d
    ensures Disjoint(x, y, xt, xs, yt, ys)
    ensures x.Value() % 2 == 1 && 0 < x.Value() && old(x.Value()) - y.Value() == x.Value() * Pow2(shift)
    ensures x.Value() <= old(x.Value()) - y.Value()
    ensures yt.Value() == old(yt.Value()) + old(xt.Value()) && ys.Value() == old(ys.Value()) + old(xs.Value())
    ensures xt.Value() == old(xt.Value()) * Pow2(shift) && xs.Value() == old(xs.Value()) * Pow2(shift)
    ensures (x.d == old(x.d) || fresh(x.d))
    ensures (xt.d == old(xt.d) || fresh(xt.d)) && (xs.d == old(xs.d) || fresh(xs.d))
    ensures (yt.d == old(yt.d) || fresh(yt.d)) && (ys.d == old(ys.d) || fresh(ys.d))
  {
    x.Sub(x, y);
    AddPair(yt, ys, xt, xs);
    shift := OddAndScale(x, xt, xs);
  }

  /** The integers that the six numbers hold. */
  datatype Cofs = Cofs(tu: int, tv: int, s0: int, s1: int, t0: int, t1: int)

  ghost predicate Holds(tu: Mpz, tv: Mpz, s0: Mpz, s1: Mpz, t0: Mpz, t1: Mpz, c: Cofs)
    reads tu, tv, s0, s1, t0, t1, tu.d, tv.d, s0.d, s1.d, t0.d, t1.d
  {
    && Disjoint(tu, tv, t0, s0, t1, s1)
    && tu.Value() == c.tu && tv.Value() == c.tv && s0.Value() == c.s0 && s1.Value() == c.s1
    && t0.Value() == c.t0 && t1.Value() == c.t1
  }

  /** The loop state: positive odd tu and tv with their cofactors. */
  ghost predicate State(c: Cofs, u: int, v: int, p: nat) {
    && 0 < c.tu && 0 < c.tv && c.tu % 2 == 1 && c.tv % 2 == 1
    && Cofactors(u, v, c.tu, c.tv, c.s0, c.s1, c.t0, c.t1, p)
  }

  lemma StateLarger(c: Cofs, u: int, v: int, p: nat, w: int, k: nat, c': Cofs)
    requires State(c, u, v, p) && c.tu - c.tv == w * Pow2(k) && 0 < w && w % 2 == 1
    requires c' == Cofs(w, c.tv, c.s0 * Pow2(k), c.s0 + c.s1, c.t0 * Pow2(k), c.t0 + c.t1)
    ensures State(c', u, v, p + k)
  {
    CofactorsLarger(u, v, c.tu, c.tv, c.s0, c.s1, c.t0, c.t1, p, w, k);
  }

  lemma StateSmaller(c: Cofs, u: int, v: int, p: nat, w: int, k: nat, c': Cofs)
    requires State(c, u, v, p) && c.tv - c.tu == w * Pow2(k) && 0 < w && w % 2 == 1
    requires c' == Cofs(c.tu, w, c.s0 + c.s1, c.s1 * Pow2(k), c.t0 + c.t1, c.t1 * Pow2(k))
    ensures State(c', u, v, p + k)
  {
    CofactorsSmaller(u, v, c.tu, c.tv, c.s0, c.s1, c.t0, c.t1, p, w, k);
  }

  // tu is the larger number.
  method SubtractFromU(tu: Mpz, tv: Mpz, s0: Mpz, s1: Mpz, t0: Mpz, t1: Mpz, ghost c: Cofs)
    returns (shift: nat, ghost c': Cofs)
    requires Holds(tu, tv, s0, s1, t0, t1, c) && c.tv < c.tu
    modifies tu, tu.d, t0, t0.d, s0, s0.d, t1, t1.d, s1, s1.d
    ensures Holds(tu, tv, s0, s1, t0, t1, c')
    ensures c' == Cofs(c'.tu, c.tv, c.s0 * Pow2(shift), c.s0 + c.s1, c.t0 * Pow2(shift), c.t0 + c.t1)
    ensures c.tu - c.tv == c'.tu * Pow2(shift) && 0 < c'.tu <= c.tu - c.tv && c'.tu % 2 == 1
    ensures tu.d == old(tu.d) || fresh(tu.d)
    ensures (t0.d == old(t0.d) || fresh(t0.d)) && (s0.d == old(s0.d) || fresh(s0.d))
    ensures (t1.d == old(t1.d) || fresh(t1.d)) && (s1.d == old(s1.d) || fresh(s1.d))
  {
    shift := ReduceBy(tu, tv, t0, s0, t1, s1);
    c' := Cofs(tu.Value(), tv.Value(), s0.Value(), s1.Value(), t0.Value(), t1.Value());
  }

  // tv is the larger number.
  method SubtractFromV(tu: Mpz, tv: Mpz, s0: Mpz, s1: Mpz, t0: Mpz, t1: Mpz, ghost c: Cofs)
    returns (shift: nat, ghost c': Cofs)
    requires Holds(tu, tv, s0, s1, t0, t1, c) && c.tu < c.tv
    modifies tv, tv.d, t0, t0.d, s0, s0.d, t1, t1.d, s1, s1.d
    ensures Holds(tu, tv, s0, s1, t0, t1, c')
    ensures c' == Cofs(c.tu, c'.tv, c.s0 + c.s1, c.s1 * Pow2(shift), c.t0 + c.t1, c.t1 * Pow2(shift))
    ensures c.tv - c.tu == c'.tv * Pow2(shift) && 0 < c'.tv <= c.tv - c.tu && c'.tv % 2 == 1
    ensures tv.d == old(tv.d) || fresh(tv.d)
    ensures (t0.d == old(t0.d) || fresh(t0.d)) && (s0.d == old(s0.d) || fresh(s0.d))
    ensures (t1.d == old(t1.d) || fresh(t1.d)) && (s1.d == old(s1.d) || fresh(s1.d))
  {
    shift := ReduceBy(tv, tu, t1, s1, t0, s0);
    c' := Cofs(tu.Value(), tv.Value(), s0.Value(), s1.Value(), t0.Value(), t1.Value());
  }

  // One turn of the loop, unless the numbers are equal.
  method SubtractOnce(tu: Mpz, tv: Mpz, s0: Mpz, s1: Mpz, t0: Mpz, t1: Mpz, ghost c: Cofs)
    returns (equal: bool, shift: nat, ghost c': Cofs)
    requires Holds(tu, tv, s0, s1, t0, t1, c)
    modifies tu, tu.d, tv, tv.d, t0, t0.d, s0, s0.d, t1, t1.d, s1, s1.d
    ensures Holds(tu, tv, s0, s1, t0, t1, c') && equal == (c.tu == c.tv) && (equal ==> c' == c)
    ensures c.tu > c.tv ==>
      && c' == Cofs(c'.tu, c.tv, c.s0 * Pow2(shift), c.s0 + c.s1, c.t0 * Pow2(shift), c.t0 + c.t1)
      && c.tu - c.tv == c'.tu * Pow2(shift) && 0 < c'.tu <= c.tu - c.tv && c'.tu % 2 == 1
    ensures c.tu < c.tv ==>
      && c' == Cofs(c.tu, c'.tv, c.s0 + c.s1, c.s1 * Pow2(shift), c.t0 + c.t1, c.t1 * Pow2(shift))
      && c.tv - c.tu == c'.tv * Pow2(shift) && 0 < c'.tv <= c.tv - c.tu && c'.tv % 2 == 1
    ensures (tu.d == old(tu.d) || fresh(tu.d)) && (tv.d == old(tv.d) || fresh(tv.d))
    ensures (t0.d == old(t0.d) || fresh(t0.d)) && (s0.d == old(s0.d) || fresh(s0.d))
    ensures (t1.d == old(t1.d) || fresh(t1.d)) && (s1.d == old(s1.d) || fresh(s1.d))
  {
    var o := tu.Cmp(tv);
    equal, shift, c' := o == 0, 0, c;
    if o < 0 {
      shift, c' := SubtractFromV(tu, tv, s0, s1, t0, t1, c);
    } else if o > 0 {
      shift, c' := SubtractFromU(tu, tv, s0, s1, t0, t1, c);
    }
  }

  /** One turn keeps the cofactor equations and the determinant, and lowers tu + tv. */
  lemma SubtractStep(c: Cofs, u: int, v: int, p: nat, shift: nat, c': Cofs)
    requires State(c, u, v, p) && c.tu != c.tv
    requires c.tu > c.tv ==>
      && c' == Cofs(c'.tu, c.tv, c.s0 * Pow2(shift), c.s0 + c.s1, c.t0 * Pow2(shift), c.t0 + c.t1)
      && c.tu - c.tv == c'.tu * Pow2(shift) && 0 < c'.tu <= c.tu - c.tv && c'.tu % 2 == 1
    requires c.tu < c.tv ==>
      && c' == Cofs(c.tu, c'.tv, c.s0 + c.s1, c.s1 * Pow2(shift), c.t0 + c.t1, c.t1 * Pow2(shift))
      && c.tv - c.tu == c'.tv * Pow2(shift) && 0 < c'.tv <= c.tv - c.tu && c'.tv % 2 == 1
    ensures State(c', u, v, p + shift) && c'.tu + c'.tv < c.tu + c.tv
  {
    if c.tu > c.tv {
      StateLarger(c, u, v, p, c'.tu, shift, c');
    } else {
      StateSmaller(c, u, v, p, c'.tv, shift, c');
    }
  }

  method SubtractTurn(tu: Mpz, tv: Mpz, s0: Mpz, s1: Mpz, t0: Mpz, t1: Mpz, ghost c: Cofs, ghost u: int, ghost v: int,
                      p: nat)
    returns (equal: bool, power: nat, ghost c': Cofs)
    requires Holds(tu, tv, s0, s1, t0, t1, c) && State(c, u, v, p)
    modifies tu, tu.d, tv, tv.d, t0, t0.d, s0, s0.d, t1, t1.d, s1, s1.d
    ensures Holds(tu, tv, s0, s1, t0, t1, c') && State(c', u, v, power)
    ensures if equal then c'.tu == c'.tv else c'.tu + c'.tv < c.tu + c.tv
    ensures (tu.d == old(tu.d) || fresh(tu.d)) && (tv.d == old(tv.d) || fresh(tv.d))
    ensures (t0.d == old(t0.d) || fresh(t0.d)) && (s0.d == old(s0.d) || fresh(s0.d))
    ensures (t1.d == old(t1.d) || fresh(t1.d)) && (s1.d == old(s1.d) || fresh(s1.d))
  {
    var shift: nat;
    equal, shift, c' := SubtractOnce(tu, tv, s0, s1, t0, t1, c);
    power := p;
    if !equal {
      SubtractStep(c, u, v, p, shift, c');
      power := p + shift;
    }
  }

  /** Subtracts until both numbers are the gcd; returns the power of two in the determinant. */
  method SubtractAll(tu: Mpz, tv: Mpz, s0: Mpz, s1: Mpz, t0: Mpz, t1: Mpz, ghost c0: Cofs, ghost u: int, ghost v: int,
                     p: nat)
    returns (power: nat, ghost c: Cofs)
    requires Holds(tu, tv, s0, s1, t0, t1, c0) && State(c0, u, v, p)
    modifies tu, tu.d, tv, tv.d, t0, t0.d, s0, s0.d, t1, t1.d, s1, s1.d
    ensures Holds(tu, tv, s0, s1, t0, t1, c) && State(c, u, v, power) && c.tu == c.tv
    ensures (tu.d == old(tu.d) || fresh(tu.d)) && (tv.d == old(tv.d) || fresh(tv.d))
    ensures (t0.d == old(t0.d) || fresh(t0.d)) && (s0.d == old(s0.d) || fresh(s0.d))
    ensures (t1.d == old(t1.d) || fresh(t1.d)) && (s1.d == old(s1.d) || fresh(s1.d))
  {
    power, c := p, c0;
    while true
      invariant Holds(tu, tv, s0, s1, t0, t1, c) && State(c, u, v, power)
      invariant (tu.d == old(tu.d) || fresh(tu.d)) && (tv.d == old(tv.d) || fresh(tv.d))
      invariant (t0.d == old(t0.d) || fresh(t0.d)) && (s0.d == old(s0.d) || fresh(s0.d))
      invariant (t1.d == old(t1.d) || fresh(t1.d)) && (s1.d == old(s1.d) || fresh(s1.d))
      decreases c.tu + c.tv
    {
      var equal: bool;
      equal, power, c := SubtractTurn(tu, tv, s0, s1, t0, t1, c, u, v, power);
      if equal {
        break;
      }
    }
  }

  lemma LimbPower(k: nat)
    requires k < LIMB_BITS
    ensures 0 < Pow2(k) < B
  {
    Pow2Values();
    PowPositive(2, k);
    PowMono(2, k, LIMB_BITS);
  }

  lemma PowerOfTwoLimbs(s: seq<Limb>, l: nat, c: nat)
    requires |s| == l + 1 && c < LIMB_BITS && (forall i :: 0 <= i < l ==> s[i] == 0) && s[l] == Pow2(c)
    ensures Val(s) == Pow2(LIMB_BITS * l + c)
  {
    assert s[..l + 1] == s;
    ValPrefix(s, l);
    ValZeros(s[..l]);
    PlaceIsPow2(l);
    PowAdd(2, LIMB_BITS * l, c);
  }

  lemma OneShifted(c: nat)
    requires c < LIMB_BITS
    ensures 0 < Shl(1, c) == Pow2(c)
  {
    LimbPower(c);
    DivModUnique(Pow2(c), B, 0, Pow2(c));
  }

  /** mpz_setbit on zero. */
  method SetPower(z: Mpz, k: nat)
    requires z.Valid() && z.size == 0
    modifies z, z.d
    ensures z.Valid() && z.Value() == Pow2(k)
    ensures z.d == old(z.d) || fresh(z.d)
  {
    var l, c := k / LIMB_BITS, k % LIMB_BITS;
    OneShifted(c);
    z.Realloc(l + 1);
    z.d[l] := Shl(1, c);
    Zero(z.d, 0, l);
    z.size := l + 1;
    PowerOfTwoLimbs(z.d[..l + 1], l, c);
  }

  // The division that starts the cofactors.
  method DivideOnce(t1: Mpz, tu: Mpz, tv: Mpz, uz: nat, ghost x: int, ghost y: int) returns (ghost q: int)
    requires Separate(t1, tu) && Separate(t1, tv) && Separate(tu, tv) && x == tu.Value() && y == tv.Value()
    requires 0 < x && 0 < y
    modifies t1, t1.d, tu, tu.d
    ensures t1.Valid() && tu.Valid() && t1.d != tu.d
    ensures x == q * y + tu.Value() && 0 <= tu.Value() < y && 0 <= q && t1.Value() == q * Pow2(uz)
    ensures (t1.d == old(t1.d) || fresh(t1.d)) && (tu.d == old(tu.d) || fresh(tu.d))
  {
    Signs(tv);
    var _, q', r := DivQrMpz(t1, tu, tu, tv, Trunc, x, y);
    q := q';
    TruncOfPositive(x, y, q, r);
    t1.Mul2exp(t1, uz);
  }

  lemma StartParity(tu: int, tv: int, uz: nat, vz: nat)
    requires 0 < tu && 0 < tv && tu % 2 == 1 && tv % 2 == 1 && (uz == 0 || vz == 0)
    ensures 0 < tu * Pow2(uz) && 0 < tv * Pow2(vz)
    ensures tu * Pow2(uz) % 2 == 1 || tv * Pow2(vz) % 2 == 1
  {
    PowStep(2, 0);
    PowPositive(2, uz);
    PowPositive(2, vz);
    MulStrict(0, tu, Pow2(uz));
    MulStrict(0, tv, Pow2(vz));
  }

  lemma QuotientPositive(x: int, q: int, y: int, m: int)
    requires 0 < x && x == q * y && 0 < y && 0 < m
    ensures m <= q * m
  {
    MulCancel(0, q, y);
    MulMono(1, q, m);
  }

  /** The state after the first division, which may already have left nothing of tu. */
  ghost predicate Started(c: Cofs, u: int, v: int, p: nat) {
    && 0 <= c.tu && 0 < c.tv && c.tv % 2 == 1 && c.s0 == 0 && (c.tu == 0 ==> c.t0 <= c.t1)
    && Cofactors(u, v, c.tu, c.tv, c.s0, c.s1, c.t0, c.t1, p)
  }

  lemma StartedIs(x: int, y: int, q: int, r: int, uz: nat, vz: nat, c: Cofs)
    requires x == q * y + r && 0 <= r && 0 <= q && 0 < x && 0 < y && y % 2 == 1
    requires c == Cofs(r, y, 0, Pow2(vz), Pow2(uz), q * Pow2(uz))
    ensures Started(c, x * Pow2(uz), y * Pow2(vz), uz + vz)
  {
    CofactorsStart(x, y, q, r, uz, vz);
    if r == 0 {
      PowPositive(2, uz);
      QuotientPositive(x, q, y, Pow2(uz));
    }
  }

  method StartCofactors(tu: Mpz, tv: Mpz, s0: Mpz, s1: Mpz, t0: Mpz, t1: Mpz, uz: nat, vz: nat, ghost x: int,
                        ghost y: int)
    returns (ghost c: Cofs)
    requires Disjoint(tu, tv, t0, s0, t1, s1) && x == tu.Value() && y == tv.Value() && 0 < x && 0 < y && y % 2 == 1
    requires s0.size == 0 && s1.size == 0 && t0.size == 0
    modifies tu, tu.d, t0, t0.d, t1, t1.d, s1, s1.d
    ensures Holds(tu, tv, s0, s1, t0, t1, c) && Started(c, x * Pow2(uz), y * Pow2(vz), uz + vz)
    ensures (tu.d == old(tu.d) || fresh(tu.d)) && (t0.d == old(t0.d) || fresh(t0.d))
    ensures (t1.d == old(t1.d) || fresh(t1.d)) && (s1.d == old(s1.d) || fresh(s1.d))
  {
    SetPower(t0, uz);
    ghost var q := DivideOnce(t1, tu, tv, uz, x, y);
    SetPower(s1, vz);
    Signs(s0);
    c := Cofs(tu.Value(), y, 0, Pow2(vz), Pow2(uz), q * Pow2(uz));
    StartedIs(x, y, q, c.tu, uz, vz, c);
  }

  method ShiftStart(tu: Mpz, tv: Mpz, s0: Mpz, s1: Mpz, t0: Mpz, t1: Mpz, ghost c: Cofs, ghost u: int, ghost v: int,
                    p: nat)
    returns (power: nat, ghost c': Cofs)
    requires Holds(tu, tv, s0, s1, t0, t1, c) && Started(c, u, v, p) && 0 < c.tu
    modifies tu, tu.d, t0, t0.d, s0, s0.d
    ensures Holds(tu, tv, s0, s1, t0, t1, c') && State(c', u, v, power)
    ensures tu.d == old(tu.d) || fresh(tu.d)
    ensures (t0.d == old(t0.d) || fresh(t0.d)) && (s0.d == old(s0.d) || fresh(s0.d))
  {
    var shift := OddAndScale(tu, t0, s0);
    c' := Cofs(tu.Value(), c.tv, 0, c.s1, c.t0 * Pow2(shift), c.t1);
    CofactorsShift(u, v, c.tu, c.tv, c.s1, c.t0, c.t1, p, c'.tu, shift);
    power := p + shift;
  }

  /** The end of the subtraction phase: tv is the gcd of u and v, with quotients a and b. */
  ghost predicate Ended(c: Cofs, u: int, v: int, a: int, b: int, p: nat) {
    0 < c.tv && u == a * c.tv && v == b * c.tv && Halving(a, b, -c.s0, c.t0, p)
  }

  lemma EndedFrom(c: Cofs, u: int, v: int, p: nat) returns (a: int, b: int)
    requires Started(c, u, v, p) || State(c, u, v, p)
    requires c.tu == c.tv || (c.tu == 0 && c.s0 == 0 && c.t0 <= c.t1)
    requires 0 < u && 0 < v && (u % 2 == 1 || v % 2 == 1)
    ensures Ended(c, u, v, a, b, p)
  {
    a, b := HalvingStart(u, v, c.tu, c.tv, c.s0, c.s1, c.t0, c.t1, p);
  }

  method SubtractFrom(tu: Mpz, tv: Mpz, s0: Mpz, s1: Mpz, t0: Mpz, t1: Mpz, ghost c0: Cofs, ghost u: int, ghost v: int,
                      p: nat)
    returns (power: nat, ghost c: Cofs)
    requires Holds(tu, tv, s0, s1, t0, t1, c0) && Started(c0, u, v, p)
    modifies tu, tu.d, tv, tv.d, t0, t0.d, s0, s0.d, t1, t1.d, s1, s1.d
    ensures Holds(tu, tv, s0, s1, t0, t1, c)
    ensures (c.tu == c.tv && State(c, u, v, power)) || (c.tu == 0 && Started(c, u, v, power))
    ensures (tu.d == old(tu.d) || fresh(tu.d)) && (tv.d == old(tv.d) || fresh(tv.d))
    ensures (t0.d == old(t0.d) || fresh(t0.d)) && (s0.d == old(s0.d) || fresh(s0.d))
    ensures (t1.d == old(t1.d) || fresh(t1.d)) && (s1.d == old(s1.d) || fresh(s1.d))
  {
    Signs(tu);
    power, c := p, c0;
    if tu.size > 0 {
      power, c := ShiftStart(tu, tv, s0, s1, t0, t1, c, u, v, power);
      power, c := SubtractAll(tu, tv, s0, s1, t0, t1, c, u, v, power);
    }
  }

  // --- taking the power of two out of the cofactors ---

  lemma LowLimbParity(s: seq<Limb>)
    requires s != []
    ensures Val(s) % 2 == s[0] % 2 && -Val(s) % 2 == s[0] % 2
  {
    ValCons(s);
    EvenAbove(s[0], Val(s[1..]), HIGHBIT);
  }

  lemma EvenAbove(x: int, h: int, m: int)
    ensures (x + 2 * m * h) % 2 == x % 2 && -(x + 2 * m * h) % 2 == x % 2
  {
    Assoc(2, m, h);
  }

  /** mpz_odd_p. */
  method OddP(x: Mpz) returns (odd: bool)
    requires x.Valid()
    ensures odd == (x.Value() % 2 == 1)
  {
    Signs(x);
    odd := false;
    if x.size != 0 {
      LowLimbParity(x.d[..AbsInt(x.size)]);
      odd := x.d[0] % 2 == 1;
    }
  }

  // An even number divided by two.
  method Halve(x: Mpz, ghost v: int)
    requires x.Valid() && v == x.Value() && v % 2 == 0
    modifies x, x.d
    ensures x.Valid() && x.Value() == v / 2 && (x.d == old(x.d) || fresh(x.d))
  {
    var q, r := DivQ2exp(x, x, 1, Trunc, v);
    PowStep(2, 0);
    DivisionUnique(v, 2, Trunc, q, r, v / 2, 0);
  }

  method HalveBoth(s0: Mpz, t0: Mpz, ghost s: int, ghost t: int)
    requires Separate(s0, t0) && s == s0.Value() && t == t0.Value() && s % 2 == 0 && t % 2 == 0
    modifies s0, s0.d, t0, t0.d
    ensures Separate(s0, t0) && (s0.d == old(s0.d) || fresh(s0.d)) && (t0.d == old(t0.d) || fresh(t0.d))
    ensures s0.Value() == s / 2 && t0.Value() == t / 2
  {
    Halve(s0, s);
    Halve(t0, t);
  }

  // (s0, t0) + (-s1, t1)
  method MoveCofactors(s0: Mpz, t0: Mpz, s1: Mpz, t1: Mpz)
    requires Separate(s0, t0) && Separate(s0, s1) && Separate(s0, t1) && Separate(t0, s1) && Separate(t0, t1)
    modifies s0, s0.d, t0, t0.d
    ensures Separate(s0, t0) && (s0.d == old(s0.d) || fresh(s0.d)) && (t0.d == old(t0.d) || fresh(t0.d))
    ensures s0.Value() == old(s0.Value()) - s1.Value() && t0.Value() == old(t0.Value()) + t1.Value()
  {
    s0.Sub(s0, s1);
    t0.Add(t0, t1);
  }

  /** One turn of the loop that halves the cofactors. */
  method HalveCofactors(s0: Mpz, t0: Mpz, s1: Mpz, t1: Mpz, ghost a: int, ghost b: int, ghost p: nat)
    requires Separate(s0, t0) && Separate(s0, s1) && Separate(s0, t1) && Separate(t0, s1) && Separate(t0, t1)
    requires a == t1.Value() && b == s1.Value() && 0 < p && Halving(a, b, s0.Value(), t0.Value(), p)
    modifies s0, s0.d, t0, t0.d
    ensures s0.Valid() && t0.Valid() && s0.d != t0.d
    ensures Halving(a, b, s0.Value(), t0.Value(), p - 1)
    ensures (s0.d == old(s0.d) || fresh(s0.d)) && (t0.d == old(t0.d) || fresh(t0.d))
  {
    ghost var s, t := s0.Value(), t0.Value();
    var sodd := OddP(s0);
    var todd := OddP(t0);
    if sodd || todd {
      MoveCofactors(s0, t0, s1, t1);
    }
    HalvingStep(a, b, s, t, p, s0.Value(), t0.Value());
    HalveBoth(s0, t0, s0.Value(), t0.Value());
  }

  method HalveAll(s0: Mpz, t0: Mpz, s1: Mpz, t1: Mpz, ghost a: int, ghost b: int, p: nat)
    requires Separate(s0, t0) && Separate(s0, s1) && Separate(s0, t1) && Separate(t0, s1) && Separate(t0, t1)
    requires a == t1.Value() && b == s1.Value() && Halving(a, b, s0.Value(), t0.Value(), p)
    modifies s0, s0.d, t0, t0.d
    ensures s0.Valid() && t0.Valid() && s0.d != t0.d
    ensures Halving(a, b, s0.Value(), t0.Value(), 0)
    ensures (s0.d == old(s0.d) || fresh(s0.d)) && (t0.d == old(t0.d) || fresh(t0.d))
  {
    var power := p;
    while power > 0
      invariant Separate(s0, t0) && Separate(s0, s1) && Separate(s0, t1) && Separate(t0, s1) && Separate(t0, t1)
      invariant a == t1.Value() && b == s1.Value() && Halving(a, b, s0.Value(), t0.Value(), power)
      invariant (s0.d == old(s0.d) || fresh(s0.d)) && (t0.d == old(t0.d) || fresh(t0.d))
    {
      HalveCofactors(s0, t0, s1, t1, a, b, power);
      power := power - 1;
    }
  }

  /** Cofactors of coprime a and b: s is at most half of b in size, t at most a. */
  ghost predicate SmallCofactors(a: int, b: int, s: int, t: int) {
    s * a + t * b == 1 && 2 * AbsInt(s) <= b && AbsInt(t) <= a
  }

  lemma SmallerCofactors(a: int, b: int, s: int, t: int)
    requires Halving(a, b, s, t, 0)
    ensures if AbsInt(s) > AbsInt(s + b) then SmallCofactors(a, b, s + b, t - a) else SmallCofactors(a, b, s, t)
  {
    PowStep(2, 0);
    Distribute(a, s, b);
    Distribute(b, t, a);
  }

  /** Of the two neighbouring cofactors the smaller one is taken. */
  method TakeSmaller(s0: Mpz, t0: Mpz, s1: Mpz, t1: Mpz, ghost a: int, ghost b: int)
    requires Separate(s0, t0) && Separate(s0, s1) && Separate(s0, t1) && Separate(t0, s1) && Separate(t0, t1)
             && Separate(s1, t1)
    requires a == t1.Value() && b == s1.Value()
    modifies s0, s0.d, t0, t0.d, s1, s1.d
    ensures s0.Valid() && t0.Valid() && s0.d != t0.d
    ensures var s, t := old(s0.Value()), old(t0.Value());
            if AbsInt(s) > AbsInt(s + b) then s0.Value() == s + b && t0.Value() == t - a
            else s0.Value() == s && t0.Value() == t
    ensures (s0.d == old(s0.d) || s0.d == old(s1.d) || fresh(s0.d)) && (t0.d == old(t0.d) || fresh(t0.d))
  {
    s1.Add(s0, s1);
    var c := s0.CmpAbs(s1);
    if c > 0 {
      s0.Swap(s1);
      t0.Sub(t0, t1);
    }
  }

  // --- putting it together ---

  /** The quotient of |v| by a divisor of it. */
  method ExactQuotient(q: Mpz, v: Mpz, g: Mpz, ghost b: int)
    requires q.Valid() && v.Valid() && Separate(q, g) && q != v && q.d != v.d
    requires 0 < g.Value() && AbsInt(v.Value()) == b * g.Value() && 0 <= b
    modifies q, q.d
    ensures q.Valid() && q.Value() == b && (q.d == old(q.d) || fresh(q.d))
  {
    Signs(g);
    ghost var x, y := v.Value(), g.Value();
    var _, k, r := DivQrMpz(q, null, v, g, Trunc, x, y);
    ExactQuotientOf(x, y, k, r, b);
    q.Abs(q);
  }

  lemma ExactQuotientOf(x: int, y: int, k: int, r: int, b: int)
    requires IsDivision(x, y, Trunc, k, r) && 0 < y && AbsInt(x) == b * y && 0 <= b
    ensures AbsInt(k) == b
  {
    var c := if x < 0 then -b else b;
    assert -b * y == -(b * y);
    DivisionUnique(x, y, Trunc, k, r, c, 0);
  }

  lemma Scaled(x: int, u: int, a: int, g: int, p: int)
    requires x == u * p && u == a * g
    ensures x == a * (g * p)
  {
    Assoc(a, g, p);
  }

  /** The gcd with its power of two, and the quotients of u and v by it. */
  method QuotientsByGcd(tv: Mpz, s1: Mpz, t1: Mpz, u: Mpz, v: Mpz, gz: nat, ghost x: int, ghost y: int, ghost a: int,
                        ghost b: int)
    requires Separate(tv, s1) && Separate(tv, t1) && Separate(s1, t1) && Separate(tv, u) && Separate(tv, v)
    requires Separate(s1, u) && Separate(s1, v) && Separate(t1, u) && Separate(t1, v)
    requires 0 < tv.Value() && 0 <= a && 0 <= b && x == a * tv.Value() && y == b * tv.Value()
    requires AbsInt(u.Value()) == x * Pow2(gz) && AbsInt(v.Value()) == y * Pow2(gz)
    modifies tv, tv.d, s1, s1.d, t1, t1.d
    ensures tv.Valid() && s1.Valid() && t1.Valid() && tv.d != s1.d && tv.d != t1.d && s1.d != t1.d
    ensures 0 < tv.Value() && s1.Value() == b && t1.Value() == a
    ensures AbsInt(u.Value()) == a * tv.Value() && AbsInt(v.Value()) == b * tv.Value()
    ensures (tv.d == old(tv.d) || fresh(tv.d)) && (s1.d == old(s1.d) || fresh(s1.d))
            && (t1.d == old(t1.d) || fresh(t1.d))
  {
    PowPositive(2, gz);
    Scaled(AbsInt(u.Value()), x, a, tv.Value(), Pow2(gz));
    Scaled(AbsInt(v.Value()), y, b, tv.Value(), Pow2(gz));
    MulStrict(0, tv.Value(), Pow2(gz));
    tv.Mul2exp(tv, gz);
    ExactQuotient(s1, v, tv, b);
    ExactQuotient(t1, u, tv, a);
  }

  /** s x + t y = g is the gcd of x and y, with small cofactors. */
  ghost predicate GcdCombination(x: int, y: int, g: int, s: int, t: int) {
    && s * x + t * y == g == Gcd(AbsInt(x), AbsInt(y))
    && 2 * (g * AbsInt(s)) <= AbsInt(y) && g * AbsInt(t) <= AbsInt(x)
  }

  lemma ScaledCofactors(a: int, b: int, g: int, s: int, t: int)
    requires SmallCofactors(a, b, s, t) && 0 < g
    ensures s * (a * g) + t * (b * g) == g
    ensures 2 * (g * AbsInt(s)) <= b * g && g * AbsInt(t) <= a * g
  {
    ScaledCombination(s, a, t, b, g);
    MulMono(2 * AbsInt(s), b, g);
    MulMono(AbsInt(t), a, g);
  }

  lemma SignedTerm(s: int, x: int, neg: bool)
    requires neg == (x < 0)
    ensures (if neg then -s else s) * x == s * AbsInt(x)
  {
  }

  lemma CombinationFrom(x: int, y: int, a: int, b: int, g: int, s: int, t: int)
    requires SmallCofactors(a, b, s, t) && 0 < g && AbsInt(x) == a * g && AbsInt(y) == b * g
    ensures GcdCombination(x, y, g, if x < 0 then -s else s, if y < 0 then -t else t)
  {
    ScaledCofactors(a, b, g, s, t);
    SignedTerm(s, x, x < 0);
    SignedTerm(t, y, y < 0);
    DividesByFactor(g, AbsInt(x), a);
    DividesByFactor(g, AbsInt(y), b);
    BezoutIsGcd(g, AbsInt(x), AbsInt(y), s, t);
    GcdUnique(g, AbsInt(x), AbsInt(y));
  }

  method ApplySign(s: Mpz, neg: bool)
    requires s.Valid()
    modifies s, s.d
    ensures s.Valid() && s.Value() == (if neg then -old(s.Value()) else old(s.Value()))
            && (s.d == old(s.d) || fresh(s.d))
  {
    if neg {
      s.Neg(s);
    }
  }

  /** Cofactors of the signed numbers from those of their magnitudes. */
  method ApplySigns(s0: Mpz, t0: Mpz, uneg: bool, vneg: bool, ghost x: int, ghost y: int, ghost a: int, ghost b: int,
                    ghost g: int)
    requires Separate(s0, t0) && uneg == (x < 0) && vneg == (y < 0)
    requires SmallCofactors(a, b, s0.Value(), t0.Value()) && 0 < g && AbsInt(x) == a * g && AbsInt(y) == b * g
    modifies s0, s0.d, t0, t0.d
    ensures Separate(s0, t0) && GcdCombination(x, y, g, s0.Value(), t0.Value())
    ensures (s0.d == old(s0.d) || fresh(s0.d)) && (t0.d == old(t0.d) || fresh(t0.d))
  {
    CombinationFrom(x, y, a, b, g, s0.Value(), t0.Value());
    ApplySign(s0, uneg);
    ApplySign(t0, vneg);
  }

  /** Takes the power of two out of the cofactors and makes them small. */
  method ReduceCofactors(s0: Mpz, t0: Mpz, s1: Mpz, t1: Mpz, power: nat, ghost a: int, ghost b: int)
    requires Separate(s0, t0) && Separate(s0, s1) && Separate(s0, t1) && Separate(t0, s1) && Separate(t0, t1)
             && Separate(s1, t1)
    requires a == t1.Value() && b == s1.Value() && Halving(a, b, s0.Value(), t0.Value(), power)
    modifies s0, s0.d, t0, t0.d, s1, s1.d
    ensures Separate(s0, t0) && SmallCofactors(a, b, s0.Value(), t0.Value())
    ensures (s0.d == old(s0.d) || s0.d == old(s1.d) || fresh(s0.d)) && (t0.d == old(t0.d) || fresh(t0.d))
  {
    HalveAll(s0, t0, s1, t1, a, b, power);
    SmallerCofactors(a, b, s0.Value(), t0.Value());
    TakeSmaller(s0, t0, s1, t1, a, b);
  }

  method Temporaries() returns (s0: Mpz, s1: Mpz, t0: Mpz, t1: Mpz)
    ensures fresh(s0) && fresh(s1) && fresh(t0) && fresh(t1) && fresh(s0.d) && fresh(s1.d) && fresh(t0.d) && fresh(t1.d)
    ensures Separate(s0, s1) && Separate(s0, t0) && Separate(s0, t1) && Separate(s1, t0) && Separate(s1, t1)
            && Separate(t0, t1)
    ensures s0.size == 0 && s1.size == 0 && t0.size == 0 && t1.size == 0
  {
    s0 := new Mpz.Init();
    s1 := new Mpz.Init();
    t0 := new Mpz.Init();
    t1 := new Mpz.Init();
    Signs(s0);
    Signs(s1);
    Signs(t0);
    Signs(t1);
  }

  /** The subtraction phase from odd numbers: their gcd is left in tv. */
  method SubtractionPhase(tu: Mpz, tv: Mpz, uz: nat, vz: nat, ghost u: int, ghost v: int)
    returns (s0: Mpz, s1: Mpz, t0: Mpz, t1: Mpz, power: nat, ghost c: Cofs, ghost a: int, ghost b: int)
    requires Separate(tu, tv) && 0 < tu.Value() && 0 < tv.Value() && tu.Value() % 2 == 1 && tv.Value() % 2 == 1
    requires u == tu.Value() * Pow2(uz) && v == tv.Value() * Pow2(vz)
    requires 0 < u && 0 < v && (u % 2 == 1 || v % 2 == 1)
    modifies tu, tu.d, tv, tv.d
    ensures fresh(s0) && fresh(s1) && fresh(t0) && fresh(t1) && fresh(s0.d) && fresh(s1.d) && fresh(t0.d) && fresh(t1.d)
    ensures Holds(tu, tv, s0, s1, t0, t1, c) && Ended(c, u, v, a, b, power)
    ensures tv.d == old(tv.d) || fresh(tv.d)
  {
    s0, s1, t0, t1 := Temporaries();
    c := StartCofactors(tu, tv, s0, s1, t0, t1, uz, vz, tu.Value(), tv.Value());
    power, c := SubtractFrom(tu, tv, s0, s1, t0, t1, c, u, v, uz + vz);
    a, b := EndedFrom(c, u, v, power);
  }

  /** The numbers that the halving phase works on share nothing. */
  ghost predicate Apart(tv: Mpz, s0: Mpz, s1: Mpz, t0: Mpz, t1: Mpz)
    reads tv, s0, s1, t0, t1, tv.d, s0.d, s1.d, t0.d, t1.d
  {
    && Separate(s0, t0) && Separate(s0, s1) && Separate(s0, t1) && Separate(t0, s1) && Separate(t0, t1)
      && Separate(s1, t1)
    && Separate(tv, s0) && Separate(tv, s1) && Separate(tv, t0) && Separate(tv, t1)
  }

  /** From the end of the subtraction phase: cofactors in s0 and t0. */
  method FinishCofactors(tv: Mpz, s0: Mpz, s1: Mpz, t0: Mpz, t1: Mpz, power: nat, uneg: bool, vneg: bool,
                         ghost x: int, ghost y: int, ghost a: int, ghost b: int)
    requires Apart(tv, s0, s1, t0, t1)
    requires a == t1.Value() && b == s1.Value() && Halving(a, b, -s0.Value(), t0.Value(), power)
    requires uneg == (x < 0) && vneg == (y < 0)
    requires 0 < tv.Value() && AbsInt(x) == a * tv.Value() && AbsInt(y) == b * tv.Value()
    modifies s0, s0.d, t0, t0.d, s1, s1.d
    ensures Separate(s0, t0) && GcdCombination(x, y, tv.Value(), s0.Value(), t0.Value())
    ensures (s0.d == old(s0.d) || s0.d == old(s1.d) || fresh(s0.d)) && (t0.d == old(t0.d) || fresh(t0.d))
  {
    s0.Neg(s0);
    ReduceCofactors(s0, t0, s1, t1, power, a, b);
    ApplySigns(s0, t0, uneg, vneg, x, y, a, b, tv.Value());
  }

  /** The subtraction phase, then the gcd with its power of two and the quotients by it. */
  method HalvingPhase(tu: Mpz, tv: Mpz, u: Mpz, v: Mpz, uz: nat, vz: nat, gz: nat, ghost u': int, ghost v': int)
    returns (s0: Mpz, s1: Mpz, t0: Mpz, t1: Mpz, power: nat, ghost c: Cofs, ghost a: int, ghost b: int)
    requires Separate(tu, tv) && Separate(tu, u) && Separate(tu, v) && Separate(tv, u) && Separate(tv, v)
    requires 0 < tu.Value() && 0 < tv.Value() && tu.Value() % 2 == 1 && tv.Value() % 2 == 1
    requires u' == tu.Value() * Pow2(uz) && v' == tv.Value() * Pow2(vz)
    requires 0 < u' && 0 < v' && (u' % 2 == 1 || v' % 2 == 1)
    requires AbsInt(u.Value()) == u' * Pow2(gz) && AbsInt(v.Value()) == v' * Pow2(gz)
    modifies tu, tu.d, tv, tv.d
    ensures fresh(s0) && fresh(s1) && fresh(t0) && fresh(t1) && fresh(s0.d) && fresh(s1.d) && fresh(t0.d) && fresh(t1.d)
    ensures Apart(tv, s0, s1, t0, t1) && (tv.d == old(tv.d) || fresh(tv.d))
    ensures a == t1.Value() && b == s1.Value() && c.s0 == s0.Value() && c.t0 == t0.Value()
            && Halving(a, b, -c.s0, c.t0, power)
    ensures 0 < tv.Value() && AbsInt(u.Value()) == a * tv.Value() && AbsInt(v.Value()) == b * tv.Value()
  {
    s0, s1, t0, t1, power, c, a, b := SubtractionPhase(tu, tv, uz, vz, u', v');
    QuotientsByGcd(tv, s1, t1, u, v, gz, u', v', a, b);
  }

  /** The gcd of u and v into tv, and its cofactors, from the odd parts tu and tv; 2^gz divides both numbers. */
  method CofactorsOf(tu: Mpz, tv: Mpz, u: Mpz, v: Mpz, uz: nat, vz: nat, gz: nat, ghost x: int, ghost y: int)
    returns (s0: Mpz, t0: Mpz)
    requires Separate(tu, tv) && Separate(tu, u) && Separate(tu, v) && Separate(tv, u) && Separate(tv, v)
    requires 0 < tu.Value() && 0 < tv.Value() && tu.Value() % 2 == 1 && tv.Value() % 2 == 1 && (uz == 0 || vz == 0)
    requires x == u.Value() && y == v.Value()
    requires AbsInt(x) == tu.Value() * Pow2(uz) * Pow2(gz) && AbsInt(y) == tv.Value() * Pow2(vz) * Pow2(gz)
    modifies tu, tu.d, tv, tv.d
    ensures fresh(s0) && fresh(s0.d) && fresh(t0) && fresh(t0.d) && Separate(s0, t0)
    ensures tv.Valid() && (tv.d == old(tv.d) || fresh(tv.d)) && tv.d != s0.d && tv.d != t0.d
    ensures GcdCombination(x, y, tv.Value(), s0.Value(), t0.Value())
  {
    Signs(u);
    Signs(v);
    StartParity(tu.Value(), tv.Value(), uz, vz);
    ghost var u', v' := tu.Value() * Pow2(uz), tv.Value() * Pow2(vz);
    var s1, t1, power;
    ghost var c, a, b;
    s0, s1, t0, t1, power, c, a, b := HalvingPhase(tu, tv, u, v, uz, vz, gz, u', v');
    FinishCofactors(tv, s0, s1, t0, t1, power, u.size < 0, v.size < 0, x, y, a, b);
  }

  lemma SplitPower(x: int, a: int, uz: nat, gz: nat)
    requires gz <= uz && x == a * Pow2(uz)
    ensures x == a * Pow2(uz - gz) * Pow2(gz)
  {
    PowAdd(2, uz - gz, gz);
    Assoc(a, Pow2(uz - gz), Pow2(gz));
  }

  /** The odd part of a number. */
  function OddPartOfNat(x: nat): nat {
    if x == 0 then 0 else if x % 2 == 1 then x else OddPartOfNat(x / 2)
  }

  lemma {:induction false} OddPartIs(x: nat, odd: nat, k: nat)
    requires x == odd * Pow2(k) && odd % 2 == 1
    ensures OddPartOfNat(x) == odd
    decreases k
  {
    if k == 0 {
      PowStep(2, 0);
    } else {
      PowStep(2, k - 1);
      PowPositive(2, k - 1);
      MulStrict(0, odd, Pow2(k - 1));
      Assoc(odd, Pow2(k - 1), 2);
      OddPartIs(odd * Pow2(k - 1), odd, k - 1);
    }
  }

  /** The number of limbs of a number. */
  function LimbCount(x: nat): nat {
    if x == 0 then 0 else 1 + LimbCount(x / B)
  }

  lemma {:induction false} LimbCountIs(s: seq<Limb>)
    requires Normalised(s)
    ensures 0 <= Val(s) && LimbCount(Val(s)) == |s|
    decreases |s|
  {
    ValBound(s);
    if s == [] {
      ValEmpty();
    } else {
      NormalisedBound(s);
      PlaceStep(|s| - 1);
      ValCons(s);
      DivModUnique(Val(s), B, Val(s[1..]), s[0]);
      LimbCountIs(s[1..]);
    }
  }

  lemma SizeIsLimbCount(x: Mpz)
    requires x.Valid()
    ensures AbsInt(x.size) == LimbCount(AbsInt(x.Value()))
  {
    Signs(x);
    LimbCountIs(x.d[..AbsInt(x.size)]);
  }

  /** The two numbers change places when the odd part of the second has more limbs. */
  ghost predicate ChangePlaces(x: int, y: int) {
    LimbCount(OddPartOfNat(AbsInt(x))) < LimbCount(OddPartOfNat(AbsInt(y)))
  }

  lemma SplitOdd(x: nat, odd: nat, k: nat, j: nat)
    requires odd % 2 == 1 && x == odd * Pow2(k) && j <= k
    ensures x == odd * Pow2(k - j) * Pow2(j) && odd == OddPartOfNat(x)
  {
    OddPartIs(x, odd, k);
    SplitPower(x, odd, k, j);
  }

  /** Odd parts of u and v and the power of two that each has beyond the shared one. */
  method OddParts(u: Mpz, v: Mpz, ghost x: int, ghost y: int) returns (tu: Mpz, tv: Mpz, uz: nat, vz: nat, gz: nat)
    requires u.Valid() && v.Valid() && x == AbsInt(u.Value()) > 0 && y == AbsInt(v.Value()) > 0
    ensures fresh(tu) && fresh(tu.d) && fresh(tv) && fresh(tv.d) && Separate(tu, tv)
    ensures 0 < tu.Value() && 0 < tv.Value() && tu.Value() % 2 == 1 && tv.Value() % 2 == 1 && (uz == 0 || vz == 0)
    ensures x == tu.Value() * Pow2(uz) * Pow2(gz) && y == tv.Value() * Pow2(vz) * Pow2(gz)
    ensures tu.Value() == OddPartOfNat(x) && tv.Value() == OddPartOfNat(y)
  {
    tu := new Mpz.Init();
    tv := new Mpz.Init();
    uz := OddPartOf(tu, u, x);
    vz := OddPartOf(tv, v, y);
    gz := if uz < vz then uz else vz;
    SplitOdd(x, tu.Value(), uz, gz);
    SplitOdd(y, tv.Value(), vz, gz);
    uz, vz := uz - gz, vz - gz;
  }

  /** s x + t y = g is the gcd. The cofactor of the number that stays first is at most half the other number's quotient
      by g, the other cofactor at most the whole of it. */
  ghost predicate GcdResult(x: int, y: int, g: int, s: int, t: int) {
    if ChangePlaces(x, y) then GcdCombination(y, x, g, t, s) else GcdCombination(x, y, g, s, t)
  }

  /** The three results as numbers of their own. */
  method GcdExtNonzero(u: Mpz, v: Mpz, ghost x: int, ghost y: int) returns (g: Mpz, s: Mpz, t: Mpz)
    requires u.Valid() && v.Valid() && x == u.Value() != 0 && y == v.Value() != 0
    ensures fresh(g) && fresh(g.d) && fresh(s) && fresh(s.d) && fresh(t) && fresh(t.d)
    ensures Separate(g, s) && Separate(g, t) && Separate(s, t)
    ensures GcdResult(x, y, g.Value(), s.Value(), t.Value())
  {
    var tu, tv, uz, vz, gz := OddParts(u, v, AbsInt(x), AbsInt(y));
    SizeIsLimbCount(tu);
    SizeIsLimbCount(tv);
    Signs(tu);
    Signs(tv);
    if tu.size < tv.size {
      tu.Swap(tv);
      t, s := CofactorsOf(tu, tv, v, u, vz, uz, gz, y, x);
    } else {
      s, t := CofactorsOf(tu, tv, u, v, uz, vz, gz, x, y);
    }
    g := tv;
  }

  // 34 is the only cofactor of 3 that is at most half of 101 in size.
  lemma OnlyThirtyFour(s: int, t: int)
    requires s * 3 + t * 101 == 1 && 2 * AbsInt(s) <= 101
    ensures s == 34 && t == -1
  {
    assert -1 <= t <= 1;
  }

  /** With |u| / 2g in place of |v| / 2g the bound on s does not hold: for u = 3 and v = 101 the cofactor is 34. */
  lemma OwnBoundFails(s: int, t: int)
    requires GcdResult(3, 101, 1, s, t)
    ensures s == 34 && t == -1 && !(2 * AbsInt(s) < 3)
  {
    assert OddPartOfNat(3) == 3 && OddPartOfNat(101) == 101;
    assert LimbCount(0) == 0;
    OneLimbCount(3);
    OneLimbCount(101);
    OnlyThirtyFour(s, t);
  }

  lemma OneLimbCount(x: nat)
    requires 0 < x < B
    ensures LimbCount(x) == 1
  {
    assert x / B == 0;
    assert LimbCount(0) == 0;
  }

  ghost predicate DistinctOutputs(g: Mpz, s: Mpz?, t: Mpz?)
    reads g, s, t
  {
    && (s != null ==> s != g && s.d != g.d) && (t != null ==> t != g && t.d != g.d)
    && (s != null && t != null ==> s != t && s.d != t.d)
  }

  // The results are swapped into the outputs.
  method Deliver(g: Mpz, s: Mpz?, t: Mpz?, g': Mpz, s': Mpz, t': Mpz)
    requires g.Valid() && (s != null ==> s.Valid()) && (t != null ==> t.Valid()) && DistinctOutputs(g, s, t)
    requires g'.Valid() && s'.Valid() && t'.Valid() && g' != s' && g' != t' && s' != t'
    requires g !in {g', s', t'} && s !in {g', s', t'} && t !in {g', s', t'}
    modifies g, s, t, g', s', t'
    ensures g.Valid() && g.Value() == old(g'.Value()) && g.d == old(g'.d)
    ensures s != null ==> s.Valid() && s.Value() == old(s'.Value()) && s.d == old(s'.d)
    ensures t != null ==> t.Valid() && t.Value() == old(t'.Value()) && t.d == old(t'.d)
  {
    g.Swap(g');
    if s != null {
      s.Swap(s');
    }
    if t != null {
      t.Swap(t');
    }
  }

  lemma ResultIsGcd(x: int, y: int, g: int, s: int, t: int)
    requires GcdResult(x, y, g, s, t)
    ensures g == Gcd(AbsInt(x), AbsInt(y)) && s * x + t * y == g
  {
    GcdSwap(AbsInt(x), AbsInt(y));
  }

  /** mpz_set_si. */
  method SetSi(r: Mpz, x: int)
    requires r.Valid() && -HIGHBIT <= x < HIGHBIT
    modifies r, r.d
    ensures r.Valid() && r.Value() == x && (r.d == old(r.d) || fresh(r.d))
  {
    if x >= 0 {
      r.SetUi(x);
    } else {
      r.Realloc(1);
      r.size := -1;
      r.d[0] := -x;
      assert r.d[..1] == [-x] && [-x][1..] == [];
      ValCons(r.d[..1]);
      ValEmpty();
    }
  }

  ghost predicate Output(r: Mpz?, u: Mpz, v: Mpz)
    reads r, u, v
    reads if r != null then {r.d} else {}
  {
    r != null ==> r.Valid() && r.Apart(u) && r.Apart(v)
  }

  // One of the numbers is zero.
  method GcdExtZero(g: Mpz, s: Mpz?, t: Mpz?, v: Mpz)
    requires g.Valid() && v.Valid() && g.Apart(v)
    requires Output(s, v, v) && Output(t, v, v) && DistinctOutputs(g, s, t)
    modifies g, s, t, g.d, if s != null then {s.d} else {}, if t != null then {t.d} else {}
    ensures g.Valid() && g.Value() == AbsInt(old(v.Value())) && (g.d == old(g.d) || fresh(g.d))
    ensures s != null ==> s.Valid() && s.Value() == 0 && s.d == old(s.d)
    ensures t != null ==> t.Valid() && t.Value() == Sign(old(v.Value())) && (t.d == old(t.d) || fresh(t.d))
  {
    Signs(v);
    var sign := if v.size < 0 then -1 else if v.size > 0 then 1 else 0;
    g.Abs(v);
    ValEmpty();
    if s != null {
      s.size := 0;
    }
    if t != null {
      SetSi(t, sign);
    }
  }

  lemma SignTimes(x: int)
    ensures Sign(x) * x == AbsInt(x)
  {
  }

  /** mpz_gcdext: g = gcd(|u|, |v|) and cofactors with s u + t v = g; s and t are optional. */
  method GcdExt(g: Mpz, s: Mpz?, t: Mpz?, u: Mpz, v: Mpz) returns (ghost sv: int, ghost tv: int)
    requires g.Valid() && u.Valid() && v.Valid() && g.Apart(u) && g.Apart(v)
    requires Output(s, u, v) && Output(t, u, v) && DistinctOutputs(g, s, t)
    modifies g, s, t, g.d, if s != null then {s.d} else {}, if t != null then {t.d} else {}
    ensures g.Valid() && g.Value() == Gcd(AbsInt(old(u.Value())), AbsInt(old(v.Value())))
            && (g.d == old(g.d) || fresh(g.d))
    ensures sv * old(u.Value()) + tv * old(v.Value()) == g.Value()
    ensures old(u.Value()) != 0 && old(v.Value()) != 0 ==> GcdResult(old(u.Value()), old(v.Value()), g.Value(), sv, tv)
    ensures s != null ==> s.Valid() && s.Value() == sv && (s.d == old(s.d) || fresh(s.d))
    ensures t != null ==> t.Valid() && t.Value() == tv && (t.d == old(t.d) || fresh(t.d))
  {
    ghost var x, y := u.Value(), v.Value();
    Signs(u);
    Signs(v);
    if u.size == 0 {
      GcdSame(AbsInt(y));
      SignTimes(y);
      sv, tv := 0, Sign(y);
      GcdExtZero(g, s, t, v);
    } else if v.size == 0 {
      GcdSame(AbsInt(x));
      SignTimes(x);
      sv, tv := Sign(x), 0;
      GcdExtZero(g, t, s, u);
    } else {
      var g', s', t' := GcdExtNonzero(u, v, x, y);
      sv, tv := s'.Value(), t'.Value();
      ResultIsGcd(x, y, g'.Value(), sv, tv);
      Deliver(g, s, t, g', s', t');
    }
  }

  // --- the modular inverse ---

  lemma UnitFactor(m: int, k: int)
    requires m * k == 1
    ensures AbsInt(m) == 1
  {
    if m > 1 && k > 0 {
      MulMono(1, k, m);
    } else if m < -1 && k < 0 {
      MulMono(1, -k, -m);
    } else if k == 0 || m == 0 {
    } else if m > 0 && k < 0 {
      MulMono(k, 0, m);
    } else if m < 0 && k > 0 {
      MulMono(m, 0, k);
    }
  }

  lemma UnitCofactor(x: int, m: int, s: int, t: int, j: int)
    requires s * x + t * m == 1 && s == j * m
    ensures AbsInt(m) == 1
  {
    assert s * x + t * m == m * (j * x + t) by {
      Assoc(j, m, x);
      Distribute(m, j * x, t);
      Assoc(m, j, x);
    }
    UnitFactor(m, j * x + t);
  }

  lemma MovedInverse(x: int, m: int, s: int, t: int, j: int)
    requires s * x + t * m == 1
    ensures Divides(m, (s + j * m) * x - 1)
  {
    assert (s + j * m) * x - 1 == (j * x - t) * m by {
      assert j * m * x == j * x * m;
    }
    DividesByFactor(m, (s + j * m) * x - 1, j * x - t);
  }

  lemma CofactorBounds(x: int, m: int, s: int, t: int)
    requires GcdResult(x, m, 1, s, t)
    ensures s * x + t * m == 1 && AbsInt(s) <= AbsInt(m)
  {
  }

  /** An inverse of x modulo m from the cofactor, moved into the range below |m|. */
  lemma InverseRange(x: int, m: int, s: int, t: int, r: int)
    requires GcdResult(x, m, 1, s, t) && 1 < AbsInt(m) && r == if s < 0 then s + AbsInt(m) else s
    ensures 0 < r < AbsInt(m) && Divides(m, r * x - 1)
  {
    CofactorBounds(x, m, s, t);
    if s == 0 || s == m || s == -m {
      UnitCofactor(x, m, s, t, if s == 0 then 0 else if s == m then 1 else -1);
    }
    MovedInverse(x, m, s, t, if s >= 0 then 0 else if m > 0 then 1 else -1);
  }

  // A negative cofactor moves up by the modulus.
  method MakePositive(tr: Mpz, m: Mpz)
    requires Separate(tr, m)
    modifies tr, tr.d
    ensures tr.Valid() && (tr.d == old(tr.d) || fresh(tr.d))
    ensures var s := old(tr.Value()); tr.Value() == if s < 0 then s + AbsInt(m.Value()) else s
  {
    Signs(tr);
    Signs(m);
    if tr.size < 0 {
      if m.size >= 0 {
        tr.Add(tr, m);
      } else {
        tr.Sub(tr, m);
      }
    }
  }

  method UnitCofactorOf(u: Mpz, m: Mpz, ghost x: int, ghost y: int)
    returns (one: bool, tr: Mpz, ghost s: int, ghost t: int)
    requires u.Valid() && m.Valid() && x == u.Value() != 0 && y == m.Value() != 0
    ensures one == (Gcd(AbsInt(x), AbsInt(y)) == 1)
    ensures fresh(tr) && fresh(tr.d) && tr.Valid() && tr.Value() == s
    ensures one ==> GcdResult(x, y, 1, s, t)
  {
    var g := new Mpz.Init();
    tr := new Mpz.Init();
    s, t := GcdExt(g, tr, null, u, m);
    var c := CmpUi(g, 1);
    one := c == 0;
  }

  /** mpz_invert: an inverse of u modulo m if there is one, in the range below |m|. */
  method InvertMpz(r: Mpz, u: Mpz, m: Mpz) returns (invertible: bool)
    requires r.Valid() && u.Valid() && m.Valid()
    modifies r
    ensures invertible == (old(u.Value()) != 0 && AbsInt(old(m.Value())) > 1
                           && Gcd(AbsInt(old(u.Value())), AbsInt(old(m.Value()))) == 1)
    ensures r.Valid() && (r.d == old(r.d) || fresh(r.d)) && (!invertible ==> r.Value() == old(r.Value()))
    ensures invertible ==> 0 < r.Value() < AbsInt(old(m.Value()))
                           && Divides(old(m.Value()), r.Value() * old(u.Value()) - 1)
  {
    ghost var x, y := u.Value(), m.Value();
    Signs(u);
    if u.size == 0 {
      return false;
    }
    var c := CmpAbsUi(m, 1);
    if c <= 0 {
      return false;
    }
    var tr: Mpz;
    ghost var s, t;
    invertible, tr, s, t := UnitCofactorOf(u, m, x, y);
    if invertible {
      MakePositive(tr, m);
      InverseRange(x, y, s, t, tr.Value());
      r.Swap(tr);
    }
  }
}
