/** Quotient estimation by a precomputed reciprocal, over an arbitrary base beta.
    The same facts serve the limb base and the half-limb base. */
module Reciprocal {
  import opened Arith

  /** v is the reciprocal floor((beta^3 - 1) / d) - beta of a two-digit divisor d. */
  ghost predicate Inverse3by2(beta: int, d: int, v: int) {
    0 < beta * beta * beta - d * (beta + v) <= d
  }

  /** v is the reciprocal floor((beta^2 - 1) / d) - beta of a one-digit divisor d. */
  ghost predicate Inverse2by1(beta: int, d: int, v: int) {
    0 < beta * beta - d * (beta + v) <= d
  }

  /** The two conditions say exactly that v is that floor. */
  lemma InverseIsFloor(n: int, beta: int, d: int, v: int)
    requires 0 < d
    ensures 0 < n - d * (beta + v) <= d <==> v == (n - 1) / d - beta
  {
    DivMod(n - 1, d);
    if 0 < n - d * (beta + v) <= d {
      DivModUnique(n - 1, d, beta + v, n - 1 - d * (beta + v));
    }
  }

  // The remainder left by the candidate quotient q1 + 1, scaled by beta.
  lemma ThreeByTwoIdentity(beta: int, d: int, v: int, n2: int, n1: int, n0: int, q1: int, q0: int)
    requires q1 * beta + q0 == n2 * v + n2 * beta + n1
    ensures var k := beta * beta * beta - d * (beta + v);
            var r := n2 * (beta * beta) + n1 * beta + n0 - (q1 + 1) * d;
            r * beta == n2 * k + n1 * (beta * beta - d) + n0 * beta + d * q0 - d * beta
  {
    var k := beta * beta * beta - d * (beta + v);
    assert q1 * d * beta == d * (n2 * v + n2 * beta + n1 - q0) by {
      assert q1 * d * beta == d * (q1 * beta);
    }
    assert n2 * k == n2 * (beta * beta) * beta - d * (n2 * v + n2 * beta);
  }

  // From R * (d + e) < e * e + d * q conclude R < max(e, q).
  lemma MaxBound(r: int, d: int, e: int, q: int)
    requires 0 <= d && 0 < e
    requires r * (d + e) < e * e + d * q
    ensures r < e || r < q
  {
    Distribute(r, d, e);
    if r >= e && r >= q {
      MulMono(e, r, e);
      MulMono(q, r, d);
    }
  }

  lemma UpperSmallBound(beta: int, d1: int, d: int, e: int, k: int, n2: int, n1: int, n0: int)
    requires 0 <= n2 < d1 && n1 < beta && n0 < beta && 0 < e && 0 <= k <= d && 0 <= beta
    ensures n2 * k + n1 * e + n0 * beta <= (d1 - 1) * d + (beta - 1) * e + (beta - 1) * beta
  {
    MulMono(n2, d1 - 1, k);
    MulMono(k, d, d1 - 1);
    MulMono(n1, beta - 1, e);
    MulMono(n0, beta - 1, beta);
  }

  lemma Distribute5(a: int, b: int, c: int, x: int, y: int, k: int)
    ensures (a + b + c + x - y) * k == a * k + b * k + c * k + x * k - y * k
  {
  }

  lemma UpperSmallCollect(beta: int, d0: int, d: int, e: int)
    ensures (d - d0 - beta) * d + (d + e - beta) * e + (d + e) * (beta - 1) - (d + e) * d == e * e - d0 * d - (d + e)
  {
  }

  // (x - 1) * y scaled by k, where t is x * k.
  lemma PredecessorScaled(x: int, y: int, k: int, t: int)
    requires t == x * k
    ensures (x - 1) * y * k == (t - k) * y
  {
    assert (x - 1) * y * k == (x * k - k) * y;
  }

  lemma UpperSmallScale(beta: int, b2: int, d1: int, d0: int, d: int, e: int, q0: int)
    requires d1 * beta == d - d0 && beta * beta == b2 == d + e
    ensures ((d1 - 1) * d + (beta - 1) * e + (beta - 1) * beta + d * q0 - d * beta) * beta
            == e * e - d0 * d - b2 + d * (q0 * beta)
  {
    var x, y, z, v, w := (d1 - 1) * d, (beta - 1) * e, (beta - 1) * beta, d * q0, d * beta;
    Distribute5(x, y, z, v, w, beta);
    assert x * beta == (d - d0 - beta) * d by { PredecessorScaled(d1, d, beta, d - d0); }
    assert y * beta == (d + e - beta) * e by { PredecessorScaled(beta, e, beta, d + e); }
    assert z * beta == (d + e) * (beta - 1) by {
      Assoc(beta - 1, beta, beta);
      SameFactor(beta * beta, d + e, beta - 1);
    }
    assert v * beta == d * (q0 * beta) by { Assoc(d, q0, beta); }
    assert w * beta == (d + e) * d by { Assoc(d, beta, beta); SameFactor(beta * beta, d + e, d); }
    UpperSmallCollect(beta, d0, d, e);
  }

  lemma SameFactor(x: int, y: int, k: int)
    requires x == y
    ensures x * k == y * k
  {
  }

  // The case where the top digit of the numerator is below that of the divisor.
  lemma ThreeByTwoUpperSmall(beta: int, d1: int, d0: int, d: int, e: int, k: int, n2: int, n1: int, n0: int,
                             q0: int, r: int)
    requires 0 <= d0 < beta && 0 <= n2 < d1 && n1 < beta && n0 < beta
    requires d == d1 * beta + d0 && d + e == beta * beta
    requires 0 < e && 0 < k <= d && r * beta == n2 * k + n1 * e + n0 * beta + d * q0 - d * beta
    ensures r * (beta * beta) < e * e + d * (q0 * beta)
  {
    UpperSmallBound(beta, d1, d, e, k, n2, n1, n0);
    MulMono(r * beta, (d1 - 1) * d + (beta - 1) * e + (beta - 1) * beta + d * q0 - d * beta, beta);
    UpperSmallScale(beta, beta * beta, d1, d0, d, e, q0);
    MulNonneg(d0, d);
    Assoc(r, beta, beta);
    MulMono(1, beta, beta);
  }

  lemma TopScale(beta: int, d1: int, d0: int, d: int, e: int, k: int, q0: int)
    ensures (d1 * k + (d0 - 1) * e + (beta - 1) * beta + d * q0 - d * beta) * beta
            == d1 * beta * k + ((d0 - 1) * e * beta + (beta - 1) * (beta * beta) - d * (beta * beta)) + d * (q0 * beta)
  {
  }

  lemma TopReduce(c: int, k: int, kMax: int, rest: int, ee: int, neg: int)
    requires 0 <= c && k <= kMax && c * kMax + rest - ee == neg && neg < 0
    ensures c * k + rest < ee
  {
    MulMono(k, kMax, c);
  }

  lemma TopTightIdentity(beta: int, d0: int)
    ensures var m := d0 - 1; var e := beta - d0; var b2 := beta * beta; var d := b2 - e;
            (beta - 1) * beta * (beta * e) + ((d0 - 1) * e * beta + (beta - 1) * b2 - d * b2) - e * e
            == - (beta - 1) * (m * b2) - b2 - beta * m - beta * (m * m) - e * e
  {
  }

  lemma TopTightNegative(beta: int, b2: int, m: int, e: int)
    requires 0 < beta && 0 < b2 && 0 <= m
    ensures - (beta - 1) * (m * b2) - b2 - beta * m - beta * (m * m) - e * e < 0
  {
    MulNonneg(beta, m);
    MulNonneg(m, m);
    MulNonneg(beta, m * m);
    MulNonneg(m, b2);
    MulNonneg(beta - 1, m * b2);
  }

  // Equal top digits, both beta - 1: the reciprocal is 0 and k is small.
  lemma TopTight(beta: int, d0: int, k: int)
    requires 0 < d0 < beta && k <= beta * (beta - d0)
    ensures var e := beta - d0; var b2 := beta * beta; var d := b2 - e;
            (beta - 1) * beta * k + ((d0 - 1) * e * beta + (beta - 1) * b2 - d * b2) < e * e
  {
    var e := beta - d0;
    var b2 := beta * beta;
    var d := b2 - e;
    MulNonneg(beta - 1, beta);
    MulMono(1, beta, beta);
    TopTightIdentity(beta, d0);
    TopTightNegative(beta, b2, d0 - 1, e);
    TopReduce((beta - 1) * beta, k, beta * e, (d0 - 1) * e * beta + (beta - 1) * b2 - d * b2, e * e,
              - (beta - 1) * ((d0 - 1) * b2) - b2 - beta * (d0 - 1) - beta * ((d0 - 1) * (d0 - 1)) - e * e);
  }

  lemma TopLooseIdentity(beta: int, d1: int, d0: int)
    ensures var d := d1 * beta + d0; var b2 := beta * beta; var e := b2 - d;
            d1 * beta * d + ((d0 - 1) * e * beta + (beta - 1) * b2 - d * b2) - e * e
            == (d - e * beta) * (beta - d0) - b2
  {
  }

  lemma TopLooseNegative(beta: int, d1: int, d0: int, d: int, e: int)
    requires 0 < d1 <= beta - 2 && 0 <= d0 < beta
    requires d == d1 * beta + d0 && e == beta * beta - d
    ensures d - e * beta < 0
  {
    MulMono(d1, beta - 2, beta);
    assert e >= beta + 1;
    MulMono(beta + 1, e, beta);
  }

  // Equal top digits below beta - 1.
  lemma TopLoose(beta: int, d1: int, d0: int, k: int)
    requires 0 < d1 <= beta - 2 && 0 <= d0 < beta
    requires 0 < k <= d1 * beta + d0
    ensures var d := d1 * beta + d0; var b2 := beta * beta; var e := b2 - d;
            d1 * beta * k + ((d0 - 1) * e * beta + (beta - 1) * b2 - d * b2) < e * e
  {
    var d := d1 * beta + d0;
    var b2 := beta * beta;
    var e := b2 - d;
    TopLooseNegative(beta, d1, d0, d, e);
    TopLooseIdentity(beta, d1, d0);
    MulMono(d - e * beta, 0, beta - d0);
    MulMono(1, beta, beta);
    MulNonneg(d1, beta);
    TopReduce(d1 * beta, k, d, (d0 - 1) * e * beta + (beta - 1) * b2 - d * b2, e * e,
              (d - e * beta) * (beta - d0) - b2);
  }

  lemma UpperTopBound(beta: int, d1: int, d0: int, e: int, k: int, n1: int, n0: int)
    requires n1 < d0 && n0 < beta && 0 < e && 0 <= beta
    ensures d1 * k + n1 * e + n0 * beta <= d1 * k + (d0 - 1) * e + (beta - 1) * beta
  {
    MulMono(n1, d0 - 1, e);
    MulMono(n0, beta - 1, beta);
  }

  lemma ThreeByTwoUpperTop(beta: int, d1: int, d0: int, d: int, e: int, k: int, n1: int, n0: int, q0: int, r: int)
    requires 0 <= d0 < beta && 0 < d1 < beta && 0 <= n1 < d0 && 0 <= n0 < beta
    requires d == d1 * beta + d0 && d + e == beta * beta
    requires 0 < e && 0 < k <= d && k <= beta * e
    requires r * beta == d1 * k + n1 * e + n0 * beta + d * q0 - d * beta
    ensures r * (beta * beta) < e * e + d * (q0 * beta)
  {
    UpperTopBound(beta, d1, d0, e, k, n1, n0);
    MulMono(r * beta, d1 * k + (d0 - 1) * e + (beta - 1) * beta + d * q0 - d * beta, beta);
    TopScale(beta, d1, d0, d, e, k, q0);
    Assoc(r, beta, beta);
    if d1 == beta - 1 {
      TopTight(beta, d0, k);
    } else {
      TopLoose(beta, d1, d0, k);
    }
  }

  lemma ThreeByTwoLowerFirst(beta: int, d: int, x: int, q0: int, r: int)
    requires 0 < d && 0 <= q0 && 0 < beta && 0 <= x
    requires r * beta == x + d * q0 - d * beta
    ensures -d <= r
  {
    MulNonneg(d, q0);
    if r < -d {
      MulMono(r, -d - 1, beta);
    }
  }

  lemma LowerIdentity(q0: int, beta: int)
    ensures (q0 * beta - beta * beta - 1) * beta == - (beta * beta) * (beta - q0) - beta
  {
  }

  lemma ThreeByTwoLowerSecond(beta: int, b2: int, d: int, x: int, q0: int, r: int)
    requires 0 <= q0 < beta && 0 <= x && d < b2 && b2 == beta * beta
    requires r * beta == x + d * q0 - d * beta
    ensures q0 * beta <= r + b2
  {
    if q0 * beta > r + b2 {
      MulMono(r, q0 * beta - b2 - 1, beta);
      MulMono(d, b2, beta - q0);
      LowerIdentity(q0, beta);
    }
  }

  lemma InverseSlack(beta: int, d: int, v: int)
    requires 0 <= v && 0 <= d
    ensures beta * beta * beta - d * (beta + v) <= beta * (beta * beta - d)
  {
    MulNonneg(d, v);
  }

  lemma TwoDigits(beta: int, d1: int, d0: int)
    requires 0 <= d0 < beta && 0 < d1 < beta
    ensures 0 < d1 * beta + d0 < beta * beta
  {
    MulMono(d1, beta - 1, beta);
    MulMono(1, d1, beta);
  }

  lemma TopDigitOrder(beta: int, d1: int, d0: int, n2: int, n1: int)
    requires 0 <= d0 < beta && 0 <= n1 && n2 * beta + n1 < d1 * beta + d0
    ensures n2 <= d1
  {
    if n2 >= d1 + 1 {
      MulMono(d1 + 1, n2, beta);
    }
  }

  /** The candidate quotient digit q1 + 1, read off the product of the numerator's top digits with the
      reciprocal, leaves a remainder r that is off by at most one divisor, in a direction that comparing
      r (modulo beta^2) with q0 decides. */
  lemma ThreeByTwo(beta: int, d1: int, d0: int, v: int, n2: int, n1: int, n0: int, q1: int, q0: int) returns (r: int)
    requires 0 <= d0 < beta && 0 < d1 < beta && 0 <= v
    requires 0 <= n2 && 0 <= n1 < beta && 0 <= n0 < beta && 0 <= q0 < beta
    requires n2 * beta + n1 < d1 * beta + d0
    requires Inverse3by2(beta, d1 * beta + d0, v)
    requires q1 * beta + q0 == n2 * v + n2 * beta + n1
    ensures r == n2 * (beta * beta) + n1 * beta + n0 - (q1 + 1) * (d1 * beta + d0)
    ensures -(d1 * beta + d0) <= r
    ensures q0 * beta <= r + beta * beta
    ensures r < beta * beta - (d1 * beta + d0) || r < q0 * beta
  {
    var d := d1 * beta + d0;
    var e := beta * beta - d;
    var k := beta * beta * beta - d * (beta + v);
    r := n2 * (beta * beta) + n1 * beta + n0 - (q1 + 1) * d;
    ThreeByTwoIdentity(beta, d, v, n2, n1, n0, q1, q0);
    TwoDigits(beta, d1, d0);
    MulNonneg(n2, k);
    MulNonneg(n1, e);
    MulNonneg(n0, beta);
    ThreeByTwoLowerFirst(beta, d, n2 * k + n1 * e + n0 * beta, q0, r);
    ThreeByTwoLowerSecond(beta, beta * beta, d, n2 * k + n1 * e + n0 * beta, q0, r);
    TopDigitOrder(beta, d1, d0, n2, n1);
    if n2 < d1 {
      ThreeByTwoUpperSmall(beta, d1, d0, d, e, k, n2, n1, n0, q0, r);
    } else {
      InverseSlack(beta, d, v);
      ThreeByTwoUpperTop(beta, d1, d0, d, e, k, n1, n0, q0, r);
    }
    MaxBound(r, d, e, q0 * beta);
  }

  lemma TwoByOneIdentity(beta: int, d: int, v: int, nh: int, nl: int, q1: int, q0: int)
    requires q1 * beta + q0 == nh * v + nh * beta + nl
    ensures var k := beta * beta - d * (beta + v);
            var r := nh * beta + nl - (q1 + 1) * d;
            r * beta == nh * k + nl * (beta - d) + d * q0 - d * beta
  {
    var k := beta * beta - d * (beta + v);
    assert q1 * d * beta == d * (nh * v + nh * beta + nl - q0) by {
      assert q1 * d * beta == d * (q1 * beta);
    }
    assert nh * k == nh * (beta * beta) - d * (nh * v + nh * beta);
  }

  lemma TwoByOneUpper(beta: int, d: int, k: int, nh: int, nl: int, q0: int, r: int)
    requires 0 <= nh < d && nl < beta && 0 < k <= d < beta
    requires r * beta == nh * k + nl * (beta - d) + d * q0 - d * beta
    ensures r * beta < (beta - d) * (beta - d) + d * q0
  {
    MulMono(nh, d - 1, k);
    MulMono(k, d, d - 1);
    MulMono(nl, beta - 1, beta - d);
  }

  lemma TwoByOneLower(beta: int, d: int, x: int, q0: int, r: int)
    requires 0 <= q0 < beta && 0 <= x && 0 < d < beta
    requires r * beta == x + d * q0 - d * beta
    ensures -d <= r
    ensures q0 < r + beta
  {
    MulNonneg(d, q0);
    if r < -d {
      MulMono(r, -d - 1, beta);
    }
    if q0 >= r + beta {
      MulMono(r, q0 - beta, beta);
      MulStrict(d, beta, beta - q0);
    }
  }

  /** The one-digit counterpart of ThreeByTwo. */
  lemma TwoByOne(beta: int, d: int, v: int, nh: int, nl: int, q1: int, q0: int) returns (r: int)
    requires 0 <= v && 0 <= nh < d < beta && 0 <= nl < beta && 0 <= q0 < beta
    requires Inverse2by1(beta, d, v)
    requires q1 * beta + q0 == nh * v + nh * beta + nl
    ensures r == nh * beta + nl - (q1 + 1) * d
    ensures -d <= r
    ensures q0 < r + beta
    ensures r < beta - d || r < q0
  {
    var k := beta * beta - d * (beta + v);
    r := nh * beta + nl - (q1 + 1) * d;
    TwoByOneIdentity(beta, d, v, nh, nl, q1, q0);
    MulNonneg(nh, k);
    MulNonneg(nl, beta - d);
    TwoByOneLower(beta, d, nh * k + nl * (beta - d), q0, r);
    TwoByOneUpper(beta, d, k, nh, nl, q0, r);
    MaxBound(r, d, beta - d, q0);
  }

  /** A numerator below beta * d has a one-digit quotient. */
  lemma QuotientDigit(beta: int, n: int, d: int, q: int, r: int)
    requires 0 < d && 0 <= n < beta * d && n == q * d + r && r < d
    ensures 0 <= r ==> q < beta
    ensures 0 <= q
  {
    if q < 0 {
      MulMono(q, -1, d);
    }
    if 0 <= r && q >= beta {
      MulMono(beta, q, d);
    }
  }

  lemma NumeratorBound(beta: int, d: int, nh: int, nl: int)
    requires 0 <= nh < d && 0 <= nl < beta
    ensures 0 <= nh * beta + nl < beta * d
  {
    MulMono(nh, d - 1, beta);
    MulNonneg(nh, beta);
  }

  lemma NumeratorBound3(beta: int, d: int, n2: int, n1: int, n0: int)
    requires 0 <= n2 && 0 <= n1 && 0 <= n0 < beta && n2 * beta + n1 < d
    ensures 0 <= n2 * (beta * beta) + n1 * beta + n0 < beta * d
  {
    MulNonneg(n2, beta);
    NumeratorBound(beta, d, n2 * beta + n1, n0);
    Assoc(n2, beta, beta);
  }

  // The two top digits of the product with the reciprocal do not overflow.
  lemma CandidateFits(beta: int, d: int, n2: int, n1: int, n0: int, rr: int, q1: int)
    requires 0 <= n2 && 0 <= n1 && 0 <= n0 < beta && n2 * beta + n1 < d
    requires rr == n2 * (beta * beta) + n1 * beta + n0 - (q1 + 1) * d && -d <= rr
    ensures q1 < beta
  {
    NumeratorBound3(beta, d, n2, n1, n0);
    Distribute(d, q1, 1);
    if q1 >= beta {
      MulMono(beta, q1, d);
    }
  }
}
