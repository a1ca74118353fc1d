/** In-place division of limb buffers by a divisor with a precomputed reciprocal. */
module MpnDiv {
  import opened Arith
  import opened Powers
  import opened Reciprocal
  import opened Limbs
  import opened LimbSeqs
  import opened Mpn

  // --- one quotient limb ---

  lemma ModuloPlace(x: int, y: int, k: int, p: int)
    requires 0 <= x < p && 0 <= y < p && x == y + k * p
    ensures k == 0 && x == y
  {
    if k >= 1 {
      MulMono(1, k, p);
    } else if k <= -1 {
      MulMono(k, -1, p);
    }
  }

  // A number split at its two top limbs.
  lemma TopTwo(s: seq<Limb>)
    requires |s| > 2
    ensures var n := |s|; var s1: int, s0: int := s[n - 1], s[n - 2];
            Val(s) == (s1 * B + s0) * Place(n - 2) + Val(s[..n - 2])
            && Place(n - 1) == B * Place(n - 2) && Place(n) == B * Place(n - 1) && 0 < Place(n - 2)
            && 0 <= Val(s[..n - 2]) < Place(n - 2)
  {
    var n := |s|;
    assert s[..n] == s && s[..n - 1] + [s[n - 1]] == s;
    ValPrefix(s, n - 1);
    ValPrefix(s, n - 2);
    assert s[..n - 1] == s[..n - 2] + [s[n - 2]];
    PlaceStep(n - 2);
    PlaceStep(n - 1);
    ValBound(s[..n - 2]);
    var s1: int, s0: int, p := s[n - 1], s[n - 2], Place(n - 2);
    assert s1 * (B * p) + s0 * p == (s1 * B + s0) * p;
  }

  lemma MaxQuotientAlgebra(d2: int, p: int, low: int, dl: int)
    requires B - 1 <= d2 && 0 <= low && 0 <= dl < p
    ensures 0 <= d2 * (B * p) + low - (B - 1) * (d2 * p + dl)
  {
    MulMono(B - 1, d2, p);
    assert d2 * (B * p) - (B - 1) * (d2 * p) == d2 * p;
  }

  // Equal top limbs: the largest limb is the quotient digit.
  lemma MaxQuotient(t: int, d2: int, p: int, low: int, d: int, dl: int)
    requires B - 1 <= d2 && 0 <= low && 0 <= dl < p
    requires d == d2 * p + dl && t == d2 * (B * p) + low && t < B * d
    ensures 0 <= t - (B - 1) * d < d
  {
    MaxQuotientAlgebra(d2, p, low, dl);
  }

  // The estimate from the top limbs exceeds the quotient digit by at most one.
  lemma EstimateError(t: int, d2: int, p: int, l: int, d: int, dl: int, q: int, r2: int, u: int)
    requires HIGHBIT * B <= d2 && 0 <= l < p && 0 <= dl < p && 0 <= q < B && 0 < p
    requires u == q * d2 + r2 && 0 <= r2 < d2
    requires d == d2 * p + dl && t == u * p + l
    ensures t - q * d == r2 * p + l - q * dl
    ensures -d <= t - q * d < d
    ensures t - q * d < 0 ==> 1 <= q
  {
    assert t - q * d == r2 * p + l - q * dl by {
      Distribute(q, d2 * p, dl);
      assert (q * d2 + r2) * p == q * (d2 * p) + r2 * p;
    }
    MulNonneg(r2, p);
    MulMono(q, B, dl);
    MulMono(dl, p, B);
    MulMono(B, d2, p);
    MulMono(r2, d2 - 1, p);
    MulNonneg(q, dl);
  }

  lemma BorrowFromTop(r1: Limb, r0: Limb, cy: Limb)
    ensures var cy1 := if r0 < cy then 1 else 0; var c := if r1 < cy1 then 1 else 0;
            Wrap(r1 - cy1) * B + Wrap(r0 - cy) - c * (B * B) == r1 * B + r0 - cy
  {
  }

  /** The limbs w with n1 on top of them. */
  ghost function Window(n1: Limb, w: seq<Limb>): int {
    n1 * Place(|w|) + Val(w)
  }

  // n1 on top of the limbs s, split below its two top limbs.
  lemma TopPair(n1: Limb, s: seq<Limb>)
    requires |s| > 2
    ensures var n0: int := s[|s| - 1];
            n1 * Place(|s|) + Val(s) == (n1 * B + n0) * Place(|s| - 1) + Val(s[..|s| - 1])
  {
    TopOne(s);
    PlaceStep(|s| - 1);
    var n0: int, p := s[|s| - 1], Place(|s| - 1);
    assert n1 * (B * p) + n0 * p == (n1 * B + n0) * p;
  }

  lemma MaxResidue(t: int, n1: int, vs: int, vn: int, d: int, cl: int, place: int)
    requires t == n1 * place + vs && 0 <= t - (B - 1) * d < d < place
    requires 0 <= vn < place && vn - cl * place == vs - d * (B - 1)
    ensures t == (B - 1) * d + vn
  {
    Distribute(place, n1, cl);
    ModuloPlace(t - (B - 1) * d, vn, n1 - cl, place);
  }

  lemma MaxRange(n1: Limb, S: seq<Limb>, D: seq<Limb>, t: int)
    requires |S| == |D| > 2
    requires n1 == D[|D| - 1] && S[|D| - 1] == D[|D| - 2] && HIGHBIT <= n1
    requires t == n1 * Place(|D|) + Val(S) && t < B * Val(D)
    ensures 0 <= t - (B - 1) * Val(D) < Val(D)
  {
    var dn := |D|;
    TopTwo(D);
    TopPair(n1, S);
    ValBound(S[..dn - 1]);
    MaxQuotient(t, n1 * B + S[dn - 1], Place(dn - 2), Val(S[..dn - 1]), Val(D), Val(D[..dn - 2]));
  }

  lemma MaxStep(n1: Limb, S: seq<Limb>, N: seq<Limb>, D: seq<Limb>, cl: Limb)
    requires |S| == |N| == |D| > 2
    requires n1 == D[|D| - 1] && S[|D| - 1] == D[|D| - 2] && HIGHBIT <= n1
    requires n1 * Place(|D|) + Val(S) < B * Val(D)
    requires Val(N) - cl * Place(|D|) == Val(S) - Val(D) * (B - 1)
    ensures Window(n1, S) == (B - 1) * Val(D) + Val(N)
    ensures Val(N) < Val(D)
  {
    MaxRange(n1, S, D, n1 * Place(|D|) + Val(S));
    ValBound(N);
    ValBound(D);
    MaxResidue(n1 * Place(|D|) + Val(S), n1, Val(S), Val(N), Val(D), cl, Place(|D|));
  }

  /** The top limbs agree with the divisor's: the quotient limb is B - 1. */
  method DivStepMax(np: array<Limb>, i: nat, n1: Limb, dp: array<Limb>, dn: nat, ghost d: int, ghost t: int)
    returns (q: Limb, r1: Limb)
    requires dn > 2 && i + dn <= np.Length && dn <= dp.Length && np != dp
    requires n1 == dp[dn - 1] && np[dn - 1 + i] == dp[dn - 2] && HIGHBIT <= n1
    requires d == Val(dp[..dn]) && t == Window(n1, np[i..i + dn]) && t < B * d
    modifies np
    ensures t == q * d + Window(r1, np[i..i + dn - 1])
    ensures Window(r1, np[i..i + dn - 1]) < d
    ensures OnlyChanged(np, i, i + dn)
  {
    ghost var S := np[i..i + dn];
    q := B - 1;
    assert dp[0..0 + dn] == dp[..dn];
    var cl := SubMul1(np, i, dp, 0, dn, q);
    r1 := np[dn - 1 + i];
    MaxStep(n1, S, np[i..i + dn], dp[..dn], cl);
    TopOne(np[i..i + dn]);
    assert np[i..i + dn][..dn - 1] == np[i..i + dn - 1];
  }

  lemma EstimateStart(n1: Limb, n0: Limb, S: seq<Limb>, D: seq<Limb>)
    requires |S| == |D| > 2 && n0 == S[|D| - 1]
    requires n1 * Place(|D|) + Val(S) < B * Val(D)
    requires !(n1 == D[|D| - 1] && n0 == D[|D| - 2])
    ensures n1 * B + n0 < D[|D| - 1] * B + D[|D| - 2]
    ensures var low: int := S[|D| - 2];
            n1 * Place(|D|) + Val(S) == (n1 * (B * B) + n0 * B + low) * Place(|D| - 2) + Val(S[..|D| - 2])
  {
    var dn := |D|;
    var low: int, d2, n2, p := S[dn - 2], D[dn - 1] * B + D[dn - 2], n1 * B + n0, Place(dn - 2);
    TopTwo(D);
    TopTwo(S);
    assert n1 * (B * (B * p)) + (n0 * B + low) * p == (n1 * (B * B) + n0 * B + low) * p;
    if n2 >= d2 {
      assert n2 >= d2 + 1;
      EstimateTooLarge(n1, n0, low, d2, p, Val(S[..dn - 2]), Val(D[..dn - 2]));
    }
  }

  lemma EstimateTooLarge(n1: int, n0: int, low: int, d2: int, p: int, l: int, dl: int)
    requires n1 * B + n0 >= d2 + 1 && 0 <= low && 0 <= l && dl < p && 0 < p
    ensures (n1 * (B * B) + n0 * B + low) * p + l >= B * (d2 * p + dl)
  {
    MulMono(B * (d2 + 1), n1 * (B * B) + n0 * B + low, p);
    assert B * (d2 + 1) * p == B * (d2 * p) + B * p;
  }

  lemma EstimateBound(t: int, n1: int, n0: int, low: int, S: seq<Limb>, D: seq<Limb>, q: int, r2: int)
    requires |S| == |D| > 2 && HIGHBIT <= D[|D| - 1] && 0 <= q < B
    requires var d1: int, d0: int := D[|D| - 1], D[|D| - 2];
             n1 * (B * B) + n0 * B + low == q * (d1 * B + d0) + r2 && 0 <= r2 < d1 * B + d0
    requires t == (n1 * (B * B) + n0 * B + low) * Place(|D| - 2) + Val(S[..|D| - 2])
    ensures t - q * Val(D) == r2 * Place(|D| - 2) + Val(S[..|D| - 2]) - q * Val(D[..|D| - 2])
    ensures -Val(D) <= t - q * Val(D) < Val(D)
    ensures t - q * Val(D) < 0 ==> 1 <= q
  {
    var dn := |D|;
    var d1: int, d0: int := D[dn - 1], D[dn - 2];
    TopTwo(D);
    ValBound(S[..dn - 2]);
    PlaceStep(dn - 2);
    EstimateError(t, d1 * B + d0, Place(dn - 2), Val(S[..dn - 2]), Val(D), Val(D[..dn - 2]), q, r2,
                  n1 * (B * B) + n0 * B + low);
  }

  lemma SubtractedPlaces(x: int, r2: int, l: int, l': int, cy: int, s1: int, s0: int, c: int, p: int)
    requires x == r2 * p + l && l' - cy * p == l && s1 * B + s0 - c * (B * B) == r2 - cy
    ensures x == s1 * (B * p) + (l' + s0 * p) - c * (B * (B * p))
  {
    assert (r2 - cy) * p == (s1 * B + s0 - c * (B * B)) * p;
    assert (s1 * B + s0 - c * (B * B)) * p == s1 * (B * p) + s0 * p - c * (B * (B * p));
  }

  // The remainder after the subtraction, with borrow c out of its dn limbs.
  lemma AfterSub(x: int, N: seq<Limb>, s1: Limb, c: int, r2: int, l: int, cy: int)
    requires |N| >= 2 && (c == 0 || c == 1)
    requires x == r2 * Place(|N| - 1) + l && Val(N[..|N| - 1]) - cy * Place(|N| - 1) == l
    requires var s0: int := N[|N| - 1]; s1 * B + s0 - c * (B * B) == r2 - cy
    ensures x == s1 * Place(|N|) + Val(N) - c * Place(|N| + 1)
    ensures 0 <= s1 * Place(|N|) + Val(N) < Place(|N| + 1)
  {
    var n := |N|;
    TopOne(N);
    PlaceStep(n - 1);
    PlaceStep(n);
    SubtractedPlaces(x, r2, l, Val(N[..n - 1]), cy, s1, N[n - 1], c, Place(n - 1));
    ValBound(N);
    TwoDigitsOver(s1, Val(N), Place(n));
  }

  lemma TwoDigitsOver(s1: Limb, v: int, p: int)
    requires 0 <= v < p
    ensures 0 <= s1 * p + v < B * p
  {
    MulMono(s1, B - 1, p);
    MulNonneg(s1, p);
  }

  lemma AddBackPlaces(s1: int, d1: int, ca: int, w: int, k: int, v: int, v': int, dl: int, p: int)
    requires s1 + d1 + ca == w + k * B && v' + ca * p == v + dl
    ensures s1 * p + v + (d1 * p + dl) == w * p + v' + k * (B * p)
  {
    assert (s1 + d1 + ca) * p == (w + k * B) * p;
  }

  // Adding the divisor back once makes the remainder exact.
  lemma AfterAdd(x: int, s1: Limb, V: seq<Limb>, D: seq<Limb>, N: seq<Limb>, ca: Limb)
    requires |N| == |V| == |D| - 1 && |D| >= 2
    requires x == s1 * Place(|N|) + Val(V) - Place(|N| + 1) && 0 <= x + Val(D) < Val(D)
    requires Val(N) + ca * Place(|N|) == Val(V) + Val(D[..|D| - 1])
    ensures var d1: int := D[|D| - 1];
            x + Val(D) == Wrap(s1 + d1 + ca) * Place(|N|) + Val(N)
  {
    var n := |N|;
    var d1: int := D[n];
    var w, k := Wrap(s1 + d1 + ca), (s1 + d1 + ca) / B;
    TopOne(D);
    PlaceStep(n);
    ValBound(N);
    ValBound(D);
    AddBackPlaces(s1, d1, ca, w, k, Val(V), Val(N), Val(D[..n]), Place(n));
    TwoDigitsOver(w, Val(N), Place(n));
    Distribute(Place(n + 1), k, 1);
    ModuloPlace(x + Val(D), w * Place(n) + Val(N), k - 1, Place(n + 1));
  }

  // Takes q * D off the dn + 1 limbs whose top two have been reduced to <t1, t0>, which leaves x;
  // cy is the borrow left over.
  method SubtractEstimate(np: array<Limb>, i: nat, t1: Limb, t0: Limb, dp: array<Limb>, dn: nat, q: Limb, ghost x: int)
    returns (r1: Limb, cy: Limb)
    requires dn > 2 && i + dn <= np.Length && dn <= dp.Length && np != dp
    requires x == (t1 * B + t0) * Place(dn - 2) + (Val(np[i..i + (dn - 2)]) - q * Val(dp[0..0 + (dn - 2)]))
    modifies np
    ensures cy <= 1
    ensures x == Window(r1, np[i..i + dn - 1]) - cy * Place(dn)
    ensures 0 <= Window(r1, np[i..i + dn - 1]) < Place(dn)
    ensures OnlyChanged(np, i, i + dn)
  {
    ghost var l := Val(np[i..i + (dn - 2)]) - q * Val(dp[0..0 + (dn - 2)]);
    cy := SubMul1(np, i, dp, 0, dn - 2, q);
    BorrowFromTop(t1, t0, cy);
    ghost var cl := cy;
    var cy1: Limb := if t0 < cy then 1 else 0;
    var r0: Limb := Wrap(t0 - cy);
    cy := if t1 < cy1 then 1 else 0;
    r1 := Wrap(t1 - cy1);
    np[dn - 2 + i] := r0;
    ghost var V := np[i..i + dn - 1];
    assert V[..dn - 2] == np[i..i + (dn - 2)];
    AfterSub(x, V, r1, cy, t1 * B + t0, l, cl);
  }

  // Adds the divisor back to a remainder x that went negative.
  method AddBack(np: array<Limb>, i: nat, s1: Limb, dp: array<Limb>, dn: nat, ghost d: int, ghost x: int)
    returns (r1: Limb)
    requires dn > 2 && i + dn <= np.Length && dn <= dp.Length && np != dp
    requires x == Window(s1, np[i..i + dn - 1]) - Place(dn)
    requires d == Val(dp[..dn]) && 0 <= x + d < d
    modifies np
    ensures x + d == Window(r1, np[i..i + dn - 1])
    ensures OnlyChanged(np, i, i + dn)
  {
    ghost var V, D := np[i..i + (dn - 1)], dp[..dn];
    assert dp[0..0 + (dn - 1)] == D[..dn - 1] && V == np[i..i + dn - 1];
    var ca := AddN(np, i, np, i, dp, 0, dn - 1);
    assert np[i..i + (dn - 1)] == np[i..i + dn - 1];
    AfterAdd(x, s1, V, D, np[i..i + dn - 1], ca);
    var d1: Limb := dp[dn - 1];
    r1 := Wrap(s1 + d1 + ca);
  }

  // Quotient estimate from the three top limbs, with the remainder <r1, r0> of those.
  method Estimate(n1: Limb, S: seq<Limb>, D: seq<Limb>, dinv: Limb, ghost t: int)
    returns (q: Limb, r1: Limb, r0: Limb)
    requires |S| == |D| > 2 && HIGHBIT <= D[|D| - 1]
    requires !(n1 == D[|D| - 1] && S[|D| - 1] == D[|D| - 2])
    requires Inverse3by2(B, D[|D| - 1] * B + D[|D| - 2], dinv)
    requires t == Window(n1, S) && t < B * Val(D)
    ensures t - q * Val(D) == (r1 * B + r0) * Place(|D| - 2) + (Val(S[..|D| - 2]) - q * Val(D[..|D| - 2]))
    ensures -Val(D) <= t - q * Val(D) < Val(D)
    ensures t - q * Val(D) < 0 ==> 1 <= q
  {
    EstimateStart(n1, S[|D| - 1], S, D);
    q, r1, r0 := UdivQr3by2(n1, S[|D| - 1], S[|D| - 2], D[|D| - 1], D[|D| - 2], dinv);
    EstimateBound(t, n1, S[|D| - 1], S[|D| - 2], S, D, q, r1 * B + r0);
  }

  lemma OneLess(t: int, q: int, d: int, x: int)
    requires x == t - q * d
    ensures t == q * d + x && t == (q - 1) * d + (x + d)
  {
  }

  /** The general step: estimate from the top limbs, multiply and subtract, add back at most once. */
  method DivStepEstimate(np: array<Limb>, i: nat, n1: Limb, dp: array<Limb>, dn: nat, dinv: Limb, ghost d: int,
                         ghost t: int)
    returns (q: Limb, r1: Limb)
    requires dn > 2 && i + dn <= np.Length && dn <= dp.Length && np != dp
    requires !(n1 == dp[dn - 1] && np[dn - 1 + i] == dp[dn - 2])
    requires HIGHBIT <= dp[dn - 1] && Inverse3by2(B, dp[dn - 1] * B + dp[dn - 2], dinv)
    requires d == Val(dp[..dn]) && t == Window(n1, np[i..i + dn]) && t < B * d
    modifies np
    ensures t == q * d + Window(r1, np[i..i + dn - 1])
    ensures Window(r1, np[i..i + dn - 1]) < d
    ensures OnlyChanged(np, i, i + dn)
  {
    var t1: Limb, t0: Limb, cy: Limb;
    q, t1, t0 := Estimate(n1, np[i..i + dn], dp[..dn], dinv, t);
    ghost var x := t - q * d;
    OneLess(t, q, d, x);
    assert np[i..i + (dn - 2)] == np[i..i + dn][..dn - 2] && dp[0..0 + (dn - 2)] == dp[..dn][..dn - 2];
    ValBound(dp[..dn]);
    r1, cy := SubtractEstimate(np, i, t1, t0, dp, dn, q, x);
    if cy != 0 {
      r1 := AddBack(np, i, r1, dp, dn, d, x);
      q := q - 1;
    }
  }

  // --- the division loop ---

  /** n is the quotient limbs Q above place i times d, plus the remainder x above the limbs low. */
  ghost predicate Divided(n: int, Q: seq<Limb>, d: int, x: int, low: seq<Limb>) {
    n == Val(Q) * Place(|low|) * d + x * Place(|low|) + Val(low)
  }

  lemma LoopAlgebra(n: int, qHigh: int, q: int, d: int, p: int, x: int, x': int, u: int, low: int)
    requires n == qHigh * (B * p) * d + x * (B * p) + (low + u * p) && B * x + u == q * d + x'
    ensures n == (q + B * qHigh) * p * d + x' * p + low
  {
    assert (q + B * qHigh) * p * d == q * d * p + qHigh * (B * p) * d;
    assert (B * x + u) * p == (q * d + x') * p;
  }

  // One more quotient limb q: the remainder takes in the limb u from below and shrinks to x'.
  lemma LoopStep(n: int, Q: seq<Limb>, d: int, x: int, low: seq<Limb>, u: Limb, q: Limb, x': int)
    requires Divided(n, Q, d, x, low + [u]) && B * x + u == q * d + x'
    ensures Divided(n, [q] + Q, d, x', low)
  {
    ValCons([q] + Q);
    assert ([q] + Q)[1..] == Q;
    PlaceStep(|low|);
    ValSnoc(low, u);
    LoopAlgebra(n, Val(Q), q, d, Place(|low|), x, x', u, Val(low));
  }

  lemma SlideWindow(n1: Limb, w: seq<Limb>, u: Limb)
    ensures Window(n1, [u] + w) == B * Window(n1, w) + u
  {
    ValCons([u] + w);
    assert ([u] + w)[1..] == w;
    PlaceStep(|w|);
  }

  lemma DividedEnd(n: int, Q: seq<Limb>, d: int, n1: Limb, w: seq<Limb>)
    requires Divided(n, Q, d, Window(n1, w), [])
    ensures n == Val(Q) * d + Val(w + [n1])
  {
    PlaceStep(0);
    ValEmpty();
    ValSnoc(w, n1);
  }

  lemma DividedStart(nh: Limb, w: seq<Limb>, low: seq<Limb>, d: int)
    ensures Divided(Window(nh, low + w), [], d, Window(nh, w), low)
  {
    ValConcat(low, w);
    ValEmpty();
    PowAdd(B, |low|, |w|);
    var p, r := Place(|low|), Place(|w|);
    assert nh * (p * r) + p * Val(w) == (nh * r + Val(w)) * p;
  }

  /** d is a normalised divisor of at least three limbs, dinv the reciprocal of its top two. */
  ghost predicate NormalDivisor(dp: array<Limb>, dn: nat, dinv: Limb, d: int)
    reads dp
  {
    && 2 < dn <= dp.Length && d == Val(dp[..dn])
    && HIGHBIT <= dp[dn - 1] && Inverse3by2(B, dp[dn - 1] * B + dp[dn - 2], dinv)
  }

  /** A quotient buffer, if there is one, holds Q in the limbs from lo on. */
  ghost predicate Stored(qp: array?<Limb>, lo: nat, Q: seq<Limb>)
    reads qp
  {
    qp != null ==> lo + |Q| <= qp.Length && qp[lo..lo + |Q|] == Q
  }

  method StoreLimb(qp: array?<Limb>, lo: nat, q: Limb, ghost Q: seq<Limb>)
    requires Stored(qp, lo + 1, Q)
    modifies qp
    ensures Stored(qp, lo, [q] + Q)
    ensures qp != null ==> OnlyChanged(qp, lo, lo + 1)
  {
    if qp != null {
      qp[lo] := q;
    }
  }

  method DivStep(np: array<Limb>, i: nat, n1: Limb, dp: array<Limb>, dn: nat, dinv: Limb, ghost d: int)
    returns (q: Limb, r1: Limb)
    requires dn > 2 && i + dn <= np.Length && np != dp
    requires NormalDivisor(dp, dn, dinv, d) && Window(n1, np[i + 1..i + dn]) < d
    modifies np
    ensures B * Window(n1, old(np[i + 1..i + dn])) + old(np[i]) == q * d + Window(r1, np[i..i + dn - 1])
    ensures Window(r1, np[i..i + dn - 1]) < d
    ensures OnlyChanged(np, i, i + dn)
  {
    assert np[i..i + dn] == [np[i]] + np[i + 1..i + dn];
    SlideWindow(n1, np[i + 1..i + dn], np[i]);
    ghost var t := Window(n1, np[i..i + dn]);
    if n1 == dp[dn - 1] && np[dn - 1 + i] == dp[dn - 2] {
      q, r1 := DivStepMax(np, i, n1, dp, dn, d, t);
    } else {
      q, r1 := DivStepEstimate(np, i, n1, dp, dn, dinv, d, t);
    }
  }

  /** Schoolbook division by a normalised divisor of at least three limbs; qp may be null. */
  method DivQrPi1(qp: array?<Limb>, np: array<Limb>, nn: nat, nh: Limb, dp: array<Limb>, dn: nat, dinv: Limb,
                  ghost d: int)
    returns (ghost Q: seq<Limb>)
    requires 2 < dn <= nn <= np.Length && np != dp && NormalDivisor(dp, dn, dinv, d)
    requires Window(nh, np[nn - dn + 1..nn]) < d
    requires qp != null ==> nn - dn + 1 <= qp.Length && qp != np && qp != dp
    modifies np, qp
    ensures |Q| == nn - dn + 1 && Stored(qp, 0, Q)
    ensures old(Window(nh, np[..nn])) == Val(Q) * d + Val(np[..dn])
    ensures Val(np[..dn]) < d
    ensures qp != null ==> OnlyChanged(qp, 0, nn - dn + 1)
    ensures OnlyChanged(np, 0, nn)
  {
    ghost var n, m := Window(nh, np[..nn]), nn - dn + 1;
    Q := [];
    var n1: Limb := nh;
    assert np[..nn] == np[..m] + np[m..m + dn - 1];
    DividedStart(nh, np[m..m + dn - 1], np[..m], d);
    for i := nn - dn + 1 downto 0
      invariant |Q| == m - i && Stored(qp, i, Q)
      invariant qp != null ==> OnlyChanged(qp, 0, m)
      invariant OnlyChanged(np, 0, nn) && NormalDivisor(dp, dn, dinv, d)
      invariant Window(n1, np[i..i + dn - 1]) < d
      invariant Divided(n, Q, d, Window(n1, np[i..i + dn - 1]), np[..i])
    {
      var q: Limb;
      ghost var low, u, x := np[..i], np[i], Window(n1, np[i + 1..i + dn]);
      assert np[..i + 1] == low + [u] && np[i + 1..i + 1 + dn - 1] == np[i + 1..i + dn];
      q, n1 := DivStep(np, i, n1, dp, dn, dinv, d);
      assert np[..i] == low;
      LoopStep(n, Q, d, x, low, u, q, Window(n1, np[i..i + dn - 1]));
      StoreLimb(qp, i, q, Q);
      Q := [q] + Q;
    }
    np[dn - 1] := n1;
    assert np[..0] == [];
    DividedEnd(n, Q, d, n1, np[..dn - 1]);
    assert np[..dn] == np[..dn - 1] + [n1];
  }
}
