/** The number of digits of a number. */
module MpzSize {
  import opened Arith
  import opened Powers
  import opened Limbs
  import opened LimbSeqs
  import opened Mpn
  import opened MpnDivQr
  import opened Mpzs
  import opened MpzDiv
  import opened MpnStr

  /** u has n digits in base b. */
  ghost predicate HasDigits(u: int, b: int, n: nat) {
    1 <= n && Pow(b, n - 1) <= u < Pow(b, n)
  }

  // --- powers of two ---

  lemma CeilingOf(bits: int, k: int, n: int)
    requires 1 <= k && 1 <= bits && n == (bits + k - 1) / k
    ensures 1 <= n && k * (n - 1) <= bits - 1 && bits <= k * n
  {
    DivMod(bits + k - 1, k);
    DivLower(bits + k - 1, k, 1);
    Distribute(k, n, 1);
  }

  /** A digit in base 2^k stands for k bits. */
  lemma DigitsFromBits(u: int, bits: nat, k: nat, b: int, n: nat)
    requires HasDigits(u, 2, bits) && 1 <= k && b == Pow2(k) && n == (bits + k - 1) / k
    ensures HasDigits(u, b, n)
  {
    CeilingOf(bits, k, n);
    PowOfPower(2, k, n);
    PowOfPower(2, k, n - 1);
    PowMono(2, k * (n - 1), bits - 1);
    PowMono(2, bits, k * n);
  }

  // --- other bases ---

  lemma QuotientTop(V: seq<Limb>, Q: seq<Limb>, b: int, w: int)
    requires |V| == |Q| >= 1 && Normalised(V) && 0 < b < B && Val(V) == Val(Q) * b + w && 0 <= w < b
    ensures Q[|Q| - 1] == 0 ==> Normalised(Q[..|Q| - 1]) && Val(Q[..|Q| - 1]) == Val(Q)
  {
    if |Q| == 1 {
      ValCons(Q);
      ValEmpty();
      assert Q[..0] == Q[1..] == [];
    } else {
      QuotientLimbs(V, Q, b, w);
    }
  }

  /** v is u without its last n digits. */
  ghost predicate Stripped(u: int, v: int, b: int, n: nat) {
    v * Pow(b, n) <= u < (v + 1) * Pow(b, n)
  }

  lemma Unstripped(u: int, b: int)
    ensures Stripped(u, u, b, 0)
  {
    PowStep(b, 0);
  }

  lemma StripDigit(u: int, v: int, v': int, w: int, b: int, n: nat)
    requires Stripped(u, v, b, n) && 0 < v == v' * b + w && 0 <= w < b && 1 < b && 0 <= v'
    ensures Stripped(u, v', b, n + 1) && v' < v
    ensures v' == 0 ==> HasDigits(u, b, n + 1)
  {
    var p := Pow(b, n);
    PowPositive(b, n);
    PowStep(b, n);
    Assoc(v', b, p);
    Assoc(v' + 1, b, p);
    Distribute(b, v', 1);
    MulMono(v' * b, v, p);
    MulMono(v + 1, (v' + 1) * b, p);
    MulMono(1, v, p);
    if 0 < v' {
      MulStrict(1, b, v');
    }
  }

  method StripLimbs(tp: array<Limb>, un: nat, inv: DivInverse, b: Limb, n: nat, ghost u: int, ghost v: int)
    returns (un': nat)
    requires 1 <= un <= tp.Length && Normalised(tp[..un]) && v == Val(tp[..un]) && 1 < b && InverseOf(inv, [b])
    requires Stripped(u, v, b, n)
    modifies tp
    ensures un' <= un && Normalised(tp[..un']) && 0 <= Val(tp[..un']) < v
    ensures Stripped(u, Val(tp[..un']), b, n + 1) && (un' == 0 ==> HasDigits(u, b, n + 1))
  {
    ghost var V := tp[..un];
    ValCons([b]);
    ValEmpty();
    assert [b][1..] == [];
    var w;
    ghost var Q;
    w, Q := DivQr1Preinv(tp, tp, un, inv, b);
    assert tp[..un] == Q;
    QuotientTop(V, Q, b, w);
    ValBound(Q);
    NormalisedBound(V);
    PowPositive(B, un - 1);
    StripDigit(u, Val(V), Val(Q), w, b, n);
    un' := un;
    if tp[un - 1] == 0 {
      un' := un - 1;
      assert tp[..un - 1] == Q[..un - 1];
    }
  }

  /** The loop that counts digits. */
  method CountDigits(tp: array<Limb>, len: nat, b: Limb, ghost u: int) returns (ndigits: nat)
    requires 1 <= len <= tp.Length && Normalised(tp[..len]) && 1 < b && u == Val(tp[..len])
    modifies tp
    ensures HasDigits(u, b, ndigits)
  {
    var un := len;
    var inv := DivQr1Invert(b);
    Unstripped(u, b);
    ndigits := 0;
    ghost var v := u;
    ValBound(tp[..un]);
    while un > 0
      invariant un <= len && Normalised(tp[..un]) && 0 <= v == Val(tp[..un]) && Stripped(u, v, b, ndigits)
      invariant un == 0 ==> HasDigits(u, b, ndigits)
      decreases v
    {
      un := StripLimbs(tp, un, inv, b, ndigits, u, v);
      v := Val(tp[..un]);
      ndigits := ndigits + 1;
    }
  }

  /** mpz_sizeinbase: the exact number of digits of |u|, and 1 for zero. */
  method SizeInBase(u: Mpz, base: nat) returns (n: nat)
    requires u.Valid() && 2 <= base <= 62
    ensures if u.Value() == 0 then n == 1 else HasDigits(AbsInt(u.Value()), base, n)
  {
    Signs(u);
    var un := AbsInt(u.size);
    if un == 0 {
      return 1;
    }
    var bits := BitLength(u.d, un);
    ghost var v := AbsInt(u.Value());
    SmallPowers();
    if base == 2 {
      n := bits;
    } else if base == 4 {
      n := (bits + 1) / 2;
      DigitsFromBits(v, bits, 2, base, n);
    } else if base == 8 {
      n := (bits + 2) / 3;
      DigitsFromBits(v, bits, 3, base, n);
    } else if base == 16 {
      n := (bits + 3) / 4;
      DigitsFromBits(v, bits, 4, base, n);
    } else if base == 32 {
      n := (bits + 4) / 5;
      DigitsFromBits(v, bits, 5, base, n);
    } else {
      var tp := new Limb[un];
      Copyi(tp, 0, u.d, 0, un);
      assert tp[0..0 + un] == tp[..un] && u.d[0..0 + un] == u.d[..un];
      n := CountDigits(tp, un, base, v);
    }
  }
}
