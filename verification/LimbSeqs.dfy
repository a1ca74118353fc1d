/** The number a little-endian sequence of limbs stands for. */
module LimbSeqs {
  import opened Arith
  import opened Powers
  import opened Limbs

  /** The place value of limb n. */
  function Place(n: nat): int {
    Pow(B, n)
  }

  function ValRec(s: seq<Limb>): int {
    if s == [] then 0 else s[0] + B * ValRec(s[1..])
  }

  function Val(s: seq<Limb>): int {
    ValRec(s)
  }

  lemma PlaceStep(n: nat)
    ensures Place(0) == 1 && Place(1) == B
    ensures Place(n + 1) == B * Place(n)
    ensures 0 < Place(n)
  {
    PowStep(B, n);
    PowPositive(B, n);
  }

  lemma ValEmpty()
    ensures Val([]) == 0
  {
  }

  lemma ValCons(s: seq<Limb>)
    requires s != []
    ensures Val(s) == s[0] + B * Val(s[1..])
  {
  }

  lemma {:induction false} ValConcat(s: seq<Limb>, t: seq<Limb>)
    ensures Val(s + t) == Val(s) + Place(|s|) * Val(t)
  {
    if s == [] {
      assert s + t == t;
      PlaceStep(0);
    } else {
      assert (s + t)[1..] == s[1..] + t;
      ValCons(s);
      ValCons(s + t);
      ValConcat(s[1..], t);
      PlaceStep(|s| - 1);
      Assoc(B, Place(|s| - 1), Val(t));
    }
  }

  lemma ValSnoc(s: seq<Limb>, x: Limb)
    ensures Val(s + [x]) == Val(s) + x * Place(|s|)
  {
    ValConcat(s, [x]);
    ValCons([x]);
    ValEmpty();
    assert [x][1..] == [];
  }

  lemma ValPrefix(s: seq<Limb>, i: nat)
    requires i < |s|
    ensures Val(s[..i + 1]) == Val(s[..i]) + s[i] * Place(i)
  {
    assert s[..i + 1] == s[..i] + [s[i]];
    ValSnoc(s[..i], s[i]);
  }

  lemma ValSplit(s: seq<Limb>, i: nat)
    requires i <= |s|
    ensures Val(s) == Val(s[..i]) + Place(i) * Val(s[i..])
  {
    assert s == s[..i] + s[i..];
    ValConcat(s[..i], s[i..]);
  }

  lemma {:induction false} ValBound(s: seq<Limb>)
    ensures 0 <= Val(s) < Place(|s|)
  {
    if s == [] {
      PlaceStep(0);
    } else {
      ValCons(s);
      ValBound(s[1..]);
      PlaceStep(|s| - 1);
    }
  }

  // A number split below its top limb.
  lemma TopOne(s: seq<Limb>)
    requires s != []
    ensures Val(s) == s[|s| - 1] * Place(|s| - 1) + Val(s[..|s| - 1])
  {
    assert s[..|s|] == s && s[..|s| - 1] + [s[|s| - 1]] == s;
    ValPrefix(s, |s| - 1);
  }
}
