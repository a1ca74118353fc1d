/** Streaming SHA-3: a sponge state that takes in bytes one by one. */
module Sha3 {
  import opened Arith
  import opened Powers
  import opened Limbs
  import opened Digits
  import opened ByteLanes
  import opened Keccak
  import opened Blocks
  import opened Sponge
  import opened SpongeFips
  import KeccakFips
  import FipsSponge

  /** The sponge state after the message M, of which the last rest bytes do not fill a block yet. */
  function Absorbing(f: Permutation, M: seq<Byte>, rate: nat, rest: nat): StateString
    requires 0 < rate <= 200 && rest <= |M| && rest <= rate
  {
    XorInto(Absorb(f, Zeros(), M[..|M| - rest], rate), M[|M| - rest..])
  }

  /** Bytes of a block for a digest of mdlen bytes: 200 - 2 mdlen. */
  function Rate(mdlen: nat): (r: nat)
    requires mdlen < 100
    ensures 0 < r <= 200 && (mdlen <= 66 ==> mdlen <= r)
  {
    200 - mdlen - mdlen
  }

  class Context {
    const st: array<Limb>
    var pt: nat
    var rsiz: nat
    var mdlen: nat
    /** The message so far. */
    ghost var message: seq<Byte>
    ghost var blocks: nat
    /** What sha3_keccakf computes. */
    ghost const f: Permutation

    /** The state holds the message; its last pt bytes are not permuted yet. */
    ghost predicate Holds()
      reads this, st
    {
      && IsKeccak(f) && st.Length == 25 && mdlen < 100 && rsiz == Rate(mdlen) && pt <= rsiz
      && |message| == blocks * rsiz + pt && pt <= |message|
      && ToString(st[..]) == Absorbing(f, message, rsiz, pt)
    }

    ghost predicate Valid()
      reads this, st
    {
      Holds() && pt < rsiz
    }

    /** sha3_init. */
    constructor Init(mdlen: nat)
      requires mdlen < 100
      ensures Valid() && message == [] && this.mdlen == mdlen && fresh(st)
    {
      st := new Limb[25](_ => 0);
      this.mdlen := mdlen;
      rsiz := Rate(mdlen);
      pt := 0;
      message := [];
      blocks := 0;
      f := KeccakString;
      new;
      ZeroState(st[..]);
      XorIntoNothing(Zeros());
    }

    // A full block is permuted.
    method PermuteBlock()
      requires Holds() && pt == rsiz
      modifies this`pt, this`blocks, st
      ensures Valid()
    {
      BlockFull(f, message, rsiz, blocks);
      OneMoreBlock(|message|, blocks, rsiz);
      PermuteString(st, f);
      pt := 0;
      blocks := blocks + 1;
    }

    // One byte goes into the state.
    method TakeByte(b: Byte)
      requires Valid()
      modifies this`pt, this`message, st
      ensures Holds() && message == old(message) + [b]
    {
      ghost var S := ToString(st[..]);
      XorByteAt(st, pt, b);
      PutByte(f, S, message, rsiz, pt, b);
      pt := pt + 1;
      message := message + [b];
    }

    /** One byte of sha3_update. */
    method UpdateByte(b: Byte)
      requires Valid()
      modifies this`pt, this`message, this`blocks, st
      ensures Valid() && message == old(message) + [b]
    {
      TakeByte(b);
      if pt >= rsiz {
        PermuteBlock();
      }
    }

    /** sha3_update: takes in any number of bytes. */
    method Update(data: seq<Byte>)
      requires Valid()
      modifies this`pt, this`message, this`blocks, st
      ensures Valid() && message == old(message) + data
    {
      for i := 0 to |data|
        invariant Valid() && message == old(message) + data[..i]
      {
        UpdateByte(data[i]);
        assert data[..i + 1] == data[..i] + [data[i]];
      }
    }

    /** sha3_final_pad: pads and reads the digest off the state. */
    method FinalPad(pad: Byte) returns (md: seq<Byte>)
      requires Valid()
      modifies st
      ensures |md| == mdlen && md == Absorb(f, Zeros(), Padded(message, rsiz, pad), rsiz)[..mdlen]
      ensures 1 <= mdlen <= 66 ==> md == Hash(f, message, rsiz, pad, mdlen)
    {
      ghost var P, R := message[..|message| - pt], message[|message| - pt..];
      assert message == P + R;
      XorByteAt(st, pt, pad);
      XorByteAt(st, rsiz - 1, 0x80);
      LastBlock(f, ToString(st[..]), P, R, rsiz, blocks, pad);
      PermuteString(st, f);
      md := ReadBytes(st, mdlen);
    }

    /** sha3_final. */
    method Final() returns (md: seq<Byte>)
      requires Valid()
      modifies st
      ensures |md| == mdlen && md == Absorb(f, Zeros(), Padded(message, rsiz, 0x06), rsiz)[..mdlen]
      ensures 1 <= mdlen <= 66 ==> md == Hash(f, message, rsiz, 0x06, mdlen)
    {
      md := FinalPad(0x06);
    }
  }

  lemma OneMoreBlock(x: int, n: int, r: int)
    requires x == n * r + r
    ensures x == (n + 1) * r + 0
  {
    Distribute(r, n, 1);
  }

  lemma ZeroState(A: State)
    requires forall l :: 0 <= l < 25 ==> A[l] == 0
    ensures ToString(A) == Zeros()
  {
    forall j | 0 <= j < 200 ensures ToString(A)[j] == 0 {
      ZeroByte(j % 8);
    }
  }

  lemma ZeroByte(i: nat)
    ensures LaneByte(0, i) == 0
  {
    PowPositive(2, 8 * i);
    DivModUnique(0, Pow2(8 * i), 0, 0);
  }

  /** c->st.b[j] ^= b: a byte of the union, and so of one lane. */
  method XorByteAt(st: array<Limb>, j: nat, b: Byte)
    requires st.Length == 25 && j < 200
    modifies st
    ensures ToString(st[..]) == ToString(old(st[..]))[j := XorB(ToString(old(st[..]))[j], b)]
  {
    ghost var A := st[..];
    st[j / 8] := XorLaneByte(st[j / 8], j % 8, b);
    assert st[..] == A[j / 8 := XorLaneByte(A[j / 8], j % 8, b)];
    ByteReplaced(A, j, b);
  }

  lemma ByteReplaced(A: State, j: nat, b: Byte)
    requires j < 200
    ensures var A' := A[j / 8 := XorLaneByte(A[j / 8], j % 8, b)];
            ToString(A') == ToString(A)[j := XorB(ToString(A)[j], b)]
  {
    var A': State := A[j / 8 := XorLaneByte(A[j / 8], j % 8, b)];
    forall k | 0 <= k < 200 ensures StateByte(A', k) == if k == j then XorB(StateByte(A, j), b) else StateByte(A, k) {
      if k / 8 == j / 8 {
        XorLaneByteIs(A[j / 8], j % 8, b, k % 8);
      }
    }
  }

  /** The first n bytes of the state. */
  method ReadBytes(st: array<Limb>, n: nat) returns (md: seq<Byte>)
    requires st.Length == 25 && n <= 200
    ensures md == ToString(st[..])[..n]
  {
    md := [];
    for i := 0 to n
      invariant |md| == i && forall k :: 0 <= k < i ==> md[k] == StateByte(st[..], k)
    {
      md := md + [LaneByte(st[i / 8], i % 8)];
    }
  }

  // One more byte of an unfinished block.
  lemma PutByte(f: Permutation, S: StateString, M: seq<Byte>, rate: nat, pt: nat, b: Byte)
    requires 0 < rate <= 200 && pt < rate && pt <= |M| && S == Absorbing(f, M, rate, pt)
    ensures S[pt := XorB(S[pt], b)] == Absorbing(f, M + [b], rate, pt + 1)
  {
    var P, R := M[..|M| - pt], M[|M| - pt..];
    assert (M + [b])[..|M| - pt] == P && (M + [b])[|M| - pt..] == R + [b];
    XorIntoMore(Absorb(f, Zeros(), P, rate), R, b);
  }

  // A full block is permuted into the state.
  lemma BlockFull(f: Permutation, M: seq<Byte>, rate: nat, n: nat)
    requires 0 < rate <= 200 && |M| == n * rate + rate && rate <= |M|
    ensures f(Absorbing(f, M, rate, rate)) == Absorbing(f, M, rate, 0)
  {
    var P, R := M[..|M| - rate], M[|M| - rate..];
    AbsorbMore(f, Zeros(), P, R, rate, n);
    assert P + R == M && M[..|M| - 0] == M && M[|M|..] == [];
    XorIntoNothing(Absorb(f, Zeros(), M, rate));
  }

  lemma TailAt(t: nat, pad: Byte, i: nat)
    requires 1 <= t && i < t
    ensures |Tail(t, pad)| == t
    ensures Tail(t, pad)[i] == if t == 1 then XorB(pad, 0x80) else if i == 0 then pad
                               else if i == t - 1 then 0x80 else 0
  {
  }

  // The two pad bytes exclusive-or'ed in are the tail of the last block, also where they meet.
  lemma PadBytes(S: StateString, R: seq<Byte>, T: StateString, rate: nat, pad: Byte)
    requires |R| < rate <= 200
    requires var U := XorInto(S, R);
             var V := U[|R| := XorB(U[|R|], pad)];
             T == V[rate - 1 := XorB(V[rate - 1], 0x80)]
    ensures |Tail(rate - |R|, pad)| == rate - |R| && T == XorInto(S, R + Tail(rate - |R|, pad))
  {
    var t, L := rate - |R|, Tail(rate - |R|, pad);
    TailAt(t, pad, 0);
    forall j | 0 <= j < 200 ensures T[j] == XorInto(S, R + L)[j] {
      if |R| <= j < rate {
        TailAt(t, pad, j - |R|);
        XorBZero(S[j]);
        XorBAssociates(S[j], pad, 0x80);
      }
    }
  }

  lemma PaddedParts(P: seq<Byte>, R: seq<Byte>, rate: nat, n: nat, pad: Byte)
    requires |R| < rate && |P| == n * rate
    ensures Padded(P + R, rate, pad) == P + (R + Tail(rate - |R|, pad))
  {
    RestIs(|P + R|, rate, n, |R|);
  }

  lemma TailBlock(f: Permutation, T: StateString, P: seq<Byte>, R: seq<Byte>, rate: nat, n: nat, L: seq<Byte>,
                  pad: Byte)
    requires 0 < rate <= 200 && |R| < rate && |P| == n * rate && L == Tail(rate - |R|, pad)
    requires var U := XorInto(Absorb(f, Zeros(), P, rate), R);
             var V := U[|R| := XorB(U[|R|], pad)];
             T == V[rate - 1 := XorB(V[rate - 1], 0x80)]
    ensures f(T) == Absorb(f, Zeros(), P + (R + L), rate)
  {
    PadBytes(Absorb(f, Zeros(), P, rate), R, T, rate, pad);
    AbsorbMore(f, Zeros(), P, R + L, rate, n);
  }

  lemma LastBlock(f: Permutation, T: StateString, P: seq<Byte>, R: seq<Byte>, rate: nat, n: nat, pad: Byte)
    requires 0 < rate <= 200 && |R| < rate && |P| == n * rate
    requires var U := XorInto(Absorb(f, Zeros(), P, rate), R);
             var V := U[|R| := XorB(U[|R|], pad)];
             T == V[rate - 1 := XorB(V[rate - 1], 0x80)]
    ensures f(T) == Absorb(f, Zeros(), Padded(P + R, rate, pad), rate)
  {
    PaddedParts(P, R, rate, n, pad);
    TailBlock(f, T, P, R, rate, n, Tail(rate - |R|, pad), pad);
  }

  method InitUpdateFinal(data: seq<Byte>, mdlen: nat) returns (md: seq<Byte>, ghost f: Permutation)
    requires 1 <= mdlen <= 66
    ensures IsKeccak(f) && md == Hash(f, data, Rate(mdlen), 0x06, mdlen)
  {
    var c := new Context.Init(mdlen);
    c.Update(data);
    assert [] + data == data;
    f := c.f;
    md := c.Final();
  }

  /** sha3: the digest of a whole message. Its bits are SHA-3 of the bits of the message, with 8 mdlen bits of
      output. */
  method Digest(data: seq<Byte>, mdlen: nat) returns (md: seq<Byte>)
    requires 1 <= mdlen <= 66
    ensures |RNDC| == 24 && BitString(md) == FipsSponge.Sha3(|RNDC|, BitString(data), 8 * mdlen)
  {
    ghost var f;
    md, f := InitUpdateFinal(data, mdlen);
    KeccakFips.ConstantTable();
    HashIsSha3(f, data, Rate(mdlen), |RNDC|, mdlen, 8 * mdlen);
  }
}
