/** Export of a number's magnitude to words of bytes, and import back. */
module MpzIO {
  import opened Arith
  import opened Powers
  import opened Limbs
  import opened LimbSeqs
  import opened Bits
  import opened Digits
  import opened Mpn
  import opened Mpzs
  import opened MpzDiv
  import opened MpnStr

  // --- the walk over the buffer ---

  /** Word order and byte order: 1 most significant first, -1 least significant first. */
  datatype Layout = Layout(order: int, endian: int, size: nat, count: nat) {
    ghost predicate Valid() {
      (order == 1 || order == -1) && (endian == 1 || endian == -1)
    }

    function Length(): nat {
      MulNonneg(size, count);
      size * count
    }
  }

  /** The address of byte j of word k, both counted from the least significant. */
  function Address(l: Layout, k: int, j: int): int {
    (if l.order == 1 then l.size * (l.count - 1 - k) else l.size * k) + (if l.endian == 1 then l.size - 1 - j else j)
  }

  /** The address of byte n, counted from the least significant. */
  function Spot(l: Layout, n: nat): int
    requires 0 < l.size
  {
    Address(l, n / l.size, n % l.size)
  }

  lemma AddressRange(l: Layout, k: nat, j: nat)
    requires l.Valid() && k < l.count && j < l.size
    ensures 0 <= Address(l, k, j) < l.Length()
  {
    WordFits(l, k);
    ByteAddress(l, k, j);
  }

  lemma WordIndex(l: Layout, n: nat)
    requires n < l.Length()
    ensures 0 < l.size
    ensures 0 <= n / l.size < l.count && 0 <= n % l.size < l.size && n == n / l.size * l.size + n % l.size
  {
    DivMod(n, l.size);
    DivNonneg(n, l.size);
    if l.count <= n / l.size {
      MulMono(l.count, n / l.size, l.size);
    }
  }

  /** Every spot lies in the buffer. */
  lemma SpotRange(l: Layout, n: nat)
    requires l.Valid() && n < l.Length()
    ensures 0 < l.size && 0 <= Spot(l, n) < l.Length()
  {
    WordIndex(l, n);
    AddressRange(l, n / l.size, n % l.size);
  }

  lemma AddressInjective(l: Layout, k: int, j: int, k': int, j': int)
    requires l.Valid() && 0 <= j < l.size && 0 <= j' < l.size && Address(l, k, j) == Address(l, k', j')
    ensures k == k' && j == j'
  {
    var s := l.size;
    var w, w' := if l.order == 1 then l.count - 1 - k else k, if l.order == 1 then l.count - 1 - k' else k';
    var b, b' := if l.endian == 1 then s - 1 - j else j, if l.endian == 1 then s - 1 - j' else j';
    DivModPairUnique(s, w, b, w', b');
  }

  /** No two bytes share a spot. */
  lemma SpotInjective(l: Layout, n: nat, n': nat)
    requires l.Valid() && 0 < l.size && n < l.Length() && n' < l.Length() && Spot(l, n) == Spot(l, n')
    ensures n == n'
  {
    WordIndex(l, n);
    WordIndex(l, n');
    AddressInjective(l, n / l.size, n % l.size, n' / l.size, n' % l.size);
  }

  /** Every byte of the buffer is some byte's spot. */
  lemma SpotOnto(l: Layout, a: nat) returns (n: nat)
    requires l.Valid() && a < l.Length()
    ensures 0 < l.size && n < l.Length() && Spot(l, n) == a
  {
    WordIndex(l, a);
    var k, j := Mirror(l, a / l.size, a % l.size);
    n := k * l.size + j;
    SpotOf(l, k, j, n);
  }

  // The address of a byte is read backwards by the same walk.
  lemma Mirror(l: Layout, w: nat, b: nat) returns (k: nat, j: nat)
    requires l.Valid() && w < l.count && b < l.size
    ensures k < l.count && j < l.size && Address(l, k, j) == w * l.size + b && 0 <= k * l.size
  {
    k, j := if l.order == 1 then l.count - 1 - w else w, if l.endian == 1 then l.size - 1 - b else b;
    MulNonneg(k, l.size);
  }

  /** One step of the pointer inside a word, and one from word to word. */
  lemma Walk(l: Layout, k: nat, j: nat)
    requires l.Valid()
    ensures Address(l, k, j + 1) == Address(l, k, j) - l.endian
    ensures Address(l, k + 1, 0) == Address(l, k, l.size) + WordStep(l)
  {
    Distribute(l.size, k, 1);
    Distribute(l.size, l.count - 1 - k, 1);
  }

  function WordStep(l: Layout): int {
    var step := if l.order != l.endian then 2 * l.size else 0;
    if l.order == 1 then -step else step
  }

  /** The least significant byte of the least significant word. */
  function Start(l: Layout): int {
    (if l.order == 1 then l.size * (l.count - 1) else 0) + (if l.endian == 1 then l.size - 1 else 0)
  }

  lemma StartIsAddress(l: Layout)
    ensures Start(l) == Address(l, 0, 0)
  {
  }

  lemma SpotOf(l: Layout, k: nat, j: nat, n: int)
    requires l.Valid() && k < l.count && j < l.size && n == k * l.size + j
    ensures 0 <= n < l.Length() && Spot(l, n) == Address(l, k, j)
  {
    MulNonneg(k, l.size);
    MulMono(k + 1, l.count, l.size);
    Distribute(l.size, k, 1);
    DivModUnique(n, l.size, k, j);
  }

  /** The first n bytes in order of significance. */
  function Gathered(l: Layout, buf: seq<Byte>, n: nat): (s: seq<Byte>)
    requires l.Valid() && n <= l.Length() <= |buf|
    ensures |s| == n
  {
    seq(n, i requires 0 <= i < n => SpotRange(l, i); buf[Spot(l, i)])
  }

  // --- what a buffer means ---

  /** Where word k begins, counted from the least significant. */
  function WordStart(l: Layout, k: int): int {
    if l.order == 1 then l.size * (l.count - 1 - k) else l.size * k
  }

  lemma WordFits(l: Layout, k: nat)
    requires k < l.count
    ensures 0 <= WordStart(l, k) && WordStart(l, k) + l.size <= l.Length()
  {
    WordInside(l.size, l.count, k);
    WordInside(l.size, l.count, l.count - 1 - k);
  }

  lemma WordInside(size: int, count: int, w: int)
    requires 0 <= size && 0 <= w < count
    ensures 0 <= size * w && size * w + size <= size * count
  {
    MulNonneg(size, w);
    MulMono(w + 1, count, size);
    Distribute(size, w, 1);
  }

  /** The bytes of word k as they lie in the buffer. */
  function WordBytes(l: Layout, buf: seq<Byte>, k: nat): (s: seq<Byte>)
    requires k < l.count && l.Length() <= |buf|
    ensures |s| == l.size
  {
    WordFits(l, k);
    buf[WordStart(l, k)..WordStart(l, k) + l.size]
  }

  function WordValue(l: Layout, buf: seq<Byte>, k: nat): int
    requires k < l.count && l.Length() <= |buf|
  {
    if l.endian == 1 then Big(WordBytes(l, buf, k), 256) else Little(WordBytes(l, buf, k), 256)
  }

  /** The n least significant words, each worth 256^size times the one before. */
  function WordSum(l: Layout, buf: seq<Byte>, n: nat): int
    requires n <= l.count && l.Length() <= |buf|
  {
    if n == 0 then 0
    else
      MulNonneg(l.size, n - 1);
      WordSum(l, buf, n - 1) + WordValue(l, buf, n - 1) * Pow(256, l.size * (n - 1))
  }

  /** The number in a buffer: the sum of its words. */
  function NumberIn(l: Layout, buf: seq<Byte>): int
    requires l.Length() <= |buf|
  {
    WordSum(l, buf, l.count)
  }

  lemma ByteAddress(l: Layout, k: int, j: int)
    requires l.Valid()
    ensures Address(l, k, j) == WordStart(l, k) + if l.endian == 1 then l.size - 1 - j else j
  {
  }

  /** Byte j of word k in order of significance. */
  lemma GatheredByte(l: Layout, buf: seq<Byte>, k: nat, j: nat, i: nat, m: nat)
    requires l.Valid() && k < l.count && j < l.size && i == k * l.size + j && i < m <= l.Length() <= |buf|
    ensures Gathered(l, buf, m)[i] == WordBytes(l, buf, k)[if l.endian == 1 then l.size - 1 - j else j]
  {
    SpotOf(l, k, j, i);
    SpotRange(l, i);
    ByteAddress(l, k, j);
    WordFits(l, k);
    assert Gathered(l, buf, m)[i] == buf[Spot(l, i)];
  }

  lemma BackwardsIs(T: seq<Byte>, W: seq<Byte>)
    requires |T| == |W| && forall j: nat :: j < |T| ==> T[j] == W[|W| - 1 - j]
    ensures Little(T, 256) == Big(W, 256)
  {
    assert Reversed(T) == W;
  }

  /** T is the word W in order of significance. */
  ghost predicate InOrder(endian: int, T: seq<Byte>, W: seq<Byte>) {
    |T| == |W| && forall j: nat :: j < |T| ==> T[j] == W[if endian == 1 then |W| - 1 - j else j]
  }

  lemma InOrderValue(l: Layout, buf: seq<Byte>, k: nat, T: seq<Byte>)
    requires k < l.count && l.Length() <= |buf| && InOrder(l.endian, T, WordBytes(l, buf, k))
    ensures Little(T, 256) == WordValue(l, buf, k)
  {
    if l.endian == 1 {
      BackwardsIs(T, WordBytes(l, buf, k));
    } else {
      assert T == WordBytes(l, buf, k);
    }
  }

  lemma GatheredWord(l: Layout, buf: seq<Byte>, k: nat, n: nat, m: nat)
    requires l.Valid() && k < l.count && n == l.size * k && m == n + l.size && m <= l.Length() <= |buf|
    ensures Little(Gathered(l, buf, m)[n..], 256) == WordValue(l, buf, k)
  {
    var G := Gathered(l, buf, m);
    var T, W := G[n..], WordBytes(l, buf, k);
    forall j: nat | j < l.size ensures T[j] == W[if l.endian == 1 then |W| - 1 - j else j] {
      GatheredByte(l, buf, k, j, n + j, m);
      assert T[j] == G[n + j];
    }
    InOrderValue(l, buf, k, T);
  }

  lemma GatheredPrefix(l: Layout, buf: seq<Byte>, n: nat, m: nat)
    requires l.Valid() && n <= m <= l.Length() <= |buf|
    ensures Gathered(l, buf, m)[..n] == Gathered(l, buf, n)
  {
  }

  lemma LittleSplit(G: seq<Byte>, n: nat)
    requires n <= |G|
    ensures Little(G, 256) == Little(G[..n], 256) + Little(G[n..], 256) * Pow(256, n)
  {
    assert G == G[..n] + G[n..];
    LittleConcat(G[..n], G[n..], 256);
  }

  lemma SumStep(l: Layout, buf: seq<Byte>, k: nat, n: nat)
    requires k < l.count && n == l.size * k && l.Length() <= |buf|
    ensures WordSum(l, buf, k + 1) == WordSum(l, buf, k) + WordValue(l, buf, k) * Pow(256, n)
  {
  }

  lemma LittleMore(G: seq<Byte>, H: seq<Byte>, n: nat, x: int, w: int)
    requires n <= |G| && G[..n] == H && Little(H, 256) == x && Little(G[n..], 256) == w
    ensures Little(G, 256) == x + w * Pow(256, n)
  {
    LittleSplit(G, n);
  }

  lemma OneWordMore(l: Layout, buf: seq<Byte>, k: nat, n: nat, m: nat)
    requires l.Valid() && k < l.count && n == l.size * k && m == n + l.size && m <= l.Length() <= |buf|
    requires Little(Gathered(l, buf, n), 256) == WordSum(l, buf, k)
    ensures Little(Gathered(l, buf, m), 256) == WordSum(l, buf, k + 1)
  {
    GatheredWord(l, buf, k, n, m);
    GatheredPrefix(l, buf, n, m);
    LittleMore(Gathered(l, buf, m), Gathered(l, buf, n), n, WordSum(l, buf, k), WordValue(l, buf, k));
    SumStep(l, buf, k, n);
  }

  lemma WordsBefore(size: int, count: int, k: int, n: int)
    requires 0 <= size && 0 <= k <= count && n == size * k
    ensures 0 <= n <= size * count
    ensures 0 < k ==> 0 <= n - size == size * (k - 1)
  {
    MulNonneg(size, k);
    MulMono(k, count, size);
    if 0 < k {
      MulNonneg(size, k - 1);
      Distribute(size, k, 1);
    }
  }

  lemma {:induction false} GatheredWords(l: Layout, buf: seq<Byte>, k: nat, n: nat)
    requires l.Valid() && k <= l.count && n == l.size * k && l.Length() <= |buf|
    ensures n <= l.Length() && Little(Gathered(l, buf, n), 256) == WordSum(l, buf, k)
    decreases k
  {
    WordsBefore(l.size, l.count, k, n);
    if k == 0 {
      LittleEmpty(256);
      assert Gathered(l, buf, 0) == [];
    } else {
      GatheredWords(l, buf, k - 1, n - l.size);
      OneWordMore(l, buf, k - 1, n - l.size, n);
    }
  }

  /** The bytes in order of significance have the value of the buffer. */
  lemma NumberIs(l: Layout, buf: seq<Byte>)
    requires l.Valid() && l.Length() <= |buf|
    ensures NumberIn(l, buf) == Little(Gathered(l, buf, l.Length()), 256)
  {
    GatheredWords(l, buf, l.count, l.Length());
  }

  lemma GatherStep(l: Layout, before: seq<Byte>, after: seq<Byte>, n: nat)
    requires l.Valid() && 0 < l.size && n < l.Length() <= |before| == |after|
    requires 0 <= Spot(l, n) < |after| && after == before[Spot(l, n) := after[Spot(l, n)]]
    ensures Gathered(l, after, n + 1) == Gathered(l, before, n) + [after[Spot(l, n)]]
  {
    forall i | 0 <= i < n ensures 0 <= Spot(l, i) < |after| && after[Spot(l, i)] == before[Spot(l, i)] {
      SpotRange(l, i);
      if Spot(l, i) == Spot(l, n) {
        SpotInjective(l, i, n);
      }
    }
  }

  // --- export ---

  /** The bytes S and what is left, limb (of so many bytes) and the limbs V above it, make up u. */
  ghost predicate Exporting(S: seq<Byte>, limb: Limb, bytes: nat, V: seq<Limb>, u: int) {
    && bytes <= 8 && limb < Pow2(8 * bytes)
    && u == Little(S, 256) + (limb + Pow2(8 * bytes) * Val(V)) * Pow(256, |S|)
  }

  lemma TakeByteAlgebra(limb: int, p: int, v: int, q: int)
    ensures (limb + 256 * p * v) * q == limb % 256 * q + (limb / 256 + p * v) * (256 * q)
  {
    assert limb + 256 * p * v == limb % 256 + 256 * (limb / 256 + p * v) by {
      Assoc(256, p, v);
    }
    Distribute(q, limb % 256, 256 * (limb / 256 + p * v));
    Assoc(limb / 256 + p * v, 256, q);
  }

  lemma TakeByte(S: seq<Byte>, limb: Limb, bytes: nat, V: seq<Limb>, u: int)
    requires Exporting(S, limb, bytes, V, u) && 0 < bytes
    ensures Exporting(S + [limb % 256], limb / 256, bytes - 1, V, u)
  {
    SmallPowers();
    PowAdd(2, 8, 8 * (bytes - 1));
    PowStep(256, |S|);
    LittleSnoc(S, limb % 256, 256);
    TakeByteAlgebra(limb, Pow2(8 * (bytes - 1)), Val(V), Pow(256, |S|));
    DivBelow(limb, Pow2(8 * (bytes - 1)));
  }

  lemma DivBelow(x: int, p: int)
    requires 0 <= x < 256 * p
    ensures x / 256 < p
  {
  }

  lemma NextLimb(S: seq<Byte>, limb: Limb, V: seq<Limb>, u: int)
    requires Exporting(S, limb, 0, V, u)
    ensures limb == 0
    ensures V != [] ==> Exporting(S, V[0], 8, V[1..], u)
    ensures V == [] ==> Exporting(S, 0, 8, V, u)
  {
    PowStep(2, 0);
    Pow2Values();
    ValEmpty();
    if V != [] {
      ValCons(V);
    }
  }

  /** The next byte of the number. */
  method NextByte(up: array<Limb>, un: nat, i: nat, limb: Limb, bytes: nat, ghost S: seq<Byte>, ghost u: int)
    returns (b: Byte, i': nat, limb': Limb, bytes': nat)
    requires i <= un <= up.Length && Exporting(S, limb, bytes, up[i..un], u)
    ensures i' <= un && Exporting(S + [b], limb', bytes', up[i'..un], u)
  {
    i', limb', bytes' := i, limb, bytes;
    if bytes' == 0 {
      NextLimb(S, limb, up[i..un], u);
      if i' < un {
        limb' := up[i'];
        assert up[i..un][1..] == up[i + 1..un];
        i' := i' + 1;
      }
      bytes' := 8;
    }
    TakeByte(S, limb', bytes', up[i'..un], u);
    b := limb' % 256;
    limb' := limb' / 256;
    bytes' := bytes' - 1;
    Pow2Values();
  }

  /** The walk has put down n bytes and is at byte j of word k. */
  ghost predicate Walking(l: Layout, p: int, k: nat, j: nat, n: int) {
    l.Valid() && p == Address(l, k, j) && n == k * l.size + j && 0 <= n <= l.Length()
  }

  lemma WalkOn(l: Layout, p: int, k: nat, j: nat, n: int)
    requires Walking(l, p, k, j, n) && k < l.count && j < l.size
    ensures 0 < l.size && n < l.Length() && Spot(l, n) == p && 0 <= p < l.Length()
    ensures Walking(l, p - l.endian, k, j + 1, n + 1)
  {
    SpotOf(l, k, j, n);
    AddressRange(l, k, j);
    Walk(l, k, j);
  }

  lemma NextWord(l: Layout, p: int, k: nat, n: int)
    requires Walking(l, p, k, l.size, n)
    ensures Walking(l, p + WordStep(l), k + 1, 0, n)
  {
    Walk(l, k, 0);
    Distribute(l.size, k, 1);
  }

  lemma WalkDone(l: Layout, p: int, n: int)
    requires Walking(l, p, l.count, 0, n)
    ensures n == l.Length()
  {
  }

  /** The next byte goes to its spot. */
  method ExportByte(buf: array<Byte>, l: Layout, p: int, up: array<Limb>, un: nat, i: nat, limb: Limb, bytes: nat,
                    ghost n: nat, ghost u: int) returns (i': nat, limb': Limb, bytes': nat)
    requires l.Valid() && 0 < l.size && n < l.Length() <= buf.Length && 0 <= p < l.Length() && p == Spot(l, n)
    requires i <= un <= up.Length && Exporting(Gathered(l, buf[..], n), limb, bytes, up[i..un], u)
    modifies buf
    ensures i' <= un && Exporting(Gathered(l, buf[..], n + 1), limb', bytes', up[i'..un], u)
    ensures forall a :: l.Length() <= a < buf.Length ==> buf[a] == old(buf[a])
  {
    ghost var before := buf[..];
    var b: Byte;
    b, i', limb', bytes' := NextByte(up, un, i, limb, bytes, Gathered(l, before, n), u);
    buf[p] := b;
    GatherStep(l, before, buf[..], n);
  }

  /** One word of the export. */
  method ExportWord(buf: array<Byte>, l: Layout, k: nat, p0: int, up: array<Limb>, un: nat, i0: nat, limb0: Limb,
                    bytes0: nat, ghost n0: nat, ghost u: int) returns (p: int, i: nat, limb: Limb, bytes: nat)
    requires Walking(l, p0, k, 0, n0) && k < l.count && l.Length() <= buf.Length
    requires i0 <= un <= up.Length && Exporting(Gathered(l, buf[..], n0), limb0, bytes0, up[i0..un], u)
    modifies buf
    ensures Walking(l, p, k, l.size, n0 + l.size) && i <= un
    ensures Exporting(Gathered(l, buf[..], n0 + l.size), limb, bytes, up[i..un], u)
    ensures forall a :: l.Length() <= a < buf.Length ==> buf[a] == old(buf[a])
  {
    p, i, limb, bytes := p0, i0, limb0, bytes0;
    var j: nat := 0;
    while j < l.size
      invariant j <= l.size && Walking(l, p, k, j, n0 + j) && i <= un
      invariant Exporting(Gathered(l, buf[..], n0 + j), limb, bytes, up[i..un], u)
      invariant forall a :: l.Length() <= a < buf.Length ==> buf[a] == old(buf[a])
    {
      WalkOn(l, p, k, j, n0 + j);
      i, limb, bytes := ExportByte(buf, l, p, up, un, i, limb, bytes, n0 + j, u);
      p := p - l.endian;
      j := j + 1;
    }
  }

  lemma PlaceIsBytes(n: nat)
    ensures Place(n) == Pow(256, 8 * n)
  {
    PlaceIsPow2(n);
    PowOfPower(2, 8, 8 * n);
    SmallPowers();
  }

  // Shifting out bytes until nothing is left counts them.
  method TopBytes(top: Limb) returns (k: nat)
    requires 0 < top
    ensures 1 <= k <= 8 && Pow(256, k - 1) <= top < Pow(256, k)
  {
    var limb: Limb := top / 256;
    k := 1;
    PowStep(256, 0);
    LimbBytes();
    while limb != 0
      invariant 1 <= k && Pow(256, k - 1) <= top && limb * Pow(256, k) <= top < (limb + 1) * Pow(256, k)
      decreases limb
    {
      PowStep(256, k);
      PowPositive(256, k);
      MulMono(1, limb, Pow(256, k));
      ByteOff(limb, Pow(256, k), top);
      limb := limb / 256;
      k := k + 1;
    }
    if 8 < k {
      PowMono(256, 8, k - 1);
    }
  }

  lemma LimbBytes()
    ensures Pow(256, 8) == B
  {
    PlaceIsBytes(1);
    PlaceStep(0);
  }

  lemma ByteOff(x: int, p: int, t: int)
    requires x * p <= t < (x + 1) * p && 0 < p && 0 <= x
    ensures x / 256 * (256 * p) <= t < (x / 256 + 1) * (256 * p)
  {
    MulMono(x / 256 * 256, x, p);
    MulMono(x + 1, (x / 256 + 1) * 256, p);
    Assoc(x / 256, 256, p);
    Assoc(x / 256 + 1, 256, p);
  }

  /** The number of bytes of a limb buffer. */
  method CountBytes(up: array<Limb>, un: nat) returns (k: nat)
    requires 1 <= un <= up.Length && Normalised(up[..un])
    ensures 0 <= Val(up[..un]) && 1 <= k && Pow(256, k - 1) <= Val(up[..un]) < Pow(256, k)
    ensures 8 * (un - 1) < k
  {
    ghost var U := up[..un];
    var top := TopBytes(up[un - 1]);
    k := top + (un - 1) * 8;
    TopOne(U);
    ValBound(U[..un - 1]);
    PlaceIsBytes(un - 1);
    PowAdd(256, top, 8 * (un - 1));
    PowAdd(256, top - 1, 8 * (un - 1));
    BitLengthAbove(Val(U), Val(U[..un - 1]), U[un - 1], Place(un - 1), Pow(256, top - 1), Pow(256, top));
  }

  // Enough bytes have been put down: nothing is left.
  lemma AllBytes(S: seq<Byte>, limb: Limb, bytes: nat, V: seq<Limb>, u: int, k: nat)
    requires Exporting(S, limb, bytes, V, u) && u < Pow(256, k) && k <= |S|
    ensures u == Little(S, 256)
  {
    PowMono(256, k, |S|);
    PowPositive(256, |S|);
    ValBound(V);
    PowPositive(2, 8 * bytes);
    MulNonneg(Pow2(8 * bytes), Val(V));
    LittleBound(S, 256);
    var rest := limb + Pow2(8 * bytes) * Val(V);
    if rest >= 1 {
      MulMono(1, rest, Pow(256, |S|));
    }
  }

  /** All words of the export. */
  method ExportWords(buf: array<Byte>, l: Layout, up: array<Limb>, un: nat, ghost k: nat)
    requires l.Valid() && l.Length() <= buf.Length && un <= up.Length
    requires Val(up[..un]) < Pow(256, k) && k <= l.Length()
    modifies buf
    ensures NumberIn(l, buf[..]) == Val(up[..un])
    ensures forall a :: l.Length() <= a < buf.Length ==> buf[a] == old(buf[a])
  {
    ghost var u := Val(up[..un]);
    var p: int := Start(l);
    var w: nat, i: nat, limb: Limb, bytes: nat := 0, 0, 0, 0;
    ghost var n: nat := 0;
    StartIsAddress(l);
    LittleEmpty(256);
    PowStep(256, 0);
    PowStep(2, 0);
    assert Gathered(l, buf[..], 0) == [];
    assert up[0..un] == up[..un];
    while w < l.count
      invariant w <= l.count && i <= un && Walking(l, p, w, 0, n)
      invariant Exporting(Gathered(l, buf[..], n), limb, bytes, up[i..un], u)
      invariant forall a :: l.Length() <= a < buf.Length ==> buf[a] == old(buf[a])
    {
      p, i, limb, bytes := ExportWord(buf, l, w, p, up, un, i, limb, bytes, n, u);
      n := n + l.size;
      NextWord(l, p, w, n);
      p := p + WordStep(l);
      w := w + 1;
    }
    WalkDone(l, p, n);
    AllBytes(Gathered(l, buf[..], n), limb, bytes, up[i..un], u, k);
    NumberIs(l, buf[..]);
  }

  /** The words of size bytes that hold k bytes. */
  lemma WordCount(v: int, size: nat, k: nat, count: nat)
    requires 0 < size && 1 <= k && Pow(256, k - 1) <= v < Pow(256, k) && count == (k + size - 1) / size
    ensures 1 <= count && 0 <= size * (count - 1) && k <= size * count
    ensures Pow(256, size * (count - 1)) <= v < Pow(256, size * count)
  {
    CeilDiv(k, size, count);
    MulNonneg(size, count - 1);
    PowMono(256, size * (count - 1), k - 1);
    PowMono(256, k, size * count);
  }

  /** A buffer of room for the number has room for its words. */
  lemma WordsFit(v: int, size: nat, count: nat, length: nat)
    requires 0 < size && 1 <= count && 0 <= size * (count - 1) && Pow(256, size * (count - 1)) <= v
    requires 0 <= size * (length / size) && v < Pow(256, size * (length / size))
    ensures size * count <= length
  {
    var m := length / size;
    DivMod(length, size);
    if m <= count - 1 {
      MulMono(m, count - 1, size);
      PowMono(256, size * m, size * (count - 1));
    } else {
      MulMono(count, m, size);
    }
  }

  /** The whole words in a buffer can hold v. */
  ghost predicate HasRoom(length: nat, size: nat, v: int)
    requires 0 < size
  {
    DivNonneg(length, size);
    MulNonneg(size, length / size);
    v < Pow(256, size * (length / size))
  }

  /** v takes so many words of size bytes: they can hold it, and one less cannot. */
  ghost predicate Takes(v: int, size: nat, count: nat) {
    && 1 <= count
    && (MulNonneg(size, count);
        MulNonneg(size, count - 1);
        Pow(256, size * (count - 1)) <= v < Pow(256, size * count))
  }

  function ByteOrder(endian: int, host: int): int {
    if endian == 0 then host else endian
  }

  /** mpz_export: the magnitude of u as words of size bytes; without a buffer a new one is made.
      Byte order zero stands for that of the host. Zero gives no words. */
  method Export(r: array?<Byte>, order: int, size: nat, endian: int, host: int, u: Mpz)
    returns (buf: array?<Byte>, count: nat)
    requires (order == 1 || order == -1) && -1 <= endian <= 1 && (host == 1 || host == -1)
    requires u.Valid() && (0 < size || u.Value() == 0)
    requires r != null && u.Value() != 0 ==> HasRoom(r.Length, size, AbsInt(u.Value()))
    modifies r
    ensures r != null ==> buf == r
    ensures u.Value() == 0 ==> count == 0 && (r != null ==> r[..] == old(r[..]))
    ensures u.Value() != 0 ==> Takes(AbsInt(u.Value()), size, count) && buf != null && size * count <= buf.Length
    ensures u.Value() != 0 && endian != 0 ==>
              NumberIn(Layout(order, endian, size, count), buf[..]) == AbsInt(u.Value())
    ensures u.Value() != 0 && endian == 0 ==>
              NumberIn(Layout(order, host, size, count), buf[..]) == AbsInt(u.Value())
    ensures r != null ==> forall a :: size * count <= a < r.Length ==> r[a] == old(r[a])
  {
    Signs(u);
    buf, count := r, 0;
    if u.size != 0 {
      var un := AbsInt(u.size);
      var k := CountBytes(u.d, un);
      count := (k + size - 1) / size;
      WordCount(AbsInt(u.Value()), size, k, count);
      var l := Layout(order, ByteOrder(endian, host), size, count);
      if buf == null {
        buf := new Byte[l.Length()];
      } else {
        DivNonneg(buf.Length, size);
        MulNonneg(size, buf.Length / size);
        WordsFit(AbsInt(u.Value()), size, count, buf.Length);
      }
      ExportWords(buf, l, u.d, un, k);
    }
  }

  // --- import ---

  /** The complete limbs R and the bytes in limb hold the bytes S. */
  ghost predicate Importing(S: seq<Byte>, R: seq<Limb>, limb: Limb, bytes: nat) {
    && bytes < 8 && |S| == 8 * |R| + bytes && limb < Pow2(8 * bytes)
    && Val(R) + limb * Place(|R|) == Little(S, 256)
  }

  lemma BytesBelow(limb: int, b: int, p: int)
    requires 0 <= limb < p && 0 <= b < 256
    ensures 0 <= limb + b * p < 256 * p
  {
    MulNonneg(b, p);
    MulMono(b + 1, 256, p);
    Distribute(p, b, 1);
  }

  lemma ByteShift(limb: Limb, bytes: nat, b: Byte)
    requires bytes < 8 && limb < Pow2(8 * bytes)
    ensures Shl(b, 8 * bytes) == b * Pow2(8 * bytes) && 0 < Pow2(8 * bytes) && Shl(b, 8 * bytes) % Pow2(8 * bytes) == 0
    ensures 0 <= limb + b * Pow2(8 * bytes) < Pow2(8 * (bytes + 1)) <= B
  {
    var p := Pow2(8 * bytes);
    SmallPowers();
    Pow2Values();
    PowAdd(2, 8, 8 * bytes);
    PowMono(2, 8 * (bytes + 1), 64);
    BytesBelow(limb, b, p);
    BytesBelow(0, b, p);
    DivModUnique(b * p, B, 0, b * p);
    ShlSplit(b, 8 * bytes);
  }

  lemma BytePlace(bytes: nat, n: nat)
    ensures Pow(256, 8 * n + bytes) == Pow2(8 * bytes) * Place(n)
  {
    PlaceIsBytes(n);
    PowAdd(256, bytes, 8 * n);
    PowOfPower(2, 8, bytes);
    SmallPowers();
  }

  lemma ByteValue(limb: int, b: int, p: int, q: int, v: int)
    ensures v + (limb + b * p) * q == v + limb * q + b * (p * q)
  {
    Distribute(q, limb, b * p);
    Assoc(b, p, q);
  }

  // A byte on top of the ones in the limb.
  lemma PutByte(S: seq<Byte>, R: seq<Limb>, limb: Limb, bytes: nat, b: Byte)
    requires Importing(S, R, limb, bytes)
    ensures Val(R) + (limb + b * Pow2(8 * bytes)) * Place(|R|) == Little(S + [b], 256)
  {
    LittleSnoc(S, b, 256);
    BytePlace(bytes, |R|);
    ByteValue(limb, b, Pow2(8 * bytes), Place(|R|), Val(R));
  }

  /** One byte of the import. */
  method ImportByte(rp: array<Limb>, i: nat, limb: Limb, bytes: nat, b: Byte, ghost S: seq<Byte>)
    returns (i': nat, limb': Limb, bytes': nat)
    requires i <= rp.Length && Importing(S, rp[..i], limb, bytes) && |S| < 8 * rp.Length
    modifies rp
    ensures i' <= rp.Length && Importing(S + [b], rp[..i'], limb', bytes')
  {
    ghost var R := rp[..i];
    PutByte(S, R, limb, bytes, b);
    ByteShift(limb, bytes, b);
    OrIsSum(Shl(b, 8 * bytes), limb, 8 * bytes);
    limb' := OrDisjoint(Shl(b, 8 * bytes), limb, 8 * bytes);
    i', bytes' := i, bytes + 1;
    if bytes' == 8 {
      ValSnoc(R, limb');
      rp[i] := limb';
      i', bytes', limb' := i + 1, 0, 0;
      assert rp[..i + 1] == R + [rp[i]];
      PowStep(2, 0);
    }
  }

  lemma GatherNext(l: Layout, buf: seq<Byte>, n: nat)
    requires l.Valid() && n < l.Length() <= |buf|
    ensures 0 < l.size && 0 <= Spot(l, n) < |buf| && Gathered(l, buf, n + 1) == Gathered(l, buf, n) + [buf[Spot(l, n)]]
  {
    SpotRange(l, n);
  }

  /** The byte at the next spot. */
  method ImportNext(rp: array<Limb>, l: Layout, src: array<Byte>, p: int, i: nat, limb: Limb, bytes: nat, ghost n: nat)
    returns (i': nat, limb': Limb, bytes': nat)
    requires l.Valid() && 0 < l.size && n < l.Length() <= src.Length && l.Length() <= 8 * rp.Length
    requires p == Spot(l, n) && 0 <= p < src.Length
    requires i <= rp.Length && Importing(Gathered(l, src[..], n), rp[..i], limb, bytes)
    modifies rp
    ensures src[..] == old(src[..])
    ensures i' <= rp.Length && Importing(Gathered(l, src[..], n + 1), rp[..i'], limb', bytes')
  {
    GatherNext(l, src[..], n);
    i', limb', bytes' := ImportByte(rp, i, limb, bytes, src[p], Gathered(l, src[..], n));
  }

  /** One word of the import. */
  method ImportWord(rp: array<Limb>, l: Layout, src: array<Byte>, k: nat, p0: int, i0: nat, limb0: Limb, bytes0: nat,
                    ghost n0: nat)
    returns (p: int, i: nat, limb: Limb, bytes: nat)
    requires Walking(l, p0, k, 0, n0) && k < l.count && l.Length() <= src.Length && l.Length() <= 8 * rp.Length
    requires i0 <= rp.Length && Importing(Gathered(l, src[..], n0), rp[..i0], limb0, bytes0)
    modifies rp
    ensures Walking(l, p, k, l.size, n0 + l.size) && src[..] == old(src[..])
    ensures i <= rp.Length && Importing(Gathered(l, src[..], n0 + l.size), rp[..i], limb, bytes)
  {
    p, i, limb, bytes := p0, i0, limb0, bytes0;
    ghost var source, n: nat := src[..], n0;
    var j: nat := 0;
    while j < l.size
      invariant j <= l.size && n == n0 + j && Walking(l, p, k, j, n) && src[..] == source
      invariant i <= rp.Length && Importing(Gathered(l, source, n), rp[..i], limb, bytes)
    {
      WalkOn(l, p, k, j, n);
      i, limb, bytes := ImportNext(rp, l, src, p, i, limb, bytes, n);
      p := p - l.endian;
      j, n := j + 1, n + 1;
    }
  }

  /** All words of the import. */
  method ImportWords(rp: array<Limb>, l: Layout, src: array<Byte>) returns (i: nat, limb: Limb, bytes: nat)
    requires l.Valid() && l.Length() <= src.Length && l.Length() <= 8 * rp.Length
    modifies rp
    ensures i <= rp.Length && Importing(Gathered(l, src[..], l.Length()), rp[..i], limb, bytes)
            && src[..] == old(src[..])
  {
    ghost var all := src[..];
    var p: int := Start(l);
    var w: nat := 0;
    i, limb, bytes := 0, 0, 0;
    ghost var n: nat := 0;
    StartIsAddress(l);
    LittleEmpty(256);
    PlaceStep(0);
    PowStep(2, 0);
    ValEmpty();
    assert Gathered(l, all, 0) == [] && rp[..0] == [];
    while w < l.count
      invariant w <= l.count && Walking(l, p, w, 0, n) && src[..] == all
      invariant i <= rp.Length && Importing(Gathered(l, all, n), rp[..i], limb, bytes)
    {
      p, i, limb, bytes := ImportWord(rp, l, src, w, p, i, limb, bytes, n);
      n := n + l.size;
      NextWord(l, p, w, n);
      p := p + WordStep(l);
      w := w + 1;
    }
    WalkDone(l, p, n);
  }

  lemma LastLimb(S: seq<Byte>, R: seq<Limb>, limb: Limb, bytes: nat, rn: nat)
    requires Importing(S, R, limb, bytes) && rn == (|S| + 7) / 8
    ensures limb != 0 ==> |R| < rn && Val(R + [limb]) == Little(S, 256)
    ensures limb == 0 ==> Val(R) == Little(S, 256)
  {
    ValSnoc(R, limb);
    PowStep(2, 0);
  }

  // The limb that is left over, and the size.
  method StoreLast(r: Mpz, ghost S: seq<Byte>, i: nat, limb: Limb, ghost bytes: nat)
    requires i <= r.d.Length && r.alloc <= r.d.Length && (|S| + 7) / 8 <= r.alloc && Importing(S, r.d[..i], limb, bytes)
    modifies r`size, r.d
    ensures r.Valid() && r.Value() == Little(S, 256)
  {
    LastLimb(S, r.d[..i], limb, bytes, (|S| + 7) / 8);
    if limb != 0 {
      ghost var R := r.d[..i];
      r.d[i] := limb;
      r.size := i + 1;
      assert r.d[..i + 1] == R + [limb];
    } else {
      var n := NormalizedSize(r.d, i);
      r.size := n;
    }
  }

  /** mpz_import: the number in so many words of size bytes. */
  method Import(r: Mpz, count: nat, order: int, size: nat, endian: int, host: int, src: array<Byte>)
    requires (order == 1 || order == -1) && -1 <= endian <= 1 && (host == 1 || host == -1)
    requires r.Valid() && size * count <= src.Length
    modifies r, r.d
    ensures r.Valid() && (r.d == old(r.d) || fresh(r.d)) && src[..] == old(src[..])
    ensures endian != 0 ==> r.Value() == NumberIn(Layout(order, endian, size, count), src[..])
    ensures endian == 0 ==> r.Value() == NumberIn(Layout(order, host, size, count), src[..])
  {
    var l := Layout(order, ByteOrder(endian, host), size, count);
    var rn := (l.Length() + 7) / 8;
    r.Realloc(rn);
    var i, limb, bytes := ImportWords(r.d, l, src);
    NumberIs(l, src[..]);
    StoreLast(r, Gathered(l, src[..], l.Length()), i, limb, bytes);
  }

  /** Exporting a number and importing its words gives the magnitude back. */
  method RoundTrip(u: Mpz, v: Mpz, order: int, size: nat, endian: int, host: int)
    requires (order == 1 || order == -1) && -1 <= endian <= 1 && (host == 1 || host == -1)
    requires u.Valid() && v.Valid() && u != v && u.d != v.d && 0 < size
    modifies v, v.d
    ensures v.Valid() && v.Value() == AbsInt(u.Value())
  {
    var buf, count := Export(null, order, size, endian, host, u);
    if buf == null {
      buf := new Byte[0];
    }
    Import(v, count, order, size, endian, host, buf);
  }

  // --- what the layouts mean ---

  lemma FromTheEnd(size: int, count: int, k: int, j: int, i: int)
    requires i == k * size + j
    ensures size * (count - 1 - k) + (size - 1 - j) == size * count - 1 - i
  {
    Distribute(size, count, 1 + k);
    Distribute(size, 1, k);
  }

  /** Most significant word and byte first: the buffer is the number's digits in base 256. */
  lemma BigEndian(l: Layout, buf: seq<Byte>)
    requires l.order == 1 && l.endian == 1 && l.Length() == |buf|
    ensures NumberIn(l, buf) == Big(buf, 256)
  {
    var s := Gathered(l, buf, |buf|);
    NumberIs(l, buf);
    forall i | 0 <= i < |buf| ensures s[i] == buf[|buf| - 1 - i] {
      WordIndex(l, i);
      SpotRange(l, i);
      FromTheEnd(l.size, l.count, i / l.size, i % l.size, i);
    }
    assert Reversed(s) == buf;
  }

  /** Least significant word and byte first: the buffer is the same digits backwards. */
  lemma LittleEndian(l: Layout, buf: seq<Byte>)
    requires l.order == -1 && l.endian == -1 && l.Length() == |buf|
    ensures NumberIn(l, buf) == Little(buf, 256)
  {
    var s := Gathered(l, buf, |buf|);
    NumberIs(l, buf);
    forall i | 0 <= i < |buf| ensures s[i] == buf[i] {
      WordIndex(l, i);
      SpotRange(l, i);
    }
    assert s == buf;
  }

  lemma ByteBefore(l: Layout, buf: seq<Byte>, n: nat, a: int)
    requires l.size == 1 && n < l.count == |buf| && a == WordStart(l, n)
    ensures 0 <= a < |buf| && a == if l.order == 1 then |buf| - 1 - n else n
    ensures WordValue(l, buf, n) == buf[a]
  {
    WordFits(l, n);
    BigOne(buf[a], 256);
    assert WordBytes(l, buf, n) == [buf[a]] && Reversed([buf[a]]) == [buf[a]];
  }

  lemma {:induction false} SingleBytesBig(l: Layout, buf: seq<Byte>, n: nat)
    requires l.size == 1 && l.order == 1 && n <= l.count == |buf|
    ensures WordSum(l, buf, n) == Big(buf[|buf| - n..], 256)
    decreases n
  {
    if n == 0 {
      BigEmpty(256);
    } else {
      SingleBytesBig(l, buf, n - 1);
      ByteBefore(l, buf, n - 1, WordStart(l, n - 1));
      var s := buf[|buf| - n..];
      assert s[1..] == buf[|buf| - (n - 1)..];
      BigCons(s, 256);
    }
  }

  lemma {:induction false} SingleBytesLittle(l: Layout, buf: seq<Byte>, n: nat)
    requires l.size == 1 && l.order != 1 && n <= l.count == |buf|
    ensures WordSum(l, buf, n) == Little(buf[..n], 256)
    decreases n
  {
    if n == 0 {
      LittleEmpty(256);
    } else {
      SingleBytesLittle(l, buf, n - 1);
      ByteBefore(l, buf, n - 1, WordStart(l, n - 1));
      assert buf[..n] == buf[..n - 1] + [buf[n - 1]];
      LittleSnoc(buf[..n - 1], buf[n - 1], 256);
    }
  }

  /** Words of one byte have no byte order. */
  lemma SingleBytes(l: Layout, buf: seq<Byte>)
    requires l.size == 1 && l.count == |buf|
    ensures NumberIn(l, buf) == if l.order == 1 then Big(buf, 256) else Little(buf, 256)
  {
    if l.order == 1 {
      SingleBytesBig(l, buf, |buf|);
      assert buf[0..] == buf;
    } else {
      SingleBytesLittle(l, buf, |buf|);
      assert buf[..|buf|] == buf;
    }
  }
}
