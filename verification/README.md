# Verified model of the bundled arithmetic and hash code

This Dafny project models three vendored C components of the library and proves what they compute.

- **mini-gmp** (`lib/external/gmp/mini-gmp.c`): integers of any size. The limb layer works in place on arrays of
  64-bit limbs; wrap-around is written out as a remainder modulo B = 2^64. `Mpz` is the number object with its
  capacity, signed size and limb buffer; a valid one has no leading zero limb. On top of it stand signed division,
  shifts, bitwise operations, gcd and extended gcd, modular inverse and power, roots, the Lucas and Miller-Rabin
  steps, base conversion, and byte import and export. All of these keep the loops, branches, temporaries and swaps of
  the C code, and results may share objects with operands where the C code allows it.
- **SHA-3** (`lib/external/sha3/sha3.c`): the permutation in place on 25 lanes, proved equal on every bit to the step
  mappings of FIPS 202, and the streaming state, proved to be the sponge construction for every way of cutting the
  message into pieces. `Sha3.Digest` states the end result: the bits of the digest are SHA-3 of FIPS 202, section 6.1, of
  the bits of the message.
- **RIPEMD-160** (`lib/external/ripemd160/ripemd160.c`): the compression function and the streaming state, proved to
  compute the 80-step definition over the padded message of RFC 1320, sections 3.1 and 3.2. `RipemdSpec` is that
  definition, with its own tables and with rotations and Boolean functions given bit by bit; it uses nothing of the code.

`dafny verify dfyconfig.toml` checks everything.

## Layout

| files | content |
|---|---|
| Arith, Pow, Divisors, Congruence, Primes, Digits, Blocks | mathematics used throughout |
| Limb, Reciprocal, Invert, Bits, LimbSeqs | single limbs, reciprocals, values of limb sequences |
| Mpn, MpnDiv, MpnDivQr, MpnStr | limb buffers: arithmetic, division, base conversion |
| Mpz, MpzUi, MpzDiv, MpzDiv2exp, MpzBits, MpzSize, MpzIO | numbers: arithmetic, division, bits, digits, bytes |
| Gcd, GcdExt, PowMod, Root, Lucas, MillerRabin | number theory on numbers |
| Lanes, ByteLanes, Keccak, Sponge, Sha3 | SHA-3 on lanes and bytes |
| Fips202, KeccakFips, FipsSponge, SpongeFips | FIPS 202 on bits, and the proofs that both agree |
| RipemdBlock, RipemdLines, Ripemd160 | RIPEMD-160 on words and bytes |
| RipemdSpec, RipemdAgrees | its definition in 80 steps, and the proof that both agree |

## Conventions

- Where the C code aborts through `gmp_die` (zero divisor, zero modulus, negative exponent of a base without inverse,
  even root of a negative number, zeroth root) or through `assert`, the model has a precondition. Allocation succeeds.
- A limb is an integer below 2^64. Shifts and masks are multiplications, divisions and remainders by powers of two;
  `Bits` proves them equal to the bitwise operators. `and`, `ior` and `xor` differ in C in the operator, the result
  length and one expression, so `MpzBits.Logic` takes the operator as a parameter: the second loop of `mpz_xor` writes
  `(ul ^ ux) + rc` where the pattern of the others gives `(ul ^ vx ^ rx) + rc`, the same value since rx = ux ^ vx.
- Ghost parameters carry values that only the proof needs.
- The comment in `mpz_gcdext` announces a cofactor below |u| / 2g; what the code ensures, in its own naming after the
  swap, is 2 g |s| <= |v|. The contract states the latter; `GcdExtended.OwnBoundFails` is an input that fails the former.
- `mpn_invert_3by2` makes one comparison strict that an exact computation would make non-strict; the equal case cannot
  occur, which is `Invert.NoExactReciprocal`.
- `mpz_powm` returns 1 for exponent zero whatever the modulus, also for modulus one; the contract says so.
- The host's byte order, which endianness zero stands for, is a parameter of import and export.
- The hash states keep the message so far as ghost state, so that independence of the cutting is part of the contract.

## Model

| member | source | states |
|---|---|---|
| `Limbs.UmulPpmm` | lib/external/gmp/mini-gmp.c:132-170 | The two result limbs hold exactly u * v, although one of the half-limb sums may wrap |
| `Limbs.UdivQrnndPreinv` | lib/external/gmp/mini-gmp.c:172-189 | For every nh < d with d normalised and di its 2/1 reciprocal: nh * B + nl == q * d + r and r < d |
| `Limbs.UdivQr3by2` | lib/external/gmp/mini-gmp.c:191-216 | For a numerator whose top two limbs are below the normalised two-limb divisor: the true quotient limb and two-limb remainder, through both wrap-around corrections |
| `Reciprocal.InverseIsFloor` | lib/external/gmp/mini-gmp.c:765-768 | The inequality used for a reciprocal holds if and only if it is floor((n - 1) / d) - beta |
| `Invert.Invert3by2` | lib/external/gmp/mini-gmp.c:769-875 | For every normalised u1 and every u0 the result is floor((B^3 - 1) / (u1 B + u0)) - B, and for u0 = 0 also the 2/1 reciprocal of u1 |
| `Invert.NoExactReciprocal` | lib/external/gmp/mini-gmp.c:848-872 | The comparison that the code makes strict is never an equality: a divisor of B^3 with u0 > 0 does not exist |
| `Mpn.Add` | lib/external/gmp/mini-gmp.c:466-477 | Sum of two buffers in place: value of the result plus carry times B^an is the sum of the old values; nothing else changes |
| `Mpn.Sub` | lib/external/gmp/mini-gmp.c:518-529 | Difference of two buffers in place, with the borrow out |
| `Mpn.AddMul1` | lib/external/gmp/mini-gmp.c:554-578 | Adds v times a buffer to another in place; the limb carried out makes the equation exact |
| `Mpn.SubMul1` | lib/external/gmp/mini-gmp.c:580-604 | Subtracts v times a buffer from another in place; the limb borrowed makes the equation exact |
| `Mpn.Mul` | lib/external/gmp/mini-gmp.c:606-629 | The product of the values of two buffers, into a third that overlaps neither |
| `Mpn.Lshift` | lib/external/gmp/mini-gmp.c:643-671 | Shift by less than a limb, in place or not: value plus what falls out at the top is the value times 2^cnt |
| `Mpn.Rshift` | lib/external/gmp/mini-gmp.c:673-698 | Shift down: result and what falls out make up the old value exactly |
| `Mpn.Neg` | lib/external/gmp/mini-gmp.c:747-760 | Two's complement of the buffer; tells whether it was non-zero |
| `MpnDiv.DivStep` | lib/external/gmp/mini-gmp.c:1055-1083 | One quotient limb of the general division: the window less q times the divisor is below the divisor, whether the estimate is exact, one too large (one add-back), or the special maximal limb |
| `MpnDiv.DivQrPi1` | lib/external/gmp/mini-gmp.c:1029-1090 | The loop over all windows: dividend = Q * D + R with R < D for a normalised divisor of three or more limbs |
| `MpnDivQr.DivQrInvert` | lib/external/gmp/mini-gmp.c:918-947 | The shift, the normalised top limbs and their reciprocal, for divisors of one, two and more limbs |
| `MpnDivQr.DivQr1Preinv` | lib/external/gmp/mini-gmp.c:951-983 | Division by one limb with the shift undone: N = Q * d + r, r < d; the quotient may overwrite the dividend |
| `MpnDivQr.DivQr2Preinv` | lib/external/gmp/mini-gmp.c:985-1027 | Division by two limbs with the shift undone, remainder in the two low limbs |
| `MpnDivQr.DivQrPreinv` | lib/external/gmp/mini-gmp.c:1092-1124 | Division by any prepared divisor, remainder unshifted in the low limbs of the dividend |
| `MpnDivQr.DivQr` | lib/external/gmp/mini-gmp.c:1126-1145 | For every dividend and every divisor with a non-zero top limb: N = Q * D + R with 0 <= R < D, Q in qp (unless null) and R in the low limbs of np |
| `Mpzs.Mpz.Resize` | lib/external/gmp/mini-gmp.c:1440-1455 | The capacity becomes exactly the request, at least one limb; a number that still fits keeps its value, one that does not becomes zero |
| `Mpzs.Mpz.Realloc` | lib/external/gmp/mini-gmp.c:1457-1460 | The capacity becomes the larger of the request and the old one; the number and all old limbs stay, and so does the buffer unless it was too small |
| `Mpzs.Mpz.Cmp` | lib/external/gmp/mini-gmp.c:1852-1864 | The sign of the difference of the two numbers, decided by lengths first |
| `Mpzs.Mpz.Add` | lib/external/gmp/mini-gmp.c:1983-1994 | The value becomes the sum of the old values, for all signs and with the result allowed to be an operand; no leading zero limb |
| `Mpzs.Mpz.Sub` | lib/external/gmp/mini-gmp.c:1996-2007 | The value becomes the difference of the old values, under the same aliasing |
| `Mpzs.Mpz.Mul` | lib/external/gmp/mini-gmp.c:2033-2069 | The value becomes the product of the old values |
| `Mpzs.Mpz.Mul2exp` | lib/external/gmp/mini-gmp.c:2071-2103 | The value becomes the old value of u times 2^bits |
| `MpzDiv.DivisionUnique` | lib/external/gmp/mini-gmp.c:2150-2260 | A quotient and remainder under a rounding mode are determined by the defining conditions |
| `MpzDiv.DivisionRounds` | lib/external/gmp/mini-gmp.c:2146-2149 | Those conditions say that the quotient is the real quotient rounded down, up or toward zero |
| `MpzDiv.DivQrMpz` | lib/external/gmp/mini-gmp.c:2150-2260 | For every n, d != 0 and mode: n = q * d + r with |r| < |d| and the sign the mode asks for, q and r optional, either allowed to be an operand; tells whether r is non-zero |
| `MpzDiv2exp.DivQ2exp` | lib/external/gmp/mini-gmp.c:2322-2374 | The shifted magnitude, adjusted, is exactly the quotient by 2^k under the mode |
| `MpzDiv2exp.DivR2exp` | lib/external/gmp/mini-gmp.c:2376-2444 | Masking and negating limbs gives exactly the remainder by 2^k under the mode |
| `MpzUi.DivQrUi` | lib/external/gmp/mini-gmp.c:2512-2530 | Quotient and remainder by a limb under any mode, both optional, the remainder even into the dividend or over the quotient; returns the magnitude of the remainder |
| `MpzBits.TstBit` | lib/external/gmp/mini-gmp.c:3628-3659 | Reads bit i of the number in infinite two's complement, for both signs and any i |
| `MpzBits.Logic` | lib/external/gmp/mini-gmp.c:3764-3975 | The common loops of mpz_and, mpz_ior and mpz_xor combine bit i of the operands by the operator, for every i and all signs; the result has no leading zero limb |
| `MpzBits.MpzAnd` | lib/external/gmp/mini-gmp.c:3763-3833 | Bit i of the result is set exactly if bit i of both operands is, for every i and all signs |
| `MpzBits.MpzIor` | lib/external/gmp/mini-gmp.c:3835-3906 | Bit i of the result is set exactly if bit i of an operand is |
| `MpzBits.MpzXor` | lib/external/gmp/mini-gmp.c:3908-3975 | Bit i of the result is set exactly if the operands differ in bit i |
| `MpzBits.BitsDetermine` | lib/external/gmp/mini-gmp.c:3602-3626 | Two numbers with the same bits are the same, so the bits fix the result |
| `GcdBinary.Gcd11` | lib/external/gmp/mini-gmp.c:2622-2663 | The gcd of two limbs, not both zero |
| `GcdBinary.MakeOdd` | lib/external/gmp/mini-gmp.c:2682-2693 | Divides out the largest power of two and returns its exponent |
| `Divisors.GcdOfShifted` | lib/external/gmp/mini-gmp.c:2704-2716 | The gcd is that of the odd parts times the smaller power of two |
| `Divisors.GcdIsGcd` | lib/external/gmp/mini-gmp.c:2695-2756 | The gcd of the contracts divides both numbers, and every common divisor divides it |
| `GcdBinary.GcdSubtractive` | lib/external/gmp/mini-gmp.c:2727-2752 | The loop ends, and keeps the gcd through subtraction, removal of twos and the switch to one limb |
| `GcdBinary.GcdMpz` | lib/external/gmp/mini-gmp.c:2695-2756 | The value becomes the gcd of |u| and |v|, for all u and v |
| `GcdExtended.SubtractStep` | lib/external/gmp/mini-gmp.c:2854-2892 | Each turn keeps u = t0 tu + t1 tv, v = s0 tu + s1 tv and determinant 2^p, and lowers tu + tv |
| `GcdExtended.HalvingStep` | lib/external/gmp/mini-gmp.c:2906-2918 | If either cofactor is odd, moving by (-v/g, u/g) makes both even; the bounds on the cofactors survive the halving |
| `GcdExtended.GcdExt` | lib/external/gmp/mini-gmp.c:2758-2939 | g = gcd(|u|, |v|) and s u + t v = g for all u and v; when neither is zero, 2 g |s| <= |v| and g |t| <= |u| if the odd part of u has at least as many limbs as that of v, else 2 g |t| <= |u| and g |s| <= |v| |
| `GcdExtended.OwnBoundFails` | lib/external/gmp/mini-gmp.c:2915-2921 | The bound |s| < |u| / 2g does not hold: for u = 3 and v = 101 every result that meets the contract has s = 34 and t = -1 |
| `GcdExtended.InvertMpz` | lib/external/gmp/mini-gmp.c:2977-3007 | Returns true exactly if u != 0, |m| > 1 and gcd(|u|, |m|) = 1; then 0 < r < |m| and m divides r u - 1; otherwise r is unchanged |
| `PowMod.PowUi` | lib/external/gmp/mini-gmp.c:3012-3031 | The value becomes b^e |
| `PowMod.ReduceBase` | lib/external/gmp/mini-gmp.c:3088-3112 | The reduced base is congruent to b, also for negative b, where zero may be held as the modulus |
| `PowMod.PowerLimbs` | lib/external/gmp/mini-gmp.c:3116-3136 | Square and multiply over all limbs of the exponent: congruent to base^e although numbers are reduced by the shifted modulus, and only when they outgrow it |
| `PowMod.Powm` | lib/external/gmp/mini-gmp.c:3043-3146 | For e > 0: 0 <= r < |m| and r = b^e modulo |m|; for e < 0 and invertible b: r b^(-e) = 1 modulo |m|; for e = 0 the result is 1 |
| `Root.NewtonAbove` | lib/external/gmp/mini-gmp.c:3184-3206 | A Newton step never falls below the integer root (inequality of the means) |
| `Root.NewtonStops` | lib/external/gmp/mini-gmp.c:3184-3206 | A step that does not decrease the guess has found the root |
| `Root.RootRem` | lib/external/gmp/mini-gmp.c:3159-3217 | |x|^z <= |y| < (|x| + 1)^z, x has the sign of y, and r = y - x^z; both loops terminate |
| `Root.RootExact` | lib/external/gmp/mini-gmp.c:3219-3231 | Returns true exactly if y is a z-th power |
| `MpzSize.SizeInBase` | lib/external/gmp/mini-gmp.c:4143-4194 | Exactly the number of digits of |u| for every base from 2 to 62: b^(n-1) <= |u| < b^n; 1 for zero |
| `Lucas.Doubling` | lib/external/gmp/mini-gmp.c:3377-3387 | U_2k = U_k V_k and V_2k = V_k^2 - 2 Q^k for the recurrences with P = 1 |
| `Lucas.StepDouble` | lib/external/gmp/mini-gmp.c:3377-3387 | V becomes V^2 - 2 q and Qk becomes q^2, modulo n, for a q congruent to Q^k |
| `Lucas.NextTerm` | lib/external/gmp/mini-gmp.c:3426-3441 | 2 U_(k+1) = U_k + V_k and V_(k+1) = U_(k+1) - 2 Q U_k |
| `Lucas.LucasMod` | lib/external/gmp/mini-gmp.c:3393-3446 | For odd n > 4, b0 > 0 and k = (n >> b0) | 1: V = V_k and Qk = Q^k modulo n, and the result is true exactly if n divides U_k |
| `MillerRabin.StrongTest` | lib/external/gmp/mini-gmp.c:3504-3528 | Returns true exactly if base^q is 1 or one of base^(2^i q), i < k, is -1 modulo n; never false for a prime n = 1 + 2^k q that does not divide the base |
| `MpnStr.GetBaseInfo` | lib/external/gmp/mini-gmp.c:1174-1187 | The largest power of the base below B, and its exponent |
| `MpnStr.GetStrBits` | lib/external/gmp/mini-gmp.c:1199-1226 | Digits cut out of the limbs, across limb boundaries, are those of the number; the first is not zero |
| `MpnStr.LimbGetStr` | lib/external/gmp/mini-gmp.c:1230-1249 | The digits of a limb by reciprocal division, least significant first, without leading zeros |
| `MpnStr.GetStr` | lib/external/gmp/mini-gmp.c:1295-1313 | For bases 2 to 256: digits below the base, the first not zero, with exactly the value of the limbs |
| `MpnStr.SetStrBits` | lib/external/gmp/mini-gmp.c:1315-1344 | Digits packed into limbs, also across limb boundaries, keep their value; no leading zero limb |
| `MpnStr.SetStr` | lib/external/gmp/mini-gmp.c:1386-1404 | The limbs have exactly the value of the digits, for bases 2 to 256, and no leading zero limb unless the value is zero |
| `Digits.DigitsUnique` | lib/external/gmp/mini-gmp.c:1296-1404 | A number has one digit string without leading zero, so the output is fixed by its value |
| `MpnStr.RoundTrip` | lib/external/gmp/mini-gmp.c:1296-1404 | Writing a number in a base and reading the digits back gives the same limbs |
| `MpzIO.SpotInjective` | lib/external/gmp/mini-gmp.c:4519-4562 | The pointer walk visits no byte of the buffer twice, for all word sizes, word orders and byte orders |
| `MpzIO.SpotOnto` | lib/external/gmp/mini-gmp.c:4519-4562 | The pointer walk visits every byte of the buffer |
| `MpzIO.Export` | lib/external/gmp/mini-gmp.c:4469-4572 | The words in the buffer add up to |u|, each read in the given word order and byte order (the host's for endian 0); count is the least number of words that can hold |u|: 256^(size (count - 1)) <= |u| < 256^(size count); bytes behind the words are unchanged; zero gives no words |
| `MpzIO.Import` | lib/external/gmp/mini-gmp.c:4401-4467 | The value becomes the sum of the words, word k worth 256^(size k) and found by the word order, its bytes read by the byte order, the host's for endian 0; no leading zero limb |
| `MpzIO.NumberIs` | lib/external/gmp/mini-gmp.c:4429-4450 | Walking the buffer byte by byte in order of significance gives the sum of its words, in all four layouts |
| `MpzIO.SingleBytes` | lib/external/gmp/mini-gmp.c:4402-4450 | Words of one byte are the digits in base 256, most significant first for order 1 and backwards for order -1, whatever the byte order |
| `MpzIO.BigEndian` | lib/external/gmp/mini-gmp.c:4414-4450 | For most significant word and byte first the buffer is the number in base 256 |
| `MpzIO.LittleEndian` | lib/external/gmp/mini-gmp.c:4414-4450 | For least significant word and byte first it is the same digits backwards |
| `MpzIO.RoundTrip` | lib/external/gmp/mini-gmp.c:4402-4572 | Exporting u and importing the words gives |u| |
| `Keccak.KeccakF` | lib/external/sha3/sha3.c:11-99 | The 24 rounds in place, in the scratch words bc and t, are the lane-wise rounds of the old state |
| `KeccakFips.ThetaAgrees` | lib/external/sha3/sha3.c:53-61 | On bits, the lane-wise step is theta of FIPS 202, section 3.2.1 |
| `Fips202.OffsetTriangular` | lib/external/sha3/sha3.c:24-27 | The rotation of step t is (t + 1)(t + 2) / 2, as section 3.2.2 gives it |
| `KeccakFips.RhoPiMoves` | lib/external/sha3/sha3.c:24-31 | The rotation and position tables are the offsets and the walk of section 3.2.2 followed by pi of section 3.2.3 |
| `KeccakFips.ConstantIs` | lib/external/sha3/sha3.c:14-23 | Every bit of every round constant is the one that the shift register of section 3.2.5 puts out |
| `KeccakFips.ChiAgrees` | lib/external/sha3/sha3.c:72-78 | On bits, the lane-wise step is chi of section 3.2.4, although a row is overwritten while it is read |
| `KeccakFips.PermutationAgrees` | lib/external/sha3/sha3.c:11-99 | The lane-wise rounds compute KECCAK-f[1600] as defined bit by bit in FIPS 202, section 3, for every state |
| `Sponge.TwoViews` | lib/external/sha3/sha3.c:103-116 | The bytes of the state, read back as words, are the words |
| `Sponge.TwoViewsBack` | lib/external/sha3/sha3.c:103-116 | The words of a byte string, written as bytes, are the byte string |
| `SpongeFips.StringPermutation` | lib/external/sha3/sha3.c:11-99 | On the bits of any 200-byte string the permutation is KECCAK-p[1600, 24] between the conversions of sections 3.1.2 and 3.1.3 |
| `SpongeFips.PaddedBits` | lib/external/sha3/sha3.c:139-152 | The bits of the padded bytes are the bits of the message, the suffix in the pad byte (01 for 0x06, none for 0x01) and pad10*1 of section 5.1, also when both pad bytes coincide |
| `SpongeFips.HashIsKeccak` | lib/external/sha3/sha3.c:136-152 | For every message, rate, length of output and pad byte made of a suffix and a one, the bits of the byte-wise sponge are KECCAK[c] of section 5.2 applied to the message and the suffix |
| `Sha3.Context.Init` | lib/external/sha3/sha3.c:103-114 | A fresh state for the empty message |
| `Sha3.Context.Update` | lib/external/sha3/sha3.c:118-134 | The message grows by the data; the state is that of the sponge for the message, however it was cut into pieces |
| `Sha3.Context.FinalPad` | lib/external/sha3/sha3.c:139-152 | The digest is the output of the sponge over the padded message for mdlen 1 to 66, and the first mdlen bytes of the absorbed state for all mdlen below 100 |
| `Sha3.TailBlock` | lib/external/sha3/sha3.c:139-152 | The two exclusive-or'ed pad bytes make the last block of the padding, also where they fall on the same position |
| `Sha3.Digest` | lib/external/sha3/sha3.c:163-172 | The bits of the digest are SHA-3 of section 6.1, defined on bit strings, with 8 mdlen bits of output for the bits of the data, for mdlen 1 to 66 |
| `RipemdBlock.LeftOrder` | lib/external/ripemd160/ripemd160.c:72-91 | The word order of the left line is given by the powers of rho |
| `RipemdBlock.RightOrder` | lib/external/ripemd160/ripemd160.c:72-100 | The word order of the right line is given by the powers of rho after pi |
| `RipemdLines.RowsPermute` | lib/external/ripemd160/ripemd160.c:72-100 | Each row of both tables is a permutation: every word of the block is taken once in each round of each line |
| `RipemdLines.MixBit` | lib/external/ripemd160/ripemd160.c:126-132 | F1 to F5 act on each bit by itself: parity, choice by x, (x or not y) xor z, choice by z, x xor (y or not z) |
| `RipemdLines.ConstantsAreRoots` | lib/external/ripemd160/ripemd160.c:134-150 | The constants are 2^30 times the square roots and cube roots of 2, 3, 5 and 7, rounded down |
| `RipemdLines.RolBit` | lib/external/ripemd160/ripemd160.c:65-66 | The word turned by s has bit i - s modulo 32 at i |
| `RipemdLines.LeftInvert` | lib/external/ripemd160/ripemd160.c:213-266 | For every block exactly one start of the left line leads to a given end, so no round loses anything of the line |
| `RipemdLines.RightInvert` | lib/external/ripemd160/ripemd160.c:213-266 | The same for the right line |
| `RipemdAgrees.ShiftsAgree` | lib/external/ripemd160/ripemd160.c:102-124 | In each round the shift of a message word is the same in both lines: the tables are one table in word order, permuted |
| `RipemdAgrees.CompressAgrees` | lib/external/ripemd160/ripemd160.c:191-290 | The rounds and tables compute the 80-step definition: words by powers of rho and pi, one shift table, constants as scaled roots, Boolean functions and rotations bit by bit, and the five final sums |
| `RipemdBlock.CompressChain` | lib/external/ripemd160/ripemd160.c:191-290 | Both lines of five rounds and the final mixing, in place on the chaining words, are the function that CompressAgrees ties to the definition |
| `Ripemd160.InitialAgrees` | lib/external/ripemd160/ripemd160.c:68-70 | The initial words are the bytes 01 23 45 67 89 AB CD EF FE DC BA 98 76 54 32 10 F0 E1 D2 C3, the least significant of each word first |
| `Ripemd160.Context.Init` | lib/external/ripemd160/ripemd160.c:152-159 | A fresh state for the empty message whose chaining words are those bytes |
| `Ripemd160.Context.Process` | lib/external/ripemd160/ripemd160.c:292-325 | The message grows by the data; buffer, position, length modulo 2^64 and chaining words are those of the message, and the buffer is zero behind the position, for every cut into pieces |
| `Ripemd160.Context.Done` | lib/external/ripemd160/ripemd160.c:327-353 | The 20 bytes are RIPEMD-160 of the message by its definition, in the one-block and the two-block case: bytes 4 i to 4 i + 3 are chaining word i after the padded message, least significant first |
| `Ripemd160.PaddedWhole` | lib/external/ripemd160/ripemd160.c:328-345 | The padded message consists of whole blocks and is the shortest such |
| `Ripemd160.PaddedAgrees` | lib/external/ripemd160/ripemd160.c:328-345 | The padding is a byte 0x80, (55 - m) mod 64 zeros and the eight bytes of 8 m, for a message of m bytes |
| `Ripemd160.LengthIs` | lib/external/ripemd160/ripemd160.c:335-338 | The last eight bytes are the length in bits modulo 2^64, least significant first |
| `Ripemd160.Digest` | lib/external/ripemd160/ripemd160.c:355-361 | The one-shot digest is RIPEMD-160 of the data by its definition |

## Left out

- `mpz_set_d`, `mpz_get_d`, `mpz_cmpabs_d`, `mpz_out_str`: host floating point and streams.
- `mpz_get_str` and `mpz_set_str`: the mapping between digits and characters; the digit conversion below it is modelled.
- `gmp_jacobi_coprime`, `gmp_stronglucas` and the verdict of `mpz_probab_prime_p`: they rest on quadratic reciprocity.
- `mpz_scan0`, `mpz_scan1`, `mpz_clrbit`, `mpz_combit`, `mpn_popcount`, `mpz_hamdist`, factorials and binomials, `mpz_lcm`,
  `mpn_sqrtrem`, `mpz_congruent_p`: further operations on the same representation.
- GcdBinary.ScanOne: models `mpn_common_scan` only as `mpz_make_odd` calls it, for a set bit from the bottom.
- GcdExtended.SetPower: models `mpz_setbit` only on a zero number, as the callers here use it.
- MpnStr.SetStr: the capacity that the caller allocates is a precondition, with the exponent of the largest power as a ghost argument.
- Memory management: allocation failure, the hooks for allocators, and `mpz_clear`.
- `sha3_keccakf` and the RIPEMD-160 buffer on big-endian machines: the byte swaps compiled only there.
- RipemdBlock.RunLines: the five rounds, written out one after the other in C, are a loop over the tables.
- Wiping of temporaries and of the finished RIPEMD-160 state.
- Sha3.Context.FinalPad: for mdlen from 67 to 99 it states the bytes that come out, which are not a sponge output of that length.
- Cryptographic strength of any kind.
