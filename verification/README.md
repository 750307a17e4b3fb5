# Verified models of the HAWQ contrib code

This project models the parts of `contrib/pgcrypto` and `contrib/gp_sparse_vector`
whose behaviour is hard to see from the code, and proves what they compute.

- **Arbitrary-precision integers** (`imath.c`). Digits live in arrays that are
  overwritten in place; a class `Mpz` carries the sign, the buffer and the digit
  count. Carry loops, schoolbook and Karatsuba multiplication, squaring with its
  overflow flag, shifts, Knuth division, Barrett reduction, modular powers, and the
  binary gcd family are methods proved against integer arithmetic.
- **Run-length vectors** (`SparseData.c`). A class `SparseData` holds the values and
  the packed index of counts; every operation is proved against the dense vector.
- **The OpenPGP pipeline** (`mbuf.c`, `pgp-encrypt.c`, `pgp-decrypt.c`, `pgp-cfb.c`,
  `pgp-armor.c`). Filters with internal buffers are classes; the results are about
  every split of the input and every sequence of requests. The checksum of the armor
  is a polynomial remainder.
- **Ciphers and hashes** (`sha2.c`, `blf.c`, `px.c`, `internal.c`). SHA-256 streaming
  over a buffer shared with the message schedule, Blowfish for arbitrary tables, CBC
  across calls, and padding.

Nine claims one might expect are false of the code. Each is proved where it holds,
and the place where it fails is named:

- The quotient of `s_udiv` is right if and only if no partial remainder one digit
  longer than the normalised divisor shares its top digit (`Division.UDiv`,
  `DivisionLedger.NoisyInput`). The remainder is right always, so `mp_int_mod` and
  the inverse are not affected; the Barrett constant is a quotient and is
  (`ModularExponent.BrMu`, `QuotientList.NoisyModulus`).
- `mp_int_exptmod` gives the power modulo m for every base and exponent when m is
  positive and its Barrett constant comes out exact (`ModularExponent.CodePowerRight`).
  Modulo 2^64 - 2^32 + 1 it does not (`ModularExponent.WrongPower`), and modulo a
  negative number no positive power is reduced (`ModularExponent.NegativeModulus`). An inexact
  constant need not spoil every power, so for positive moduli this goes one way.
- The quotient digits `s_udiv` lists fit the number it sets aside only while the guard
  adds at most one digit or the rounding leaves room: their number is exact in
  `QuotientList.ListedLength`, and `QuotientList.ListOverruns` is one too many.
- The digits `mp_int_mul` sets aside cover what `s_kmul` touches exactly as
  `MpInt.ProductCovered` says; 33 digits by 33 are not covered
  (`MpInt.OddLengthUncovered`).
- In resync mode `cfb_process` agrees with the byte-wise mode if and only if the call
  does not end at stream offset block size + 1 (`CfbCode.PgpCfb.Process`,
  `CfbCode.CutOffset`): there the byte is reported as not consumed and is mixed in
  a second time.
- A read of `mdcbuf_read` that returns nothing means the end of the data, except while
  no more than 22 bytes have arrived (`MdcBuffer.MdcBuf.Read`,
  `MdcBuffer.EmptyFirstRead`).
- `mdcbuf_finish` accepts data if and only if it ends in the header and the hash, once
  there are 22 bytes (`MdcBuffer.AcceptedWhole`). Missing bytes count as zeros
  (`MdcBuffer.AcceptedShort`), so data cut off inside a hash that ends in zeros passes
  (`MdcBuffer.CutOffRead`).
- `pgp_armor_enc_len` bounds the armored length if and only if the input is shorter
  than 2^30 - 2 bytes (`Armor.SizeBound`): above that its unsigned arithmetic wraps.
- `reverse` reads every run's own count if and only if all counts are stored in one
  width (`SparseReverse.TrackIsWidth`, `SparseReverse.MixedWidths`), and then gives the
  reversed vector (`SparseReverse.Reverse`). Elsewhere it may still meet the right
  counts by chance (`SparseReverse.LuckyWidths`), so for the vector this goes one way.

Conventions. A digit is a number below 2^32, `Val` is what a digit sequence stands
for, and `Times` names multiplication so that proofs can treat products as atoms.
`hide` statements keep definitions a proof does not need out of the solver's sight.
The modules named `...Meaning` say what the functions the code is proved against
compute, without their bodies: bits, sums of integers, positions and laws on the output.
A `char` is signed, and in `imath.c` the multiply threshold is a parameter that is 0
or at least 4, the values for which the recursion shrinks. Byte streams and their
short reads are a class `Source` whose reads return any allowed number of bytes.
The order that `qsort` finds is a parameter constrained only to be a permutation
sorted by the comparison function. Vector elements are values of any type with
equality (the source compares bytes) and element operations are arbitrary functions.
Hash functions, block functions, round constants and substitution tables are
arbitrary too.

## Model

| member | source | states |
|---|---|---|
| `UnsignedKernel.UAdd` | contrib/pgcrypto/imath.c:2462-2495 | the digits written and the returned carry are the exact sum, also when the destination is an operand; nothing else changes |
| `UnsignedKernel.USub` | contrib/pgcrypto/imath.c:2501-2533 | for a minuend at least as large, the digits written are the exact difference, in place too |
| `UnsignedKernel.UMul` | contrib/pgcrypto/imath.c:2640-2667 | schoolbook multiplication adds exactly the product to a zeroed area and leaves every other digit alone |
| `UnsignedKernel.RowStep` | contrib/pgcrypto/imath.c:2640-2667 | digit times digit plus digit plus carry splits into the next digit and a carry below the base, and the row so far with its carry stays the exact partial product |
| `UnsignedKernel.MulRowAt` | contrib/pgcrypto/imath.c:2640-2667 | a row adds exactly one digit times the other operand, its last carry stored as the top digit |
| `Karatsuba.KMul` | contrib/pgcrypto/imath.c:2539-2634 | the product is exact in the first size_a + size_b digits and every later digit is unchanged, although the assembly and the recursive calls write past the product; terminates for threshold 0 or at least 4 |
| `Karatsuba.MiddleTerm` | contrib/pgcrypto/imath.c:2592-2615 | the product of the half sums less the two outer products is the cross term, and is never negative |
| `Karatsuba.Assemble` | contrib/pgcrypto/imath.c:2617-2623 | adding the three partial products at their offsets inside the destination gives the product and disturbs no digit above it |
| `Karatsuba.SplitTotal` | contrib/pgcrypto/imath.c:2539-2634 | the shifted partial products add up to the product of the whole operands |
| `Squaring.DoubleColumn` | contrib/pgcrypto/imath.c:2762-2779 | doubling a product and adding digit and carry, with the two overflow tests of the source, loses exactly the word that the ov flag reports |
| `Squaring.SqrRowStep` | contrib/pgcrypto/imath.c:2762-2784 | a column sum below two words splits into the next digit and a carry below twice the base, and the row so far with its carry stays exact |
| `Squaring.OverflowRepaired` | contrib/pgcrypto/imath.c:2778-2784 | shifting the sum down and putting the lost bit back gives the true carry |
| `Squaring.USqr` | contrib/pgcrypto/imath.c:2738-2798 | the square of every digit array, exactly, with later digits unchanged |
| `Squaring.KSqr` | contrib/pgcrypto/imath.c:2673-2732 | the recursive squaring gives the same square |
| `MpInt.UCmp` | contrib/pgcrypto/imath.c:2423-2435 | the sign of the difference of two canonical magnitudes |
| `MpInt.Compare` | contrib/pgcrypto/imath.c:1240-1269 | the sign of the difference for equal sign fields, the sign field otherwise |
| `MpInt.Copy` | contrib/pgcrypto/imath.c:509-532 | the destination takes the value; the source may be the destination |
| `MpInt.Add` | contrib/pgcrypto/imath.c:606-677 | the sum of two signed numbers, into any operand |
| `MpInt.Sub` | contrib/pgcrypto/imath.c:698-772 | the difference of two signed numbers, into any operand |
| `MpInt.Mul` | contrib/pgcrypto/imath.c:793-859 | the product of two signed numbers, into any operand |
| `MpInt.UMulTo` | contrib/pgcrypto/imath.c:149-153 | the product of the magnitudes; the destination keeps its buffer exactly when that has the digits s_kmul touches |
| `MpInt.USqrTo` | contrib/pgcrypto/imath.c:155-157 | the square of the magnitude; the destination keeps its buffer exactly when that has the digits s_ksqr touches |
| `MpInt.ProductCovered` | contrib/pgcrypto/imath.c:819-841 | the digits set aside for a product cover what s_kmul touches if and only if it does not split, the default room is enough, or the longer operand has an even length and the other is at most one digit shorter |
| `MpInt.SquareCovered` | contrib/pgcrypto/imath.c:909-930 | the same for squares: if and only if s_ksqr does not split, the default room is enough, or the length is even |
| `MpInt.OddLengthUncovered` | contrib/pgcrypto/imath.c:819-841 | two operands of 33 digits at the default threshold: 68 digits touched, 66 set aside |
| `Shifts.QDiv` | contrib/pgcrypto/imath.c:2915-2966 | division of the magnitude by a power of two; zero is never negative afterwards |
| `Shifts.QMod` | contrib/pgcrypto/imath.c:2972-2986 | the remainder modulo a power of two |
| `Shifts.QMul` | contrib/pgcrypto/imath.c:2992-3067 | multiplication by a power of two, with the growth in digits bounded |
| `Shifts.QSub` | contrib/pgcrypto/imath.c:3074-3103 | for every number below 2^p2 its complement as far as its own digits go: the digit of the bit p2 takes part only when the number reaches it |
| `Shifts.ComplementExact` | contrib/pgcrypto/imath.c:3074-3103 | that is 2^p2 less the number if and only if the number reaches the digit of the bit p2, or is nonzero and ends just below a whole-digit p2 |
| `DivisionMath.GuessNotSmall` | contrib/pgcrypto/imath.c:3446-3467 | the quotient digit guessed from the leading digits is never below the true one |
| `DivisionMath.GuessAtMostTwoLarge` | contrib/pgcrypto/imath.c:3446-3467 | with a normalised divisor the guess is at most two above it |
| `Division.DBMul` | contrib/pgcrypto/imath.c:2860-2876 | a number times one digit |
| `Division.SubtractDigit` | contrib/pgcrypto/imath.c:3446-3474 | one quotient digit taken off the window: exact when the equal-top-digit guard is quiet, one times the divisor when it fires, and at most two corrections |
| `Division.LongDivide` | contrib/pgcrypto/imath.c:3430-3476 | the digit loop with its skip counter: the remainder is always right, and the listed digits are the quotient exactly when the guard never fires; fires or not, they are the ones QuotientList.Listing gives for the operands |
| `Division.Norm` | contrib/pgcrypto/imath.c:3196-3216 | both operands scaled by the same power of two, the divisor ending with a top digit of at least half the base |
| `Division.UDiv` | contrib/pgcrypto/imath.c:3389-3495 | the remainder is a % b for every a >= b > 0; the quotient is never too small, is a / b if and only if the guard stays quiet for these operands, and otherwise the number of the listed digits |
| `QuotientList.ListedLength` | contrib/pgcrypto/imath.c:3413-3443 | with a divisor of two digits or more the list has one digit for every digit of the normalised dividend but the first, and one or two more wherever the guard fires, so at most three for each |
| `QuotientList.ListOverruns` | contrib/pgcrypto/imath.c:3413-3430 | a 66-digit dividend whose list does not fit the number set aside for it |
| `QuotientList.NoisyModulus` | contrib/pgcrypto/imath.c:3222-3232 | dividing 2^128 by 2^64 - 2^32 + 1 sets off the guard, and the digits then listed |
| `DivisionLedger.OneDigitDivisor` | contrib/pgcrypto/imath.c:3449-3458 | the guard is quiet for every dividend when the divisor has one digit |
| `DivisionLedger.NoisyInput` | contrib/pgcrypto/imath.c:3449-3458 | a three-digit dividend and two-digit divisor for which the guard fires, so the quotient is wrong |
| `DivisionLedger.ReversedVal` | contrib/pgcrypto/imath.c:3478-3481 | reversing the digit list gives the digits of the same number |
| `IntegerDivision.Div` | contrib/pgcrypto/imath.c:953-1072 | undefined exactly for a zero divisor, with nothing written; otherwise the remainder of division toward zero, and the quotient right if and only if the guard is quiet, and the number of the listed digits if it is not; either result may be absent or an operand |
| `IntegerDivision.DivisionLaw` | contrib/pgcrypto/imath.c:953-1072 | quotient times divisor plus remainder is the dividend, the remainder is smaller than the divisor and has the sign of the dividend |
| `IntegerDivision.QuietPowerOfTwo` | contrib/pgcrypto/imath.c:1008-1046 | the guard is quiet for a power of two, so the shift branch and the long branch agree |
| `IntegerDivision.QuietSmall` | contrib/pgcrypto/imath.c:970-1001 | the guard is quiet when the dividend is no larger, so the short branches agree with the long one |
| `IntegerDivision.Mod` | contrib/pgcrypto/imath.c:1078-1110 | for a positive modulus the remainder in [0, m), whatever the guard does, and into any operand |
| `TrailingZeros.Dp2k` | contrib/pgcrypto/imath.c:3109-3133 | the number of factors of two, and 1 for zero |
| `TrailingZeros.IsP2` | contrib/pgcrypto/imath.c:3139-3165 | the exponent of a power of two, -1 exactly for other positive numbers |
| `Barrett.BarrettBound` | contrib/pgcrypto/imath.c:3251-3282 | the guessed quotient is at most two below the true one |
| `Barrett.ReducedRight` | contrib/pgcrypto/imath.c:3238-3286 | with the exact constant, what s_reduce computes is x mod m for every x of at most twice the digits of m: the difference it pins has a top digit, and two subtractions suffice |
| `Barrett.WrappedDifference` | contrib/pgcrypto/imath.c:3256-3273 | the difference modulo a power of the base is the true small difference |
| `Barrett.Reduce` | contrib/pgcrypto/imath.c:3238-3286 | for every modulus and every constant the value of Barrett.Reduced, in which the complement reaches only as far as the digits of the difference |
| `ModularPower.TakeBit` | contrib/pgcrypto/imath.c:3321-3331 | multiplying in a set bit keeps c * a^rest the same modulo m |
| `ModularPower.HalveRest` | contrib/pgcrypto/imath.c:3334-3342 | squaring the base and halving the rest keeps it too |
| `ModularPower.PowerDigit` | contrib/pgcrypto/imath.c:3317-3345 | the loop over a lower digit uses exactly its 32 bits |
| `ModularPower.PowerTop` | contrib/pgcrypto/imath.c:3350-3376 | the loop over the top digit stops at its last set bit, at once for a zero exponent |
| `ModularPower.LadderPower` | contrib/pgcrypto/imath.c:3294-3383 | with the exact constant the ladder of multiplications and squarings ends at c * a^e mod m, for every c and a up to m and every positive e |
| `ModularPower.Embar` | contrib/pgcrypto/imath.c:3294-3383 | for every modulus and every constant the result of the ladder over the bits of b, 1 for a zero exponent |
| `ModularExponent.TwoExpt` | contrib/pgcrypto/imath.c:3170-3190 | the number becomes the given power of two |
| `ModularExponent.BrMu` | contrib/pgcrypto/imath.c:3222-3232 | the reduction constant of either sign of modulus: the listed quotient, exact if and only if the guard of the division stays quiet |
| `ModularExponent.CodePowerRight` | contrib/pgcrypto/imath.c:1334-1381 | a positive modulus whose constant comes out exact gives the power modulo m |
| `ModularExponent.WrongPower` | contrib/pgcrypto/imath.c:1334-1381 | modulo m = 2^64 - 2^32 + 1 the constant is not exact and m - 1 to the first power comes out as m - 2 |
| `ModularExponent.WrongReduction` | contrib/pgcrypto/imath.c:3238-3286 | the reduction behind it: a guess of 2^32 - 1 where the quotient is 0 |
| `ModularExponent.NegativeModulus` | contrib/pgcrypto/imath.c:3277-3282 | with a negative modulus both subtractions add, and every power comes out at least twice its magnitude |
| `ModularExponent.ExptMod` | contrib/pgcrypto/imath.c:1334-1381 | into any operand, for every modulus but zero and every exponent from 0: the ladder of the reduced base with the constant computed, which is the power modulo m for a positive modulus with an exact constant; undefined for m zero and out of range for a negative exponent, with nothing written |
| `GcdMath.OddPartCommon` | contrib/pgcrypto/imath.c:1586-1606 | taking factors of two out of one number keeps the common divisors when the other is odd |
| `GcdMath.ScaleGcd` | contrib/pgcrypto/imath.c:1608-1611 | a common power of two goes straight into the gcd |
| `Gcd.SteinTurn` | contrib/pgcrypto/imath.c:1586-1606 | one turn keeps the common divisors and strictly lowers the pending sum |
| `Gcd.Stein` | contrib/pgcrypto/imath.c:1586-1606 | the loop terminates with both numbers equal to the gcd |
| `Gcd.GreatestCommonDivisor` | contrib/pgcrypto/imath.c:1534-1619 | the greatest common divisor of the magnitudes; undefined exactly for two zeros |
| `ExtendedGcd.RowParity` | contrib/pgcrypto/imath.c:1696-1726 | when the combination is even the adjusted coefficients are both even, so every halving is exact |
| `ExtendedGcd.HalveRowOnce` | contrib/pgcrypto/imath.c:1696-1710 | one halving keeps the combination equal to its coefficients times the starting pair |
| `ExtendedGcd.EgcdTurn` | contrib/pgcrypto/imath.c:1694-1766 | one turn keeps both combinations and strictly lowers their sum |
| `ExtendedGcd.RowsGcd` | contrib/pgcrypto/imath.c:1747-1765 | when one combination is zero the other is the gcd |
| `ExtendedGcd.Egcd` | contrib/pgcrypto/imath.c:1629-1773 | the gcd with coefficients such that |a| x + |b| y is the gcd; undefined exactly for two zeros; either coefficient may be unwanted |
| `ExtendedGcd.InvMod` | contrib/pgcrypto/imath.c:1479-1527 | an inverse of a modulo m for either sign of a, strictly between 0 and m, except that modulo 1 it is 0, or 1 for a negative a; out of range and undefined in exactly the stated cases, with the destination untouched |
| `CompWord.RoundTrip` | contrib/gp_sparse_vector/SparseData.c:111-183 | every count is read back from its entry, whatever bytes follow, and the entry announces its own size |
| `CompWord.EncodeSize` | contrib/gp_sparse_vector/SparseData.c:111-136 | which counts take one, three, five and nine bytes, if and only if |
| `CompWord.EncodeBytes` | contrib/gp_sparse_vector/SparseData.c:111-136 | the first byte of a long entry is its width and the others are the bytes of the count, low one first |
| `CompWord.SmallEntry` | contrib/gp_sparse_vector/SparseData.c:111-136 | a count below 128 is one byte, its negative |
| `CompWord.Encode` | contrib/gp_sparse_vector/SparseData.h:117-118 | the size read from the first byte is the number of bytes of the entry |
| `CompWord.Int8ToCompword` | contrib/gp_sparse_vector/SparseData.c:111-136 | the buffer holds the entry |
| `SparseVector.SparseData.AddRun` | contrib/gp_sparse_vector/SparseData.c:77-87 | one more run at the end, counts and index kept consistent |
| `SparseVector.EntryAppended` | contrib/gp_sparse_vector/SparseData.c:64-71 | an entry appended to the index is one more run and leaves the others as they were |
| `SparseVector.CursorStep` | contrib/gp_sparse_vector/SparseData.c:141-183 | reading at a cursor gives the run and stepping over the entry gives the next one, also for a NULL index |
| `SparseVector.FromArray` | contrib/gp_sparse_vector/SparseData.c:1099-1133 | the runs expand to the array and neighbours differ |
| `SparseVector.ToArray` | contrib/gp_sparse_vector/SparseData.c:1226-1263 | the dense vector, and an error exactly when the counts do not reach the stated total |
| `SparseOps.OpBySdata` | contrib/gp_sparse_vector/SparseData.c:779-886 | the result expands to the pointwise operation and neighbouring runs differ; refused exactly for different dimensions |
| `SparseOps.Eq` | contrib/gp_sparse_vector/SparseData.c:560-608 | true if and only if the dense vectors are equal, however each side splits its runs |
| `SparseOps.EqZeroIsEqual` | contrib/gp_sparse_vector/SparseData.c:622-670 | true if and only if every common position is equal or zero on one side |
| `SparseOps.CompatibleIs` | contrib/gp_sparse_vector/SparseData.c:640-660 | a zero agrees with everything, two values that are not zero only with each other, in either order |
| `SparseOps.Project` | contrib/gp_sparse_vector/SparseData.c:1335-1355 | the element at a position counted from one, none outside the vector |
| `SparseOps.Subarray` | contrib/gp_sparse_vector/SparseData.c:1363-1406 | for start <= end the part of the dense vector; refused exactly out of bounds |
| `SparseReverse.SubarrayEither` | contrib/gp_sparse_vector/SparseData.c:1363-1406 | for start > end the reverse of that part, right when its counts are stored in one width |
| `SparseReverse.Reverse` | contrib/gp_sparse_vector/SparseData.c:1412-1428 | the runs the walk back through the index meets; the reversed vector when all counts are stored in one width |
| `SparseReverse.TrackIsWidth` | contrib/gp_sparse_vector/SparseData.c:1422-1426 | a step back by the width of the entry leads to the entry before it if and only if the two are equally wide |
| `SparseReverse.MixedWidths` | contrib/gp_sparse_vector/SparseData.c:1412-1428 | runs of 200 and 1: the walk reads the last byte of the 200 as a count of zero |
| `SparseReverse.LuckyWidths` | contrib/gp_sparse_vector/SparseData.c:1412-1428 | a mixed pair of widths for which the walk, off the entries, still copies the right counts |
| `SparseReverse.BackwardsDense` | contrib/gp_sparse_vector/SparseData.c:1412-1428 | the runs in reverse order stand for the dense vector in reverse order |
| `SparsePositions.FromPositions` | contrib/gp_sparse_vector/SparseData.c:1148-1219 | the vector holding each value at its position and the default elsewhere; refused if and only if two equal positions disagree |
| `SparsePositions.ComparIsOrder` | contrib/gp_sparse_vector/SparseData.c:1135-1137 | the truncating comparison orders positions below 2^31 |
| `PacketLength.ParseRender` | contrib/pgcrypto/pgp-encrypt.c:45-66 | a rendered length is parsed back as a final chunk of that length |
| `PacketLength.RenderSize` | contrib/pgcrypto/pgp-encrypt.c:45-66 | headers have one octet if and only if the length is at most 191, two from 192 to 8383, five above |
| `PacketLength.OneOctet` | contrib/pgcrypto/pgp-decrypt.c:59-60 | an octet below 192 is the length |
| `PacketLength.TwoOctets` | contrib/pgcrypto/pgp-decrypt.c:61-66 | a first octet of 192 to 223 always gives a length from 192 to 8383, both ends reached |
| `PacketLength.TwoOctetsNext` | contrib/pgcrypto/pgp-decrypt.c:61-66 | the next header of two octets gives the next length |
| `PacketLength.ShortHeadersDiffer` | contrib/pgcrypto/pgp-decrypt.c:59-66 | no length has two different headers of one or two octets |
| `PacketLength.FiveOctets` | contrib/pgcrypto/pgp-decrypt.c:67-88 | after 255 the length is four octets, high one first, refused above the limit |
| `PacketLength.PartialOctet` | contrib/pgcrypto/pgp-decrypt.c:78-88 | octets 224 to 254 announce a part of a power of two octets, refused above the limit |
| `PacketLength.HeaderExamples` | contrib/pgcrypto/pgp-encrypt.c:45-66 | the examples of section 4.2.3 of RFC 4880, and C0 08 for 200 |
| `PacketWriter.BlockAnnounced` | contrib/pgcrypto/pgp-encrypt.c:251-275 | the byte before a whole block announces a part of exactly the block size |
| `PacketWriter.FrameExample` | contrib/pgcrypto/pgp-encrypt.c:251-295 | 200 bytes go out behind C0 08 |
| `PacketReader.ParseNewLen` | contrib/pgcrypto/pgp-decrypt.c:51-92 | the header at the front of the source, or an error exactly for a short or oversized one |
| `PacketWriter.Writer.Process` | contrib/pgcrypto/pgp-encrypt.c:251-275 | full blocks get a partial-length byte, anything else ends the stream, and a chunk after the end is refused |
| `PacketWriter.Writer.Write` | contrib/pgcrypto/mbuf.c:454-512 | all data is taken; whole blocks go out in order and the rest waits |
| `PacketWriter.Writer.Flush` | contrib/pgcrypto/mbuf.c:514-538 | the output is the frame of everything written, with exactly one terminal chunk |
| `PacketWriter.FrameSplit` | contrib/pgcrypto/pgp-encrypt.c:251-295 | the frame of whole blocks and a rest is the blocks and one last chunk |
| `PacketReader.Reader.Pull` | contrib/pgcrypto/pgp-decrypt.c:174-206 | at most the wanted bytes of the current chunk, after the next header when it is used up |
| `PacketReader.PullCarries` | contrib/pgcrypto/pgp-decrypt.c:174-206 | a pull delivers the next part of the payload, nothing only at its end, and then the source is just past the frame |
| `PacketReader.ReadAll` | contrib/pgcrypto/pgp-decrypt.c:174-206 | any positive request sizes over any short reads deliver exactly the payload |
| `PacketReader.RoundTrip` | contrib/pgcrypto/pgp-encrypt.c:238-295 | written in any pieces and read in any sizes the payload comes back, and what follows the frame is untouched |
| `MdcBuffer.MdcBuf.Refill` | contrib/pgcrypto/pgp-decrypt.c:522-564 | one read of at least one byte; delivered, loaded and held-back bytes stay the bytes consumed, exactly the first two are hashed, and at the end of the source, and only there, the check on all bytes consumed decides |
| `MdcBuffer.MdcBuf.Read` | contrib/pgcrypto/pgp-decrypt.c:566-587 | the next loaded bytes; the end is noted exactly when more is wanted than is loaded and the source is empty; with nothing loaded, a real request gets nothing if and only if that is so or no more than 22 bytes have been seen |
| `MdcBuffer.EmptyFirstRead` | contrib/pgcrypto/pgp-decrypt.c:566-587 | a new buffer over any source of 1 to 22 bytes returns nothing from its first read, without an error and before the end |
| `MdcBuffer.MdcBuf.HeldBack` | contrib/pgcrypto/pgp-decrypt.c:480-587 | exactly the last 22 bytes consumed are withheld, or all of fewer |
| `MdcBuffer.MdcBuf.Finish` | contrib/pgcrypto/pgp-decrypt.c:480-503 | accepted exactly when the last 22 bytes consumed, or with fewer all of them and zeros in place of the rest, are the header and the hash of everything before |
| `MdcBuffer.AcceptedWhole` | contrib/pgcrypto/pgp-decrypt.c:480-503 | with 22 bytes or more: the data ends in the header and the hash of everything up to and with it |
| `MdcBuffer.AcceptedShort` | contrib/pgcrypto/pgp-decrypt.c:480-503 | with fewer: the data starts with the header, and the hash of that is the rest of the data followed by zeros |
| `MdcBuffer.CutOffRead` | contrib/pgcrypto/pgp-decrypt.c:522-587 | two bytes read to their end and accepted, when the hash is twenty zeros |
| `CfbSpec.RunConcat` | contrib/pgcrypto/pgp-cfb.c:198-245 | splitting the input changes neither output nor state of the byte-wise mode |
| `CfbSpec.DecryptInverts` | contrib/pgcrypto/pgp-cfb.c:95-193 | decrypting from the same state returns the plaintext and ends in the same state |
| `CfbSpec.RunStretch` | contrib/pgcrypto/pgp-cfb.c:95-193 | within one block the byte-wise mode is one key-stream block, the bytes, and one feedback step |
| `CfbMeaning.MixBit` | contrib/pgcrypto/pgp-cfb.c:95-119 | a mixed bit is set if and only if the two bits differ |
| `CfbMeaning.CipherLaw` | contrib/pgcrypto/pgp-cfb.c:95-193 | every byte of every block, forward or back, is the data byte added bit by bit to the byte of the cipher of the size bytes of ciphertext just before the block, or of the iv |
| `CfbMeaning.PlainLaw` | contrib/pgcrypto/pgp-cfb.c:95-119 | without resync, by index: byte i % size of the cipher of the ciphertext block before |
| `CfbMeaning.ResyncLaw` | contrib/pgcrypto/pgp-cfb.c:126-193 | with resync, by index: two bytes after the first block, then blocks whose first feedback is the ciphertext bytes 2 to size + 1 |
| `CfbCode.PgpCfb.MixData` | contrib/pgcrypto/pgp-cfb.c:95-193 | the bytes of one block; when the two-byte block is left half done nothing is reported as consumed |
| `CfbCode.PgpCfb.Process` | contrib/pgcrypto/pgp-cfb.c:198-245 | output and state are those of the byte-wise mode if and only if the call does not end one byte into the two-byte block |
| `CfbCode.CutOffset` | contrib/pgcrypto/pgp-cfb.c:126-193 | in a fresh stream that place is offset block size + 1 and no other |
| `CfbCode.Transform` | contrib/pgcrypto/pgp-cfb.c:198-265 | the output of a fresh stream depends only on the bytes, for every split that avoids that offset |
| `CfbCode.RoundTrip` | contrib/pgcrypto/pgp-cfb.c:251-265 | encrypted in one such split and decrypted in another the plaintext comes back |
| `LineEndings.SqueezeExpand` | contrib/pgcrypto/pgp-encrypt.c:326-364 | squeezing CR LF undoes expanding LF for every byte string |
| `LineEndings.SqueezeIs` | contrib/pgcrypto/pgp-decrypt.c:710-757 | what is taken out are exactly the carriage returns right before a line feed |
| `LineEndings.ExpandIs` | contrib/pgcrypto/pgp-encrypt.c:326-364 | what is put in is one carriage return for every line feed, right before it |
| `LineEndings.CrlfProcess` | contrib/pgcrypto/pgp-encrypt.c:326-364 | every LF becomes CR LF |
| `LineEndings.CopyCrlf` | contrib/pgcrypto/pgp-decrypt.c:710-757 | one chunk after others: the output is that of the whole text, with a final CR kept waiting |
| `LineEndings.ReadText` | contrib/pgcrypto/pgp-decrypt.c:807-823 | any split into non-empty chunks gives the squeezed text, a waiting CR included |
| `LineEndings.WriteText` | contrib/pgcrypto/pgp-encrypt.c:326-364 | any split into pieces gives the expanded text |
| `LineEndings.RoundTrip` | contrib/pgcrypto/pgp-decrypt.c:807-823 | text written through the filter in any pieces and read back in chunks of any sizes is the same text |
| `Base64.EncodeLength` | contrib/pgcrypto/pgp-armor.c:163-170 | four characters for every three bytes begun and a line break for every 57 |
| `Base64.B64Encode` | contrib/pgcrypto/pgp-armor.c:45-92 | the groups, a line break after every 76 characters, and the padded rest |
| `Base64.B64Decode` | contrib/pgcrypto/pgp-armor.c:95-161 | the bytes the characters stand for, or an error for a bad character, misplaced padding or an unfinished group |
| `Base64.DecodeEncode` | contrib/pgcrypto/pgp-armor.c:45-161 | decoding returns the bytes, for every length |
| `Base64.LetterIs` | contrib/pgcrypto/pgp-armor.c:42-43 | letter v is entry v of the alphabet |
| `Base64.FourNumbers` | contrib/pgcrypto/pgp-armor.c:45-92 | four letters stand for four numbers below 64, highest first, which are the 24 bits |
| `Base64.SpacesIgnored` | contrib/pgcrypto/pgp-armor.c:95-161 | a blank, tab or line end anywhere in a text changes nothing |
| `Base64.LineBreaks` | contrib/pgcrypto/pgp-armor.c:77-81 | every 77th character of whole lines is a line break |
| `Base64.Examples` | contrib/pgcrypto/pgp-armor.c:45-92 | Man, Ma and M encode to TWFu, TWE= and TQ== |
| `Checksum.CrcIsRemainder` | contrib/pgcrypto/pgp-armor.c:188-205 | the register is the remainder, by long division of polynomials over two elements by the generator, of the initial value shifted up by the length of the message plus the message shifted up by 24 |
| `Checksum.CrcFits` | contrib/pgcrypto/pgp-armor.c:188-205 | the register stays within 24 bits, so the mask at the end changes nothing |
| `Armor.Crc24` | contrib/pgcrypto/pgp-armor.c:188-205 | the low 24 bits of that register for the whole message |
| `Armor.ArmorEncode` | contrib/pgcrypto/pgp-armor.c:207-239 | header, text, a line break if there is none, checksum, footer |
| `Armor.HeaderText` | contrib/pgcrypto/pgp-armor.c:182-182 | the header is that line and an empty one |
| `Armor.FooterText` | contrib/pgcrypto/pgp-armor.c:183-183 | the footer is that line |
| `Armor.SizeBound` | contrib/pgcrypto/pgp-armor.c:373-377 | the encoded length is within the estimate if and only if the input is shorter than 2^30 - 2 bytes, where the 32-bit arithmetic begins to wrap |
| `ArmorDecode.FindStr` | contrib/pgcrypto/pgp-armor.c:241-262 | the first occurrence, if there is one |
| `ArmorDecode.FindHeader` | contrib/pgcrypto/pgp-armor.c:264-310 | the first separator at the start of a line, with a well-formed rest of line |
| `ArmorDecode.Dearmor` | contrib/pgcrypto/pgp-armor.c:312-371 | the data between header and checksum, past comment lines, when the checksum matches; ArmorMeaning.ArmorLaw says what that is |
| `ArmorDecode.RoundTrip` | contrib/pgcrypto/pgp-armor.c:207-371 | every byte string comes back from its armor, the empty one and whole lines included |
| `ArmorMeaning.FirstIsLeast` | contrib/pgcrypto/pgp-armor.c:241-262 | no occurrence comes before the one found, and none exists when none is found |
| `ArmorMeaning.FirstLineIsLeast` | contrib/pgcrypto/pgp-armor.c:264-285 | the first separator that starts a line, although the search jumps over others |
| `ArmorMeaning.TextEndIs` | contrib/pgcrypto/pgp-armor.c:287-294 | the text of a header line ends at its first dash, unless a control character comes first |
| `ArmorMeaning.CommentsIs` | contrib/pgcrypto/pgp-armor.c:337-347 | comments end at the least position that starts a line and is the end of the armor or holds a line break or carriage return; otherwise the armor is refused |
| `ArmorMeaning.ArmorLaw` | contrib/pgcrypto/pgp-armor.c:312-371 | for any text before, any title, either line end, any comment lines, any body and any text after: the bytes the body decodes to when the checksum is theirs, refused otherwise |
| `ArmorMeaning.CommentedRoundTrip` | contrib/pgcrypto/pgp-armor.c:207-371 | every byte string comes back from its armor with any comment lines put after the header line |
| `ArmorMeaning.WrongChecksum` | contrib/pgcrypto/pgp-armor.c:358-368 | armor with a checksum that is not the one of its data is refused |
| `ShaTransform.WindowNext` | contrib/pgcrypto/sha2.c:410-432 | the 16-word window holds the four words the 64-word recurrence needs, and the new word completes the next window |
| `ShaTransform.Context.FirstRounds` | contrib/pgcrypto/sha2.c:389-408 | each word is read before its place in the shared buffer is overwritten |
| `ShaTransform.Context.Transform` | contrib/pgcrypto/sha2.c:359-446 | the compression function of the block, also when the block is the buffer itself |
| `ShaMeaning.RotateBit` | contrib/pgcrypto/sha2.c:106-107 | bit i of a rotated word is bit (i + b) % 32 of the word |
| `ShaMeaning.ChBit` | contrib/pgcrypto/sha2.c:112-112 | the bit of x picks the bit of y or of z |
| `ShaMeaning.MajBit` | contrib/pgcrypto/sha2.c:113-113 | two bits out of three |
| `ShaMeaning.BigSigma0Bit` | contrib/pgcrypto/sha2.c:116-116 | the parity of three rotated bits, 2, 13 and 22 places up |
| `ShaMeaning.BigSigma1Bit` | contrib/pgcrypto/sha2.c:117-117 | the parity of three rotated bits, 6, 11 and 25 places up |
| `ShaMeaning.SmallSigma0Bit` | contrib/pgcrypto/sha2.c:118-118 | the parity of two rotated bits, 7 and 18 places up, and one shifted by 3 |
| `ShaMeaning.SmallSigma1Bit` | contrib/pgcrypto/sha2.c:119-119 | the parity of two rotated bits, 17 and 19 places up, and one shifted by 10 |
| `ShaMeaning.RoundSums` | contrib/pgcrypto/sha2.c:396-405 | the new a and e are the sums modulo 2^32 of section 6.2.2 of FIPS 180-2, and six values move on |
| `ShaMeaning.RoundUndone` | contrib/pgcrypto/sha2.c:396-405 | the registers before a round are recovered from those after it |
| `ShaMeaning.WordMatters` | contrib/pgcrypto/sha2.c:396-405 | rounds with different schedule words end differently |
| `ShaMeaning.BlockMatters` | contrib/pgcrypto/sha2.c:389-432 | blocks that first differ in a schedule word end the round with it in different registers |
| `ShaMeaning.RoundsDecide` | contrib/pgcrypto/sha2.c:389-432 | with one block, different registers stay different through all rounds |
| `ShaMeaning.ScheduleNumber` | contrib/pgcrypto/sha2.c:392-393 | a schedule word of the block is the number of its four bytes, high byte first |
| `ShaMeaning.ExpandSum` | contrib/pgcrypto/sha2.c:413-420 | a later schedule word is the sum modulo 2^32 of four |
| `ShaMeaning.CompressSums` | contrib/pgcrypto/sha2.c:435-442 | the old state is added word by word modulo 2^32 |
| `ShaStream.Update` | contrib/pgcrypto/sha2.c:449-500 | whole blocks are absorbed and the pending bytes are exactly the rest |
| `ShaStream.PaddingBlocks` | contrib/pgcrypto/sha2.c:502-548 | how the standard padding falls into one block or two |
| `ShaSpec.PaddedWhole` | contrib/pgcrypto/sha2.c:502-548 | the padding is the least that fills whole blocks with room for the count |
| `ShaMeaning.PaddedIs` | contrib/pgcrypto/sha2.c:502-548 | the message, 80 hex, zeros, and in the last eight bytes the number of its bits, high byte first |
| `ShaStream.Reverse64` | contrib/pgcrypto/sha2.c:73-80 | swapping halves, bytes and pairs puts the eight bytes of a word in reverse order |
| `ShaStream.StoreCount` | contrib/pgcrypto/sha2.c:508-511 | the count reversed as a word and stored in host order is the 64-bit count high byte first |
| `ShaStream.Last` | contrib/pgcrypto/sha2.c:502-548 | the state is the fold of the compression function over the padded message |
| `ShaStream.HashPieces` | contrib/pgcrypto/sha2.c:449-548 | the same for every split of the message into updates |
| `Feistel.BackwardMeets` | contrib/pgcrypto/blf.c:286-318 | after n rounds back the halves are those of 16 - n rounds forward, swapped and whitened |
| `Feistel.DecryptEncrypt` | contrib/pgcrypto/blf.c:252-318 | one block decrypts to itself for arbitrary tables |
| `FeistelMeaning.FIs` | contrib/pgcrypto/blf.c:248-249 | entries of two tables added modulo 2^32, that of the third added bit by bit, that of the fourth added modulo 2^32, each selected by a byte of the word |
| `FeistelMeaning.LastTable` | contrib/pgcrypto/blf.c:248-249 | replacing the selected entry of the fourth table changes the result by the difference |
| `FeistelMeaning.OtherEntries` | contrib/pgcrypto/blf.c:248-249 | no entry matters but the four selected |
| `FeistelMeaning.ThreeSummed` | contrib/pgcrypto/blf.c:248-249 | with a zero entry in the third table the result is the sum of three modulo 2^32 |
| `FeistelMeaning.TwoMixed` | contrib/pgcrypto/blf.c:248-249 | with zero entries in the second and fourth it is the bitwise sum of two |
| `FeistelMeaning.EncryptZero` | contrib/pgcrypto/blf.c:252-284 | with zero tables a block is the other half and all odd subkeys, and the first half and all even ones |
| `FeistelMeaning.OneBlock` | contrib/pgcrypto/blf.c:252-284 | a block worked out, in which only the fourth table is not zero |
| `FeistelMeaning.LoadedNumber` | contrib/pgcrypto/blf.c:320-351 | four bytes are loaded as the number they stand for, high byte first |
| `Feistel.EncryptBlock` | contrib/pgcrypto/blf.c:252-284 | the sixteen rounds and the final whitening |
| `Feistel.DecryptBlock` | contrib/pgcrypto/blf.c:286-318 | the rounds in reverse order |
| `Cbc.CipherConcat` | contrib/pgcrypto/blf.c:320-351 | two calls in a row are one call, through the carried chaining value |
| `Cbc.PlainOfCipher` | contrib/pgcrypto/blf.c:320-384 | decryption returns the plaintext and ends on the same chaining value |
| `FeistelMeaning.BlockLaw` | contrib/pgcrypto/blf.c:320-351 | every block of ciphertext is the block of data added bit by bit to the ciphertext before it, encrypted |
| `Combo.Blowfish.EncryptCbc` | contrib/pgcrypto/blf.c:320-351 | the chained ciphertext in place, and the chaining value for the next call |
| `Combo.Blowfish.DecryptCbc` | contrib/pgcrypto/blf.c:353-384 | the plaintext in place, and the chaining value for the next call |
| `Combo.Blowfish.BfEncrypt` | contrib/pgcrypto/internal.c:450-473 | part blocks are refused, no data is no work |
| `Combo.Blowfish.BfDecrypt` | contrib/pgcrypto/internal.c:475-498 | part blocks are refused, no data is no work |
| `Combo.ComboEncrypt` | contrib/pgcrypto/px.c:208-277 | the two calls give the ciphertext of the padded message |
| `Combo.ComboDecrypt` | contrib/pgcrypto/px.c:279-334 | the plaintext with a right pad removed and a wrong one left in place; errors for empty input with padding and for part blocks |
| `Combo.UnpadFilled` | contrib/pgcrypto/px.c:310-328 | a padded message is unpadded to itself, whatever it ends in |
| `Combo.FilledZeros` | contrib/pgcrypto/px.c:249-256 | without padding only zeros follow the data, fewer than a block and none on a boundary |
| `Combo.FilledPads` | contrib/pgcrypto/px.c:243-248 | with padding one to eight bytes follow, each saying how many |
| `Combo.RoundTrip` | contrib/pgcrypto/px.c:208-334 | data of any length comes back |

## Left out

- MpInt.UMulTo: grows the destination where `s_kmul` would go past its buffer; what the source overwrites there is not modelled.
- MpInt.USqrTo: grows the destination where `s_ksqr` would go past its buffer, likewise.
- Karatsuba.KMul: requires the destination to have the digits it touches and a threshold of 0 or at least 4; thresholds 1 to 3 are not modelled.
- Division.UDiv: the quotient scratch number grows as needed; what the source overwrites when the list is longer than its reservation is not modelled.
- ExtendedGcd.IsOne: models `mp_int_compare_value` for the value 1 only.
- Allocation failure, MP_MEMORY and PXE_NO_MEMORY results, and clearing of freed memory.
- Conversions to and from text and binary, `mp_int_sqrt`, `mp_int_expt`, and the small-value variants in `imath.c`.
- ModularExponent.CodePowerRight: one way only; that every modulus with an inexact constant has some wrong power is not claimed.
- SparseVector.ToArray: requires counts that do not exceed the stated total, since the source writes before it checks.
- SparseOps.Subarray: start <= end; `SparseReverse.SubarrayEither` has the other order.
- SparseReverse.Reverse: a walk that leaves the index, or meets something that is no positive count, is not followed further.
- SparseOps.OpBySdata: requires both vectors to have a run, as the source reads the first entries before any check.
- SparsePositions.FromPositions: requires at least one entry and positions from 1 to an end below 2^31.
- `sparsedata_contains`, `concat`, `lapply`, scalar operations, serialisation and the SQL entry points of the vector code.
- Floating-point meaning of vector elements; zero is whatever the given test says.
- CfbCode.PgpCfb.Process: block sizes of at least 4 (the ciphers have 8 or 16).
- `pullf_read_max` beyond one byte, prefix checks, session keys, packet dispatch, compression, and old-format packet lengths.
- MdcBuffer.MdcBuf.Read: the state after a failed check is only described as far as the bytes go, since callers stop there.
- The capacity of `MBuf` (`prepare_room`): sinks are unbounded.
- The unrolled form of `SHA256_Transform`, SHA-224 output, SHA-384 and SHA-512, and the byte-swapping of the digest in `SHA256_Final`.
- Big-endian hosts in SHA-256: words in the shared buffer and the stored length are those of a little-endian build.
- Blowfish key setup and ECB mode, the other ciphers, and `rijndael.c`.
- Combo.ComboEncrypt: block ciphers only; the stream-cipher branch of the source passes data through.
- PostgreSQL glue, random numbers, time and OpenSSL wrappers.
