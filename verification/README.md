# CRC and rational arithmetic, modelled and proved

Two algorithms of the Boost headers kept in this repository are modelled here and proved: the cyclic
redundancy codes of `include/boost/crc.hpp` and the exact fractions of `include/boost/rational.hpp`.

## The CRC engine

A register, a dividend word and a truncated divisor are words of bits of any width, lowest bit first
(`Words.dfy`); bit i is the coefficient of x^i. A register may be wider than the order of the divisor,
as the C++ types are. The source never masks the register until output, so the model keeps the bits
above the order exactly as the code leaves them.

- `Reflection.dfy`: bit reversal by the closing pair of masks, and the byte table filled by the loop
  whose counter wraps round.
- `ModuloDivision.dfy`: one division step defined bit by bit, runs of steps, the two division loops
  proved equal to those runs, and the algebra: linearity over GF(2), and the fact that a window of input
  bits acts as an exclusive-or into the top of the register.
- `Polynomials.dfy`: polynomials over GF(2), the proof that the register of either division holds the one
  remainder of its Euclidean division, and what a wide register holds above the order.
- `ErrorDetection.dfy`: augmented against unaugmented division, the zero residue, burst errors.
- `CrcDrivers.dfy`: the partial-product table and all eight byte-fed drivers.
- `StrayBits.dfy`: what the reflected drivers compute on a register with bits above the order.
- `CrcComputers.dfy`: the states of `crc_basic` and `crc_optimal`, when the two agree, stop and resume.
- `CrcObjects.dfy`: the two classes, `crc` and `augmented_crc`, as code that updates its state in place.

The main result is an exact one. The header presents `crc_optimal` as a faster `crc_basic` for every
parameter set. That is true for every message if input is not reflected, or the order is below 8, or
the register is exactly as wide as the order. Otherwise (reflected input, order at least 8, wider
register) bits that were never masked are shifted down into the remainder, and the two agree for every
message if and only if the divisor is written with its leading term, nothing above it, and (above order
8) the start value has nothing above the order. `ComputersAgreeIffCompatible` proves both directions;
`TwelveBitsInSixteenDisagree` is a concrete failing parameter set. The reflected augmented driver has the
same two conditions, register by register (`AugReflectedMirrorsIffCancels`). What is computed otherwise is
exact too: the stray bits that come down are divided along with the message
(`OptimalCrcOnAnyRegister`, `RunOnAnyRegister`), or or-ed onto it in augmented division
(`AugRunOnAnyRegister`).

## Rational arithmetic

`rational` is a mutable pair kept in lowest terms with a positive denominator. Its integer type is left
open: any two's-complement type, or one of unlimited precision. The operators compute in a type whose
arithmetic is partial, so a value outside the range cannot be formed, and each asks of its operands
exactly what keeps its own steps in range. Signed overflow has no defined result in the source.

- `Integers.dfy`: C++ truncated division, gcd with Bezout's identity, lcm, coprimality. The header that
  defines `integer::gcd` and `integer::lcm` is not part of this model; they are taken as the
  non-negative mathematical ones, with gcd(0, 0) = 0.
- `RationalNumbers.dfy`: the exact value of a fraction as a real number, the unique lowest-terms form,
  and the field laws as equality of stored fields.
- `Reduction.dfy`: why the operators need no final normalisation.
- `Comparison.dfy`: the arithmetic of comparing two continued-fraction expansions.
- `MachineIntegers.dfy`: the integer type of a rational.
- `RationalObjects.dfy`: the class on that type, with every operator proved against the plain definition of
  the sum, difference, product or quotient. The argument of an operator may be the object itself.
- `RationalRuns.dfy`: runs of mutating operations on one object.
- `RationalGcd.dfy`: the gcd and lcm of two rationals.
- `MachineRange.dfy`: the steps of the operators, the integer forms, the counting steps and the comparison
  on every integer type, with the exact condition under which each overflows. The class requires that
  condition and no more.

## Where the code and its documentation differ

The model follows the code.

- `crc.hpp` lines 212-218 promise the checksum for every order and reflection; see
  `ComputersAgreeIffCompatible` for the exact condition.
- `crc.hpp` lines 871-874 say that sub-byte reflection keeps the higher bits; the code clears them
  (`ReflectSubByte`). The documented value is returned if and only if there are none
  (`SubByteReflectsIffNothingAbove`); the lone bit just above the count is always lost
  (`SubByteLosesLoneBit`).
- `crc.hpp` lines 1690 and 2023 promise that the interim remainder equals the value given to `reset`. In
  both computers it equals that value's low bits, so the promise holds if and only if the value has
  nothing above the order (`ResetReadsBackIffClean`). In every register wider than the order, the lone
  bit at the order reads out as zero (`ResetLosesLoneBit`).
- `crc.hpp` lines 1691-1693 and 2024-2026 promise a checksum after `reset` without any masking. Both
  computers mask it, so the promise holds if and only if the value and the final mask agree above the
  order (`ResetChecksumIffMaskAgreesAbove`).
- `crc.hpp` line 2242 allows every order in `augmented_crc`; the code uses the byte-table driver, which
  shifts by the order minus 8, so the model requires an order of at least 8.
- `rational.hpp` lines 519 and 558 say that addition avoids overflow. It avoids the large common
  denominator, but can still overflow although the sum is representable:
  `PlusMissesRepresentableSum`, with the exact condition in `PlusOverflowsExactly`; likewise for
  subtraction (`MinusOverflowsExactly`) and for an integer operand
  (`PlusIntegerOverflowsExactly`, `PlusIntegerMissesRepresentableSum`).
- `rational.hpp` lines 904-906 reject a denominator below the negative of `numeric_limits::max()`. On a
  two's-complement type that is the lowest value with nothing cancelled
  (`ThrowsForLowestDenominator`). For a type of unlimited precision that reports zero there, it
  rejects every negative denominator (`UnlimitedMayThrowAlways`).
- `rational.hpp` lines 314-333 take the integer divisor by reference and, unlike the rational forms,
  do not copy it first. Dividing an object by its own numerator is right exactly for the numerators
  -1, 0 and 1; otherwise it leaves a zero denominator (`DivideByOwnNumerator`).

## Model

| member | source | states |
|---|---|---|
| Reflection.ReflectUnsigned | include/boost/crc.hpp:383-398 | for any width and count, the loop terminates and leaves exactly the low bits reversed and the others as they were |
| Reflection.ReflectLowTwice | include/boost/crc.hpp:383-398 | reflecting twice restores every word |
| Reflection.MakeByteReflectionTable | include/boost/crc.hpp:407-419 | the loop that stops when its counter wraps has filled all 256 slots, each with its index reversed |
| Reflection.ReflectByte | include/boost/crc.hpp:434-441 | the table lookup reverses the byte |
| Reflection.ReflectSubByte | include/boost/crc.hpp:455-456 | agrees with the general reflection on the low bits, clears the others, and so returns the general reflection if and only if there were none |
| Reflection.SubByteReflectsIffNothingAbove | include/boost/crc.hpp:871-877 | on a word of any width the documented value is returned if and only if every bit from the count up is zero |
| Reflection.SubByteLosesLoneBit | include/boost/crc.hpp:871-877 | for every count below the width, a value whose documented reflection is itself and whose returned reflection is zero |
| Reflection.ReflectOptionally | include/boost/crc.hpp:480-485 | reflects the low bits when asked to, else returns the word |
| ModuloDivision.CrcModuloWordUpdate | include/boost/crc.hpp:548-576 | the loop with its pre-reflected word, masks and shifts runs the bitwise-defined division steps over the word's bits in processing order, on a register of any width |
| ModuloDivision.CrcModuloUpdate | include/boost/crc.hpp:614-620 | the single-bit form is one such step |
| ModuloDivision.AugmentedCrcModuloWordUpdate | include/boost/crc.hpp:667-692 | the augmented loop runs the augmented steps over the word's bits in processing order |
| ModuloDivision.FeedLow | include/boost/crc.hpp:548-576 | no bit at or above the order ever influences the bits below it, in either division |
| ModuloDivision.FeedLinear | include/boost/crc.hpp:548-576 | both divisions are linear over GF(2) in register and input together |
| ModuloDivision.FeedAbsorbs | include/boost/crc.hpp:563-575 | at every register width, feeding up to n bits equals adding them just below the order and feeding zeros, whatever lies above the order |
| ModuloDivision.FeedByTable | include/boost/crc.hpp:1145-1156 | the byte-wise identity: shifted register plus the partial product of outgoing against incoming bits |
| ModuloDivision.AugFeedByTable | include/boost/crc.hpp:1114-1125 | the same for augmented division, with the same unaugmented partial products |
| Polynomials.FeedIsRemainder | include/boost/crc.hpp:548-576 | r x^k + m x^n equals the computed quotient times the full divisor plus the register, for every r, m and divisor |
| Polynomials.RemainderIsUnique | include/boost/crc.hpp:541-547 | quotient and remainder of that division are unique |
| Polynomials.AugFeedIsTheRemainder | include/boost/crc.hpp:667-692 | a word is the final register of augmented division if and only if some quotient completes it to r x^k + m, for every start value and message length |
| Polynomials.WideFeedIsCutOff | include/boost/crc.hpp:548-576 | a register of any width holds the low part of r x^k + m x^n + Q p, bits above the order included |
| Polynomials.FeedIsTheRemainder | include/boost/crc.hpp:548-576 | a word is the final register if and only if some quotient completes it to the dividend |
| ErrorDetection.AugmentedIsUnaugmented | include/boost/crc.hpp:2207-2211 | dividing the message followed by n zeros equals unaugmented division from the start value that n zeros convert |
| ErrorDetection.ConvertedStartAgrees | include/boost/crc.hpp:2252-2258 | the conversion of start values that the header leaves to its caller: with a constant term in the divisor, the augmented run from the converted value equals the unaugmented run |
| ErrorDetection.ResidueIsZeroIffChecksum | include/boost/crc.hpp:2272-2276 | bits appended in place of the zeros leave zero if and only if they are the checksum |
| ErrorDetection.WindowsByPosition | include/boost/crc.hpp:562-575 | two words differ in a window exactly when they have equal length, differ, and differ only at positions within n of some start |
| ErrorDetection.BurstIsSeen | include/boost/crc.hpp:562-575 | with a constant term in the divisor, messages that differ only in a window of at most n bits end differently |
| ErrorDetection.BurstIsMissed | include/boost/crc.hpp:562-575 | without one, an n-bit burst exists that no start value sees |
| ErrorDetection.BurstDetectionIffConstantTerm | include/boost/crc.hpp:562-575 | all such bursts are detected if and only if the divisor has a constant term |
| CrcDrivers.InputBitsAt | include/boost/crc.hpp:1145-1156 | the bits of a buffer in processing order, position by position |
| CrcDrivers.MakePartialXorProductsTable | include/boost/crc.hpp:965-985 | every slot, direct or reflected, holds the effect of its own index on a zero register, including what division leaves above the order |
| CrcDrivers.EachSlotOnce | include/boost/crc.hpp:973-983 | each index is written by exactly one dividend |
| CrcDrivers.TableByEitherDivision | include/boost/crc.hpp:963-964 | the header's open question: unaugmented and augmented division give the same mask table, for every unit, plain or mirrored, and every register width, the bits above the order included |
| CrcDrivers.DirectCrcUpdate | include/boost/crc.hpp:1141-1159 | below the order, the table run equals the bit loop over all bytes, for any register width and any contents above the order |
| CrcDrivers.DirectAugmentedCrcUpdate | include/boost/crc.hpp:1110-1128 | the same for the augmented driver and augmented division |
| CrcDrivers.ReflectedCrcUpdate | include/boost/crc.hpp:1234-1253 | the exact register after the run (on any register, see the `StrayBits` rows); on a clean register with a divisor that cancels it is the mirror image of the bit loop fed lowest bit first |
| CrcDrivers.ReflectedAugmentedCrcUpdate | include/boost/crc.hpp:1201-1220 | the same for the augmented driver |
| CrcDrivers.ReflectedRunMirrors | include/boost/crc.hpp:1234-1253 | both reflected drivers simulate the bitwise divisions on the mirrored register and keep it clean |
| CrcDrivers.AugReflectedMirrorsIffCancels | include/boost/crc.hpp:1201-1220 | for every register and divisor, the reflected augmented driver is right for all byte runs from that register if and only if it has nothing above the order and is as wide as the order or the divisor cancels the bit at the order |
| StrayBits.StrayBitsComeDown | include/boost/crc.hpp:1240-1250 | on any register, one byte of the reflected driver is that byte on the register without its bits above the order, plus those bits shifted down by eight |
| StrayBits.AugStrayBitsComeDown | include/boost/crc.hpp:1207-1217 | in the augmented driver the eight bits that enter are or-ed onto the byte, the others come down beside it |
| StrayBits.RunOnAnyRegister | include/boost/crc.hpp:1234-1253 | for every register, divisor and byte run, the low bits are the mirror image of the bitwise remainder plus the augmented division of the bits that entered from above |
| StrayBits.AugRunOnAnyRegister | include/boost/crc.hpp:1201-1220 | for every register, divisor and byte run, the low bits are the mirror image of the augmented division of the bytes with the entering bits or-ed on |
| StrayBits.ByteAbove | include/boost/crc.hpp:1234-1253 | above the order a byte shifts the stray bits down and adds what division of the unit leaves there |
| StrayBits.CancelledCrossing | include/boost/crc.hpp:1234-1253 | with a divisor that cancels, the bits that enter with the j-th byte are the j-th eight above the order of the start value |
| StrayBits.CancelledMeeting | include/boost/crc.hpp:1201-1220 | the same for the augmented driver |
| CrcDrivers.SubByteCrcUpdate | include/boost/crc.hpp:1349-1363 | the sub-byte driver divides bit by bit, between two mirrorings when reflected (lines 1436-1451) |
| CrcDrivers.SubByteAugmentedCrcUpdate | include/boost/crc.hpp:1407-1422 | the augmented sub-byte driver, below the order, is augmented division of the plain or mirrored register (direct form at lines 1323-1337) |
| CrcComputers.BasicRunIsRemainder | include/boost/crc.hpp:1888-1897 | the bitwise computer's checksum is the output form of the remainder computed at exactly the order's width |
| CrcComputers.OptimalChecksumOf | include/boost/crc.hpp:2103-2114 | reflecting the output exactly when the two flags differ gives the checksum of the tracked remainder |
| CrcComputers.ComputersAgreeIffCompatible | include/boost/crc.hpp:212-218 | for every parameter set and start value, table-driven and bitwise checksums are equal for all messages if and only if the register is compatible |
| CrcComputers.OptimalCrcOnAnyRegister | include/boost/crc.hpp:2088-2114 | what the table-driven computer returns for every parameter set, start value and message, compatible or not |
| CrcComputers.RemainderIsPolynomialRemainder | include/boost/crc.hpp:1791-1800 | the remainder behind every checksum is the one of the polynomial division of the message |
| CrcComputers.ChecksumBit | include/boost/crc.hpp:1888-1897 | each checksum bit is the remainder's bit, or the one that mirrors it, against the mask's; nothing above the order |
| CrcComputers.ExactWidthIsCompatible | include/boost/crc.hpp:249 | a register exactly as wide as the order is always compatible |
| CrcComputers.TwelveBitsInSixteenDisagree | include/boost/crc.hpp:979-982 | order 12 in 16 bits with divisor 0x80F and reflected input: some message gets two different checksums |
| CrcComputers.ChecksumsSeeBurst | include/boost/crc.hpp:1888-1897 | with a constant term in the divisor, two byte messages whose bits differ only in a window of at most order bits get different checksums from the bitwise computer, and on a compatible register from the table-driven one |
| CrcComputers.ChecksumsSeeBurstsIffConstantTerm | include/boost/crc.hpp:2103-2114 | for every parameter set and start value, the checksums see all such bursts if and only if the divisor has a constant term |
| CrcComputers.ResetReadsBackIffClean | include/boost/crc.hpp:2023-2039 | after a reset both computers read out the low bits of the given value, whatever lies above them, and so the value itself if and only if it has nothing above the order |
| CrcComputers.ResetChecksumIffMaskAgreesAbove | include/boost/crc.hpp:2024-2026 | after a reset both computers return the same checksum, which is the documented one if and only if value and final mask agree above the order |
| CrcComputers.ResetLosesLoneBit | include/boost/crc.hpp:1690-1704 | in every register wider than the order, a value for which the documented postcondition fails in both computers |
| CrcComputers.SessionsDoNotShow | include/boost/crc.hpp:1662-1665 | any chunking of the input, with stop and resume between any two chunks, leaves the final checksum of both computers unchanged |
| CrcComputers.SessionsCompose | include/boost/crc.hpp:1662-1665 | the session of two parts is the second part from where the first one ends, for both computers and for the bytes read |
| CrcComputers.SessionOfOne | include/boost/crc.hpp:1662-1665 | a session of one chunk is that run; stopping and resuming once clears the bits above the order |
| CrcComputers.InterimIsPolynomialRemainder | include/boost/crc.hpp:2000-2012 | what the table-driven computer reads out is the remainder of the polynomial division of the message, and nothing else is |
| CrcObjects.CrcBasic.constructor | include/boost/crc.hpp:1553-1569 | the register starts as the initial remainder |
| CrcObjects.CrcBasic.GetInterimRemainder | include/boost/crc.hpp:1672-1680 | the low bits of the register, nothing above |
| CrcObjects.CrcBasic.Reset | include/boost/crc.hpp:1695-1704 | the register becomes the given value and no parameter changes |
| CrcObjects.CrcBasic.ResetToInitial | include/boost/crc.hpp:1718-1725 | the register becomes the initial remainder |
| CrcObjects.CrcBasic.ProcessBit | include/boost/crc.hpp:1735-1744 | one division step |
| CrcObjects.CrcBasic.ProcessBits | include/boost/crc.hpp:1760-1780 | division by the lowest bits of the byte, highest first |
| CrcObjects.CrcBasic.ProcessByte | include/boost/crc.hpp:1791-1800 | division by the byte in the order the reflection flag asks for |
| CrcObjects.CrcBasic.ProcessBlock | include/boost/crc.hpp:1825-1839 | division by all bytes of the block in order |
| CrcObjects.CrcBasic.ProcessBytes | include/boost/crc.hpp:1861-1873 | the same from a start and a count |
| CrcObjects.CrcBasic.Checksum | include/boost/crc.hpp:1888-1897 | the output form of the register's low bits |
| CrcObjects.ReflectQ | include/boost/crc.hpp:892-895 | the reflector the order selects reverses the low bits; through a byte it clears the others |
| CrcObjects.CrcOptimal.constructor | include/boost/crc.hpp:1922-1932 | the register starts reflected when input is |
| CrcObjects.CrcOptimal.GetInterimRemainder | include/boost/crc.hpp:2000-2012 | the reflection undone and masked |
| CrcObjects.CrcOptimal.Reset | include/boost/crc.hpp:2029-2039 | the register becomes the given value, reflected when input is |
| CrcObjects.CrcOptimal.ProcessBytes | include/boost/crc.hpp:2088-2100 | one run of the driver that order and reflection select |
| CrcObjects.CrcOptimal.ProcessBlock | include/boost/crc.hpp:2067-2079 | the same from two ends |
| CrcObjects.CrcOptimal.ProcessByte | include/boost/crc.hpp:2048-2058 | the same for a one-byte buffer |
| CrcObjects.CrcOptimal.Checksum | include/boost/crc.hpp:2103-2114 | the output form of the register |
| CrcObjects.RunBasicSession | include/boost/crc.hpp:1672-1704 | the bitwise object goes through any session of chunks, read-outs and resets and ends in the session's state |
| CrcObjects.RunOptimalSession | include/boost/crc.hpp:2000-2039 | the same for the table-driven object |
| CrcObjects.Crc | include/boost/crc.hpp:2217-2230 | one call gives the checksum of the bitwise remainder whenever the register is compatible |
| CrcObjects.AugmentedCrc | include/boost/crc.hpp:2280-2294 | the augmented remainder of the buffer, masked |
| CrcObjects.AugmentedRemainderIsTheRemainder | include/boost/crc.hpp:2264-2265 | for every order, start value and buffer length, the result is the only remainder of r x^k + m by the full divisor |
| CrcObjects.AugmentedRunsChain | include/boost/crc.hpp:2253-2255 | a block read in several runs, each started from the result before, gives the result of one run |
| CrcObjects.ZeroBytesGiveChecksum | include/boost/crc.hpp:2267-2271 | zero bytes after the message make the augmented run return the unaugmented remainder from the converted start value |
| CrcObjects.ZeroStartIsItsOwnConversion | include/boost/crc.hpp:2250-2257 | the start value zero needs no conversion between the two forms of division |
| CrcObjects.AppendedChecksumGivesZero | include/boost/crc.hpp:2272-2276 | bytes in their place make it return zero if and only if they are that checksum in big-endian order |
| RationalNumbers.NormalFormIsUnique | include/boost/rational.hpp:422-425 | two lowest-terms forms of one number have equal fields |
| RationalNumbers.NormalFormIsCanonical | include/boost/rational.hpp:868-873 | for stored fractions, equal fields, equal cross products and equal values are the same thing |
| RationalNumbers.OrderedValues | include/boost/rational.hpp:783-866 | with positive denominators the order of values is the order of cross products |
| RationalNumbers.SumIsExact | include/boost/rational.hpp:517-549 | the sum's stored form has exactly the sum's value |
| RationalNumbers.DifferenceIsExact | include/boost/rational.hpp:552-568 | the same for the difference |
| RationalNumbers.ProductIsExact | include/boost/rational.hpp:571-583 | the same for the product |
| RationalNumbers.QuotientIsExact | include/boost/rational.hpp:586-612 | the same for the quotient |
| RationalNumbers.AdditionCommutes | include/boost/rational.hpp:287 | addition commutes as equality of stored fields |
| RationalNumbers.AdditionAssociates | include/boost/rational.hpp:287 | addition associates as equality of stored fields |
| RationalNumbers.SubtractionUndoesAddition | include/boost/rational.hpp:287-288 | subtracting what was added restores the stored fields |
| RationalNumbers.MultiplicationCommutes | include/boost/rational.hpp:289 | multiplication commutes as equality of stored fields |
| RationalNumbers.MultiplicationAssociates | include/boost/rational.hpp:289 | multiplication associates as equality of stored fields |
| RationalNumbers.DivisionUndoesMultiplication | include/boost/rational.hpp:289-290 | dividing by a non-zero factor restores the stored fields |
| RationalNumbers.MultiplicationDistributes | include/boost/rational.hpp:287-289 | multiplication distributes over addition as equality of stored fields |
| Reduction.SumNeedsOneGcd | include/boost/rational.hpp:523-535 | the proof sketch in the comment: dividing by gcd(a d1 + c b1, g) alone gives the lowest-terms sum |
| Reduction.ProductNeedsNoGcd | include/boost/rational.hpp:577-582 | the cross-cancelled products are already the lowest-terms product |
| Reduction.QuotientNeedsNoGcd | include/boost/rational.hpp:601-610 | the cross-cancelled quotient is the lowest-terms quotient once the sign is moved |
| Reduction.InnerGcdIsGcd | include/boost/rational.hpp:413-416 | the recursion on C++ remainders gives the gcd up to sign, for all signs |
| Reduction.IsNormalizedIsNormal | include/boost/rational.hpp:430-435 | the test accepts exactly the lowest-terms pairs with positive denominator |
| RationalObjects.Rational.constructor | include/boost/rational.hpp:181 | zero over one, invariant established |
| RationalObjects.Rational.FromInteger | include/boost/rational.hpp:183-187 | n over one, invariant established |
| RationalObjects.Rational.Create | include/boost/rational.hpp:189-193 | the lowest-terms form, or exactly the error that applies, on every integer type |
| RationalObjects.Rational.Normalize | include/boost/rational.hpp:886-916 | as above in place: zero denominator, singular denominator, or the unique lowest-terms form |
| RationalObjects.Rational.AddAssign | include/boost/rational.hpp:517-549 | the exact sum in lowest terms with one gcd, no step leaving the type, also when the argument is the object itself; it asks only that the numerators over the least common denominator, their sum and the final denominator are representable |
| RationalObjects.Rational.SubtractAssign | include/boost/rational.hpp:552-568 | the exact difference in lowest terms, likewise |
| RationalObjects.Rational.MultiplyAssign | include/boost/rational.hpp:571-583 | the exact product in lowest terms without a final gcd, in range whenever the product is |
| RationalObjects.Rational.DivideAssign | include/boost/rational.hpp:586-612 | the exact quotient in lowest terms, in range but for the two stated cases; a zero divisor is an error and changes nothing |
| RationalObjects.Rational.AddInteger | include/boost/rational.hpp:293-297 | the exact sum with an integer, still in lowest terms |
| RationalObjects.Rational.SubtractInteger | include/boost/rational.hpp:299-303 | the exact difference with an integer |
| RationalObjects.Rational.MultiplyInteger | include/boost/rational.hpp:305-312 | the exact product with an integer |
| RationalObjects.Rational.DivideInteger | include/boost/rational.hpp:314-333 | the exact quotient by an integer; zero is an error and changes nothing |
| RationalObjects.Rational.DivideByOwnNumerator | include/boost/rational.hpp:314-333 | with the divisor referring to the object's own numerator, not the lowest value, the outcome is right if and only if the numerator is -1, 0 or 1; otherwise the denominator becomes zero |
| RationalObjects.Rational.Increment | include/boost/rational.hpp:336 | one more |
| RationalObjects.Rational.Decrement | include/boost/rational.hpp:337 | one less |
| RationalRuns.Run | include/boost/rational.hpp:286-337 | any run of mutating operations that stays in range, with any operands or the object itself, stores the lowest-terms result of every step and computes the exact real value |
| RationalRuns.StoredRunValue | include/boost/rational.hpp:286-337 | the stored results stand for the exact numbers |
| RationalRuns.RunsCompose | include/boost/rational.hpp:286-337 | the empty run changes nothing and runs compose |
| RationalRuns.RunWithOther | include/boost/rational.hpp:287-290 | one operation with n/d adds, subtracts, multiplies or divides by that number; dividing by zero changes nothing |
| RationalRuns.RunWithItself | include/boost/rational.hpp:517-612 | with the object itself as argument: v + v, 0, v v, and 1 unless v is zero |
| RationalRuns.RunWithInteger | include/boost/rational.hpp:293-337 | the same for integers and the counting steps |
| RationalRuns.FittingRunsCompose | include/boost/rational.hpp:286-337 | stored results compose, and a run is in range exactly when each part is from where it starts |
| RationalRuns.UnlimitedRunsFit | include/boost/rational.hpp:286-337 | on a type of unlimited precision every run is in range |
| RationalObjects.Rational.Equals | include/boost/rational.hpp:868-873 | comparing fields decides equality of the numbers |
| RationalObjects.Rational.LessThan | include/boost/rational.hpp:783-866 | the parallel continued-fraction expansion, computed in the operands' own type without leaving it, terminates and decides the exact order, the lowest numerator included |
| RationalObjects.Rational.GreaterThan | include/boost/rational.hpp:374 | the same order from the other side |
| RationalObjects.Rational.LessThanInteger | include/boost/rational.hpp:379-394 | comparing the adjusted quotient, which is the floor, decides the order against an integer |
| RationalObjects.Rational.GreaterThanInteger | include/boost/rational.hpp:396-399 | the same order from the other side |
| RationalObjects.Rational.EqualsInteger | include/boost/rational.hpp:401-404 | decides equality with an integer |
| RationalObjects.Rational.AtMost | include/boost/rational.hpp:706-711 | the negated strict test decides the same total order |
| RationalObjects.Rational.AtLeast | include/boost/rational.hpp:723-730 | the same for the other bound |
| RationalObjects.Rational.AtMostInteger | include/boost/rational.hpp:706-711 | the same against an integer |
| RationalObjects.Rational.AtLeastInteger | include/boost/rational.hpp:723-728 | the same against an integer |
| RationalObjects.MixedFraction | include/boost/rational.hpp:806-812 | quotient and remainder brought to the floor and a non-negative remainder, by the range-checked steps |
| RationalObjects.GcdEvaluator | include/boost/rational.hpp:1014-1026 | the constructed fraction is the gcd of the two, never negative, provided the gcd of the numerators and the lcm of the denominators are representable |
| RationalObjects.LcmEvaluator | include/boost/rational.hpp:1028-1040 | the constructed fraction is the lcm of the two, never negative, under the matching condition |
| RationalGcd.GcdIsCombination | include/boost/rational.hpp:1014-1026 | the gcd is an integer combination of the two numbers |
| RationalGcd.GcdDividesBoth | include/boost/rational.hpp:1014-1026 | both numbers are integer multiples of the gcd |
| RationalGcd.GcdIsGreatestDivisor | include/boost/rational.hpp:1014-1026 | every common divisor divides the gcd |
| RationalGcd.LcmIsMultipleOfBoth | include/boost/rational.hpp:1028-1040 | the lcm is an integer multiple of both numbers |
| RationalGcd.LcmIsLeastMultiple | include/boost/rational.hpp:1028-1040 | every common multiple is a multiple of the lcm |
| RationalGcd.GcdIsNotNegative | include/boost/rational.hpp:1014-1026 | the gcd is not negative, and zero only for two zeros |
| RationalGcd.LcmIsNotNegative | include/boost/rational.hpp:1028-1040 | the lcm is not negative, and zero only if one of the two is |
| RationalGcd.GcdIsTheGreatestDivisor | include/boost/rational.hpp:1014-1026 | a real number is the gcd if and only if it is a non-negative common divisor that every common divisor divides |
| RationalGcd.LcmIsTheLeastMultiple | include/boost/rational.hpp:1028-1040 | a real number is the lcm if and only if it is a non-negative common multiple that divides every common multiple |
| RationalGcd.GcdTimesLcmIsProduct | include/boost/rational.hpp:1014-1040 | gcd times lcm is the magnitude of the product |
| MachineRange.LessNeverOverflows | include/boost/rational.hpp:797-841 | on every integer type the steps of comparison compute no value outside the type and decide the exact order, the lowest numerator included |
| MachineRange.TimesOverflowsOnlyIfItMust | include/boost/rational.hpp:578-582 | multiplication overflows exactly when the exact product is not representable |
| MachineRange.OverOverflowsExactly | include/boost/rational.hpp:595-610 | division overflows exactly when the exact quotient is not representable or one of two stated cases at the lowest value holds |
| MachineRange.NormalizeSucceedsExactly | include/boost/rational.hpp:886-913 | normalisation succeeds, throws or overflows exactly under the stated conditions |
| MachineRange.ThrowsForLowestDenominator | include/boost/rational.hpp:904-906 | on a two's-complement type normalisation throws exactly for a non-zero number over the lowest value when nothing cancels |
| MachineRange.UnlimitedMayThrowAlways | include/boost/rational.hpp:904-906 | on a type that reports zero as its maximum every negative denominator throws |
| MachineRange.SumConditions | include/boost/rational.hpp:537-548 | the range conditions of sum and difference in plain integers over the least common multiple |
| MachineRange.SameDenominatorSum | include/boost/rational.hpp:537-548 | for equal denominators only the sum of the numerators must be representable |
| MachineRange.PlusOverflowsExactly | include/boost/rational.hpp:537-548 | addition overflows exactly when a numerator over the least common denominator, their sum, or the final denominator is not representable |
| MachineRange.PlusMissesRepresentableSum | include/boost/rational.hpp:518-519 | a representable sum for which addition overflows, on every type with an odd maximum |
| MachineRange.MinusOverflowsExactly | include/boost/rational.hpp:559-565 | subtraction overflows exactly when a numerator over the least common denominator, their difference, or the final denominator is not representable |
| MachineRange.MinusTakesLowest | include/boost/rational.hpp:562 | subtracting the lowest value can succeed although its negative is not representable |
| MachineRange.PlusIntegerOverflowsExactly | include/boost/rational.hpp:293-297 | adding an integer overflows exactly when its product with the denominator, or the exact sum, is not representable |
| MachineRange.MinusIntegerOverflowsExactly | include/boost/rational.hpp:299-303 | the same for subtracting an integer |
| MachineRange.PlusIntegerMissesRepresentableSum | include/boost/rational.hpp:293-297 | a representable sum with an integer for which the product overflows, on every type with an odd maximum |
| MachineRange.CountingOverflowsOnlyIfItMust | include/boost/rational.hpp:336-337 | the counting steps overflow exactly when the next number is not representable |
| MachineRange.TimesIntegerOverflowsOnlyIfItMust | include/boost/rational.hpp:305-312 | multiplying by an integer overflows exactly when the exact product is not representable |
| MachineRange.OverIntegerOverflowsExactly | include/boost/rational.hpp:314-333 | dividing by an integer overflows exactly when the exact quotient is not representable or one of the two stated cases at the lowest value holds |

## Left out

- CrcDrivers.ReflectedCrcUpdate: gives the mirror image only on a clean register with a divisor that cancels, because the code is wrong otherwise; the exact limits are in `ComputersAgreeIffCompatible`.
- CrcDrivers.ReflectedAugmentedCrcUpdate: the same, with the exact limits in `AugReflectedMirrorsIffCancels`.
- Function-local static tables: built on each use here, since caching cannot be observed.
- `operator ()` of `crc_optimal`, plain getters and type selection (`uint_t`, mix-in plumbing): forwarding only.
- Pointer validity of memory blocks: buffers are arrays with bounds.
- Stream input and output of rationals: it depends on stream flags and integer formatting outside this header.
- Integer operands that refer to a field of the object, other than a divisor that is its numerator: each other such operand is read before that field changes.
- Overload selection, narrowing conversions between integer types, and unsigned types: one signed integer type is modelled at a time.
- Promotion of types narrower than `int`: every intermediate value is held to the type itself, as it is for `int` and wider types.
- Value-returning wrappers (`operator+` and the like), unary minus, `abs`, post-increment, `rational_cast`: each only copies and calls a modelled operator.
- Other headers and `src/main.cpp`: forwarding, macros, or start-up code without an algorithm.
