# Exact arithmetic, and two small state machines around it

This project models the code of the repository on which exact results depend, and proves
that it gives them: natural numbers as digit arrays (`num`), signed integers and rationals
(`Zarith`), the channel I/O of bigstrings (`core`) and the redirections of a spawned
process (`spawn`). Everything holds for 32-bit and 64-bit words alike.

- `BngDigit`, `Bng`, `BngShift`, `BngCompare`, `BngDiv`, `BngMul`: digit arrays updated in
  place with wrapping machine words. A number is a range of an array; `Digits.Val` is its
  value. Every routine equates the value afterwards, with the carry in its place, with the
  one its header promises, and changes nothing outside its range.
- `Nat`: the stubs around them: inverted carries, the hash, and the wire format between
  machines of either word size and byte order.
- `ZRep`, `ZArith`, `ZDiv`: a Zarith integer is a native int or a sign with limbs. All
  operations are specified on the value alone, so the two forms of the least native int
  make no difference, and the native path and the limb path meet one specification.
- `ZLogic`, `ZBits`, `ZField`: sign and magnitude made to behave as infinite two's
  complement. `Bits.Bit` of a negative number is that of floor division, and every
  operation is stated bit by bit, or as floor division by a power of two.
- `Rounding`, `ToFloat`: rounding to 53 bits over the reals, with unbounded exponent, and
  the rounding to odd behind the conversions.
- `Divisors`, `Rational`, `RationalLaws`: canonical fractions with 1/0, -1/0 and 0/0. The
  reference is `Rational.Ext`, the reals with two infinities and an undefined value.
- `ZText`, `ZFormat`, `ZParse`, `ZCodec`: numbers as text, bytes and hashes.
- `Channel`: the kernel's answers to readv and writev are a script, and the contracts hold
  for every script.
- `Spawn`: the descriptor table as a map, with dup, dup2 and close.
- `Arith`, `Bits`, `Digits`, `Wrappers`: powers, bits, digit sequences and result types.

The mpn functions of GMP are methods that store the digits of the value their manual
promises; their preconditions are those of the manual, so calling them is checked too.

Where the code and its comments differ, the model follows the code:

- A comment says a number that fits a native int is stored as one
  (`duniverse/Zarith/caml_z.c:125`). The least native int may also be a block, because
  `ml_z_reduce` compares the magnitude with the largest int: `ZRep.Representations` says
  that this is the only exception.
- A block read from the wire is not reduced (`duniverse/Zarith/caml_z.c:2998-3005`), so on
  64 bits a number written on 32 bits may break the invariant. `ZCodec.Deserialize` says
  exactly when and `ZCodec.WireBreaksInvariant` gives one.
- The size check before writing a block counts limbs, but bytes are written
  (`duniverse/Zarith/caml_z.c:2927-2931`). `ZCodec.WireRoundTrip` says exactly which blocks
  come back, and `ZCodec.WireLosesBlock` gives one that does not.
- A comment allows a denominator of -1 (`duniverse/Zarith/q.ml:28`); it never occurs.
- Formats that show a space do not read back (`duniverse/Zarith/caml_z.c:801`):
  `ZText.RoundTrip` gives the exact condition and `ZFormat.SpacesDoNotReadBack` an example.
  `ZFormat.HexReadsAsBinary` shows why a format without a mark needs its base when read.

## Model

| member | source | states |
|---|---|---|
| BngDigit.Wrap | duniverse/num/src/bng_digit.c:23-91 | a machine word: below the base, and the number itself when it fits |
| BngDigit.Add2 | duniverse/num/src/bng_digit.c:25-31 | digit and carry are the exact sum of two digits, though the addition wraps |
| BngDigit.Add2Carry | duniverse/num/src/bng_digit.c:36-43 | the same with a carry in; the two wraps never both carry |
| BngDigit.Add3 | duniverse/num/src/bng_digit.c:48-56 | the wrapped sum of three digits, every carry counted in the accumulator, which itself wraps |
| BngDigit.Sub2 | duniverse/num/src/bng_digit.c:61-67 | digit and borrow are the exact difference of two digits |
| BngDigit.Sub2Carry | duniverse/num/src/bng_digit.c:72-79 | the same with a borrow in |
| BngDigit.Sub3 | duniverse/num/src/bng_digit.c:84-92 | the wrapped difference of three digits, every borrow counted |
| BngDigit.Mult | duniverse/num/src/bng_digit.c:108-117 | the two result digits are the exact product, from four half digit products that all wrap |
| BngDigit.MultAdd3 | duniverse/num/src/bng.c:205-210 | one step of multiply-accumulate is exact: the high digit never overflows |
| BngDigit.MultSub3 | duniverse/num/src/bng.c:239-244 | one step of multiply-subtract is exact |
| BngDigit.Estimate | duniverse/num/src/bng.c:383-389 | dividing leading digits by the top digit of the divisor plus one never over-estimates and fits a digit, and for a normalised divisor is at most two too small; one lemma for digits and for half digits |
| BngDigit.HalfStage | duniverse/num/src/bng_digit.c:136-148 | the half quotient of bng_div_aux is below the half base and not above the true one |
| BngDigit.Adjust | duniverse/num/src/bng_digit.c:149-154 | the adjusting loop ends with the exact half quotient and a remainder below the divisor, wraps and borrows of the pair included |
| BngDigit.HighStage | duniverse/num/src/bng_digit.c:134-154 | the high half quotient and its remainder; at most two adjustments when the divisor is normalised |
| BngDigit.LowStage | duniverse/num/src/bng_digit.c:155-172 | the low half quotient and the remainder; at most two adjustments when the divisor is normalised |
| BngDigit.DivAux | duniverse/num/src/bng_digit.c:129-176 | two digits by one: exact quotient in one digit, remainder below the divisor, for every divisor above the high digit |
| Bng.AddCarry | duniverse/num/src/bng.c:93-102 | adds a carry to a number in place and returns the carry out: the value is exact, nothing else changes |
| Bng.Add | duniverse/num/src/bng.c:106-121 | adds a shorter number in place, with carry in and carry out |
| Bng.SubCarry | duniverse/num/src/bng.c:124-133 | subtracts a borrow in place |
| Bng.Sub | duniverse/num/src/bng.c:137-152 | subtracts a shorter number in place, with borrow in and borrow out |
| Bng.MultAddDigit | duniverse/num/src/bng.c:194-224 | adds a digit times a number in place; the carry out is at most one when the target is longer |
| Bng.MultSubDigit | duniverse/num/src/bng.c:228-258 | subtracts a digit times a number in place; the borrow out is at most one when the target is longer |
| BngShift.ShiftLeft | duniverse/num/src/bng.c:157-171 | multiplies by a power of two in place and returns exactly the bits shifted out |
| BngShift.ShiftRight | duniverse/num/src/bng.c:176-190 | divides by a power of two in place and returns the bits shifted out |
| BngShift.LeadingZeroBits | duniverse/num/src/bng.c:38-50 | the shift that brings the leading bit of a digit to the top |
| BngCompare.NumDigits | duniverse/num/src/bng.c:59-66 | the number of significant digits: the value is kept and the top digit is not zero |
| BngCompare.Compare | duniverse/num/src/bng.c:71-88 | the order of two numbers of any lengths, leading zeros ignored |
| BngDiv.DivRemNormDigit | duniverse/num/src/bng.c:314-330 | division of a number by a normalised digit |
| BngDiv.DivRemDigit | duniverse/num/src/bng.c:335-350 | division by any digit above the top one, normalising and undoing it; the dividend is restored |
| BngDiv.EstimateQuotient | duniverse/num/src/bng.c:383-387 | the estimated quotient digit, including the case where the divisor digit plus one wraps to zero |
| BngDiv.CorrectQuotient | duniverse/num/src/bng.c:390-396 | the correcting loop: the exact quotient digit, which never overflows |
| BngDiv.QuotientDigit | duniverse/num/src/bng.c:378-398 | one turn of long division: the digit is exact, the partial remainder is below the divisor, and at most two corrections are made |
| BngDiv.LongDivide | duniverse/num/src/bng.c:376-399 | all turns: quotient above, remainder below, in the same array |
| BngDiv.Normalise | duniverse/num/src/bng.c:365-370 | both shifts lose no bit and the divisor comes out normalised |
| BngDiv.DivRem | duniverse/num/src/bng.c:357-404 | long division in place: N = Q * D + R with R < D, quotient and remainder where the header says, the divisor restored digit for digit and nothing else touched |
| BngMul.MultAdd | duniverse/num/src/bng.c:262-271 | A + B * C exactly, with a carry of at most one |
| BngMul.SquareSplits | duniverse/num/src/bng.c:275-309 | a square is twice its cross products plus the squares of its digits |
| BngMul.AddCross | duniverse/num/src/bng.c:283-288 | every cross product is added once |
| BngMul.AddSquares | duniverse/num/src/bng.c:291-300 | the squares of the digits are added two places at a time |
| BngMul.SquareAdd | duniverse/num/src/bng.c:275-309 | 2 * A + B * B exactly, with a carry of at most two |
| Nat.DecrNat | duniverse/num/src/nat_stubs.c:163-167 | decrement with the inverted carry convention |
| Nat.SubNat | duniverse/num/src/nat_stubs.c:169-175 | subtraction with the inverted carry convention |
| Nat.HashNat | duniverse/num/src/nat_stubs.c:399-421 | the hash is a function of the value alone: the same for 32-bit and 64-bit digits and with leading zeros |
| Nat.SignificantIs | duniverse/num/src/nat_stubs.c:404-420 | 32-bit words without a zero on top are determined by the number |
| Nat.DigitsValue | duniverse/num/src/nat_stubs.c:334-340 | the words of a number in memory stand for its digits on every platform |
| Nat.SerializeNat | duniverse/num/src/nat_stubs.c:342-367 | count and words, low words first whatever the platform; too big only on 64 bits |
| Nat.DeserializeNat | duniverse/num/src/nat_stubs.c:369-397 | the words read, completed with a zero word when 64-bit digits need an even count |
| Nat.CodecRoundTrip | duniverse/num/src/nat_stubs.c:334-397 | what any platform writes any platform reads as the same number, odd counts included |
| ZRep.Unpack | duniverse/Zarith/caml_z.c:358-385 | sign and limbs of a number, with the same value; no limbs for zero |
| ZRep.Reduce | duniverse/Zarith/caml_z.c:396-410 | the value of the limbs, as a block with no zero on top exactly when the magnitude is above the largest int, and as a native int otherwise |
| ZRep.Representations | duniverse/Zarith/caml_z.c:124-127 | a number has one representation, except the least native int, which also has a block |
| ZRep.LeastIsValid | duniverse/Zarith/caml_z.c:403-406 | both forms of the least native int meet the invariant |
| ZRep.ArgUnique | duniverse/Zarith/caml_z.c:369-382 | equal values have equal signs and limbs once unpacked |
| ZRep.MpnAdd1 | duniverse/Zarith/caml_z.c:1914 | mpn_add_1: sum and carry |
| ZRep.MpnSub1 | duniverse/Zarith/caml_z.c:1907 | mpn_sub_1: difference and borrow |
| ZArith.AddSub | duniverse/Zarith/caml_z.c:1269-1345 | the exact sum or difference of the values, for all signs and sizes |
| ZArith.AddMagnitudes | duniverse/Zarith/caml_z.c:1289-1307 | magnitudes of one sign add |
| ZArith.SubMagnitudes | duniverse/Zarith/caml_z.c:1308-1342 | magnitudes of two signs subtract, the larger giving the sign |
| ZArith.Add | duniverse/Zarith/caml_z.c:1347-1363 | the exact sum, native path included |
| ZArith.Sub | duniverse/Zarith/caml_z.c:1365-1381 | the exact difference, native path included |
| ZArith.Compare | duniverse/Zarith/caml_z.c:1029-1060 | the order of the values, however they are stored |
| ZArith.Equal | duniverse/Zarith/caml_z.c:1062-1082 | equality of the values, however they are stored |
| ZArith.Sign | duniverse/Zarith/caml_z.c:1084-1097 | the sign of the value |
| ZArith.SuccPred | duniverse/Zarith/caml_z.c:1624-1649 | one more or one less on sign and limbs |
| ZArith.Succ | duniverse/Zarith/caml_z.c:1651-1664 | one more |
| ZArith.Pred | duniverse/Zarith/caml_z.c:1666-1679 | one less |
| ZArith.Abs | duniverse/Zarith/caml_z.c:1241-1266 | the absolute value, of the least int too |
| ZLogic.BitwiseUnique | duniverse/Zarith/caml_z.c:1872-2165 | bits determine the number: at most one result has the bits of the operands combined |
| ZLogic.BitwiseIs | duniverse/Zarith/caml_z.c:1872-2165 | what the three operations do on every bit |
| ZLogic.LimbwiseBits | duniverse/Zarith/caml_z.c:1909-1913 | combining limbs combines every bit of the numbers, also where one operand has fewer limbs |
| ZLogic.FlippedBits | duniverse/Zarith/caml_z.c:1902-1951 | on magnitudes decremented when negative the dual operation gives the two's complement one |
| ZLogic.TruncatedBits | duniverse/Zarith/caml_z.c:1918-1927 | limbs beyond the shorter operand do not matter when it clears them |
| ZLogic.CombineDecremented | duniverse/Zarith/caml_z.c:1908-1913 | the borrow carried along while decrementing the second operand, and that it dies |
| ZLogic.Decrement | duniverse/Zarith/caml_z.c:1923 | the low limbs of the magnitude less one, whether or not the borrow leaves them |
| ZLogic.Complement | duniverse/Zarith/caml_z.c:1914-1916 | the final increment gives -1 - x |
| ZLogic.FastPath | duniverse/Zarith/caml_z.c:1876-1880 | the operation on tagged machine words is the operation on the ints, the tag and the sign included |
| ZLogic.AndBothNegative | duniverse/Zarith/caml_z.c:1902-1917 | and of two negative magnitudes, bit by bit in infinite two's complement |
| ZLogic.AndFirstNegative | duniverse/Zarith/caml_z.c:1918-1927 | and with the first operand negative |
| ZLogic.AndSecondNegative | duniverse/Zarith/caml_z.c:1928-1939 | and with the second operand negative |
| ZLogic.AndBothPositive | duniverse/Zarith/caml_z.c:1940-1948 | and of two positive magnitudes |
| ZLogic.OrBothNegative | duniverse/Zarith/caml_z.c:1984-1999 | or of two negative magnitudes |
| ZLogic.OrFirstNegative | duniverse/Zarith/caml_z.c:2000-2011 | or with the first operand negative |
| ZLogic.OrSecondNegative | duniverse/Zarith/caml_z.c:2012-2023 | or with the second operand negative |
| ZLogic.OrBothPositive | duniverse/Zarith/caml_z.c:2024-2034 | or of two positive magnitudes |
| ZLogic.XorBothNegative | duniverse/Zarith/caml_z.c:2070-2083 | xor of two negative magnitudes |
| ZLogic.XorFirstNegative | duniverse/Zarith/caml_z.c:2084-2095 | xor with the first operand negative |
| ZLogic.XorSecondNegative | duniverse/Zarith/caml_z.c:2096-2109 | xor with the second operand negative |
| ZLogic.XorBothPositive | duniverse/Zarith/caml_z.c:2110-2120 | xor of two positive magnitudes |
| ZLogic.LogAnd | duniverse/Zarith/caml_z.c:1872-1952 | every bit of the result is the and of the bits of the operands, for all signs, sizes and forms |
| ZLogic.LogOr | duniverse/Zarith/caml_z.c:1954-2038 | every bit of the result is the or of the bits of the operands |
| ZLogic.LogXor | duniverse/Zarith/caml_z.c:2040-2124 | every bit of the result is the xor of the bits of the operands |
| ZLogic.LogNot | duniverse/Zarith/caml_z.c:2126-2165 | every bit is flipped, which is -1 - x |
| ZLogic.FastNot | duniverse/Zarith/caml_z.c:2130-2134 | the complement of a tagged word |
| ZBits.FloorOfLimbs | duniverse/Zarith/caml_z.c:2250-2264 | shifting limbs is the floor, and what is lost is not zero exactly when low limbs or shifted bits are not |
| ZBits.ShiftSmall | duniverse/Zarith/caml_z.c:2228-2237 | the native path on the tagged word is the floor |
| ZBits.ShiftArg | duniverse/Zarith/caml_z.c:2238-2273 | the slow path rounds the magnitude up exactly when a negative number loses bits |
| ZBits.ShiftRight | duniverse/Zarith/caml_z.c:2215-2274 | the floor of the value divided by the power of two; an error exactly for negative counts |
| ZField.FieldBits | duniverse/Zarith/caml_z.c:875-942 | bit i of the field is bit o + i of the number, for i below the length |
| ZField.WindowLimbs | duniverse/Zarith/caml_z.c:913-926 | the limbs moved are right in the low limbs, zero padded, and tell whether bits were lost |
| ZField.ComplementLimbs | duniverse/Zarith/caml_z.c:929-930 | the complement of all limbs |
| ZField.MaskTop | duniverse/Zarith/caml_z.c:936-938 | masking the top limb is the value modulo a power of two |
| ZField.ExtractArg | duniverse/Zarith/caml_z.c:906-940 | the slow path of extract, for both signs |
| ZField.SmallField | duniverse/Zarith/caml_z.c:890-904 | the native path with its clipped offset and its mask |
| ZField.Extract | duniverse/Zarith/caml_z.c:875-942 | the floor of the value divided by 2^o, modulo 2^l; errors exactly for a negative offset or no length |
| ZField.NegativeBit | duniverse/Zarith/caml_z.c:2545-2561 | the limb tested for a negative number is complemented, or negated when the borrow reaches it |
| ZField.TestBitInternal | duniverse/Zarith/caml_z.c:2526-2562 | bit n of the value in infinite two's complement |
| ZField.TestBit | duniverse/Zarith/z.mlp:136-137 | the same, and an error exactly for a negative index |
| ZField.SignedExtract | duniverse/Zarith/z.mlp:144-149 | the field read as a signed number: within half the range and congruent to the field |
| ZDiv.QuotientOfReals | duniverse/Zarith/caml_z.c:1445-1621 | the three specifications are the roundings towards zero, down and up of the quotient of reals |
| ZDiv.TruncatedUnique | duniverse/Zarith/caml_z.c:1445-1537 | one quotient and remainder are truncated |
| ZDiv.FloorUnique | duniverse/Zarith/caml_z.c:1600-1621 | one quotient is the floor |
| ZDiv.CeilingUnique | duniverse/Zarith/caml_z.c:1577-1598 | one quotient is the ceiling |
| ZDiv.MpnTdivQr | duniverse/Zarith/caml_z.c:1456-1457 | mpn_tdiv_qr: quotient and remainder of magnitudes fit their limbs |
| ZDiv.TdivQr | duniverse/Zarith/caml_z.c:1445-1471 | truncated quotient and remainder of the values, an error exactly for zero |
| ZDiv.DivRem | duniverse/Zarith/caml_z.c:1473-1497 | the same with the native path |
| ZDiv.Div | duniverse/Zarith/caml_z.c:1499-1517 | the truncated quotient |
| ZDiv.Rem | duniverse/Zarith/caml_z.c:1519-1537 | the truncated remainder |
| ZDiv.Outward | duniverse/Zarith/caml_z.c:1554-1562 | moving away from zero exactly when inexact and on the side of the rounding gives the floor or the ceiling |
| ZDiv.RoundedQuotient | duniverse/Zarith/caml_z.c:1548-1564 | the limbs of the rounded quotient |
| ZDiv.Rdiv | duniverse/Zarith/caml_z.c:1540-1575 | division rounded towards plus or minus infinity |
| ZDiv.AdjustedFits | duniverse/Zarith/caml_z.c:1588-1590 | adjusting a native dividend does not overflow a word |
| ZDiv.AdjustedCeiling | duniverse/Zarith/caml_z.c:1588-1591 | the truncated quotient of the adjusted dividend is the ceiling |
| ZDiv.AdjustedFloor | duniverse/Zarith/caml_z.c:1611-1614 | the truncated quotient of the adjusted dividend is the floor |
| ZDiv.Cdiv | duniverse/Zarith/caml_z.c:1577-1598 | the least integer not below the quotient |
| ZDiv.Fdiv | duniverse/Zarith/caml_z.c:1600-1621 | the greatest integer not above the quotient |
| ZDiv.EuclideanUnique | duniverse/Zarith/z.mlp:110-124 | one quotient and remainder are Euclidean, so the three operations agree |
| ZDiv.EdivRem | duniverse/Zarith/z.mlp:110-117 | a = b * q + r with a remainder that is not negative and below the magnitude of b |
| ZDiv.Ediv | duniverse/Zarith/z.mlp:119-120 | the Euclidean quotient |
| ZDiv.Erem | duniverse/Zarith/z.mlp:122-124 | the Euclidean remainder |
| Rounding.BinadeExists | duniverse/Zarith/z.mlp:156-166 | every number but zero has a leading bit |
| Rounding.RoundEvenTies | duniverse/Zarith/z.mlp:168-173 | of two integers as near the even one is taken |
| Rounding.RoundedIsFloat | duniverse/Zarith/z.mlp:168-173 | the rounded number has 53 bits |
| Rounding.NoFloatIsNearer | duniverse/Zarith/z.mlp:168-173 | no number of 53 bits is nearer than the rounded one |
| Rounding.RoundScale | duniverse/Zarith/z.mlp:189-190 | rounding commutes with scaling by a power of two |
| Bits.SetLowBits | duniverse/Zarith/z.mlp:171 | setting the low bit keeps every other bit |
| Rounding.OddNeighbour | duniverse/Zarith/z.mlp:156-166 | in units of a multiple of four the odd neighbour of a number rounds as the number |
| Rounding.RoundToOdd | duniverse/Zarith/z.mlp:156-173 | round to odd: for every real of at least 2^54 and either sign, rounding the floor made odd when inexact is rounding the real |
| ToFloat.NumBitsBounds | duniverse/Zarith/q.ml:231-233 | the number of bits brackets the number between powers of two |
| ToFloat.TopBits | duniverse/Zarith/z.mlp:184-190 | the shift leaves 55 bits, which fit an int64 and round as the whole number |
| ToFloat.IntToFloatRounds | duniverse/Zarith/z.mlp:175-192 | to_float is the number correctly rounded, on all three paths |
| ToFloat.ScaledRange | duniverse/Zarith/q.ml:230-243 | the scaled fraction is in [2^54, 2^56) |
| ToFloat.QuotientFits | duniverse/Zarith/q.ml:244-248 | its integral part fits an int64 |
| ToFloat.RatToFloatRounds | duniverse/Zarith/q.ml:223-251 | to_float of a finite fraction that is not zero is the fraction correctly rounded, on both paths |
| ToFloat.FractionToFloatRounds | duniverse/Zarith/q.ml:216-251 | to_float of every fraction: a finite one correctly rounded, 1/0 infinity, -1/0 minus infinity and 0/0 not a number |
| Divisors.Euclid | duniverse/Zarith/q.ml:41-47 | Euclid's lemma: what is coprime to one factor divides the other |
| Divisors.GcdQuotients | duniverse/Zarith/q.ml:44-47 | dividing by the gcd leaves coprime numbers |
| Divisors.GcdGreatest | duniverse/Zarith/q.ml:44 | every common divisor divides the gcd |
| Rational.CanonicalUnique | duniverse/Zarith/q.ml:19-29 | two reduced finite fractions with the same value have the same fields |
| Rational.DenoteInjective | duniverse/Zarith/q.ml:23-29 | fields decide value, special fractions included |
| Rational.CrossCompare | duniverse/Zarith/q.ml:159-161 | cross multiplication compares fractions |
| Rational.MakeReal | duniverse/Zarith/q.ml:41-47 | the canonical fraction of n / d |
| Rational.Make | duniverse/Zarith/q.ml:50-54 | the canonical fraction of any pair, with infinities and the undefined value |
| Rational.Neg | duniverse/Zarith/q.ml:256-257 | the opposite, canonical |
| Rational.Aors | duniverse/Zarith/q.ml:270-280 | sum or difference of finite fractions, canonical |
| Rational.AorsEitherWay | duniverse/Zarith/q.ml:271-280 | testing equality of denominators by address cannot change the result |
| Rational.Add | duniverse/Zarith/q.ml:282-292 | the sum in the extended rationals, canonical |
| Rational.Sub | duniverse/Zarith/q.ml:299-309 | the difference in the extended rationals, canonical |
| Rational.Mul | duniverse/Zarith/q.ml:312-318 | the product in the extended rationals, canonical |
| Rational.Inv | duniverse/Zarith/q.ml:326-330 | the inverse in the extended rationals, canonical |
| Rational.Div | duniverse/Zarith/q.ml:338-341 | the quotient in the extended rationals, canonical |
| RationalLaws.CompareIsOrder | duniverse/Zarith/q.ml:146-161 | compare is the order of the values with the undefined value first, and zero for identical fractions alone |
| RationalLaws.CompareSpecial | duniverse/Zarith/q.ml:146-161 | undefined is below everything else, minus infinity is next and infinity is on top |
| RationalLaws.CompareFinite | duniverse/Zarith/q.ml:146-161 | finite values compare as the sign of the difference of the cross products, which is the order of the reals |
| RationalLaws.SpecialSums | duniverse/Zarith/q.ml:282-297 | undefined absorbs, an infinity absorbs all but its opposite, and zero is neutral |
| RationalLaws.SpecialProducts | duniverse/Zarith/q.ml:312-336 | undefined absorbs, an infinity follows the rule of signs, zero times an infinity is undefined, and the inverses of the special values |
| RationalLaws.CompareTotalOrder | duniverse/Zarith/q.ml:146-161 | compare is antisymmetric and transitive |
| RationalLaws.OrdersAgree | duniverse/Zarith/q.ml:143-191 | equal, leq and lt agree with compare, and are false on the undefined value |
| RationalLaws.AddCommutes | duniverse/Zarith/q.ml:282-297 | addition commutes over all values |
| RationalLaws.AddAssociates | duniverse/Zarith/q.ml:282-297 | addition associates over all values |
| RationalLaws.MulCommutes | duniverse/Zarith/q.ml:312-324 | multiplication commutes over all values |
| RationalLaws.MulAssociates | duniverse/Zarith/q.ml:312-324 | multiplication associates over all values |
| RationalLaws.SubIsAddNeg | duniverse/Zarith/q.ml:299-310 | sub x y = add x (neg y) |
| RationalLaws.DivIsMulInv | duniverse/Zarith/q.ml:338-353 | div x y = mul x (inv y) |
| RationalLaws.InverseTwice | duniverse/Zarith/q.ml:326-336 | inverting twice gives back every value but minus infinity |
| RationalLaws.MulDistributes | duniverse/Zarith/q.ml:282-318 | over all values, multiplication distributes over addition exactly when the factor is no infinity, a term is undefined, or the terms agree in sign or cancel |
| RationalLaws.InfinityDoesNotDistribute | duniverse/Zarith/q.ml:282-318 | an infinity times 2 - 1 is not twice the infinity less the infinity |
| RationalLaws.Mul2exp | duniverse/Zarith/q.ml:355-357 | the value times 2^n, special values unchanged, an error for a negative count otherwise |
| RationalLaws.Div2exp | duniverse/Zarith/q.ml:359-361 | the value divided by 2^n |
| ZText.NumberOfDigits | duniverse/Zarith/caml_z.c:825-834 | the digits of a number stand for it and start with no zero |
| ZText.DigitsOfBase | duniverse/Zarith/caml_z.c:626-633 | the characters read as digits of a base are those of the table up to the base, in either case |
| ZText.TextMeans | duniverse/Zarith/caml_z.c:588-636 | what every text means for every base: signs, a mark in either case with base zero, digits, and an error for any other character or base |
| ZText.SignsTaken | duniverse/Zarith/caml_z.c:588-590 | every text is signs and a rest of that form |
| ZText.Shown | duniverse/Zarith/caml_z.c:775-863 | what a format shows of every number: digits in the case of the conversion, the mark, the sign and the padding up to the width on its side |
| ZText.SpaceIsInvalid | duniverse/Zarith/caml_z.c:626-633 | a space anywhere makes a text invalid, for every base |
| ZText.DigitsReadBack | duniverse/Zarith/caml_z.c:611-636 | digit characters read back as the number, zeros before them or not |
| ZText.RoundTrip | duniverse/Zarith/caml_z.c:573-867 | a format that says its base reads back with base 0 as the number exactly when the text shows no space, and is an error otherwise |
| ZText.ExplicitRoundTrip | duniverse/Zarith/caml_z.c:573-867 | every format reads back with the base of its conversion as the number exactly when the text shows no space and no mark, and is an error otherwise |
| ZFormat.ParseFormat | duniverse/Zarith/caml_z.c:795-815 | flags, width and conversion of a format |
| ZFormat.FormatReads | duniverse/Zarith/caml_z.c:795-815 | what every format says: flags in any order, the last sign flag, the width and the conversion, or an error |
| ZFormat.EverySpecHasText | duniverse/Zarith/caml_z.c:795-815 | every combination of flags, width and conversion has a format that reads as it |
| ZFormat.WriteDigits | duniverse/Zarith/caml_z.c:821-834 | digit characters without the leading zero of mpn_get_str, inside the buffer |
| ZFormat.PadBefore | duniverse/Zarith/caml_z.c:850 | padding on the left up to the width |
| ZFormat.PadAfter | duniverse/Zarith/caml_z.c:842-843 | padding on the right up to the width |
| ZFormat.Decorate | duniverse/Zarith/caml_z.c:835-863 | mark, sign and padding in their order for each alignment; every write is inside max_size |
| ZFormat.Format | duniverse/Zarith/caml_z.c:771-867 | the text of the number in the format, or the error; the checks for internal errors cannot fail |
| ZFormat.PrintThenParse | duniverse/Zarith/caml_z.c:573-867 | both round trips for every format string |
| ZFormat.SpacesDoNotReadBack | duniverse/Zarith/caml_z.c:850 | %5d writes 1 as a text that is no number |
| ZFormat.HexReadsAsBinary | duniverse/Zarith/caml_z.c:598-606 | %03x writes 177 as 0b1, which without a base reads as 1 |
| ZFormat.ZeroPaddingShowsNone | duniverse/Zarith/caml_z.c:797-803 | zero padding with the flag + shows no space at any width |
| ZParse.ReadBase | duniverse/Zarith/caml_z.c:599-608 | the base and what follows its mark, even past the end of the substring |
| ZParse.NativeLimit | duniverse/Zarith/caml_z.c:197-211 | numbers of so many digits fit a native int, for every base and word size |
| ZParse.ParseNative | duniverse/Zarith/caml_z.c:620-636 | the native path returns the number and never overflows |
| ZParse.LimbsSuffice | duniverse/Zarith/caml_z.c:653 | the limbs allocated hold any number of so many digits |
| ZParse.ParseLimbs | duniverse/Zarith/caml_z.c:639-656 | the slow path returns the number |
| ZParse.OfSubstringBase | duniverse/Zarith/caml_z.c:573-660 | a substring reads as its text alone, whatever follows it, and is an error exactly when the text is |
| ZCodec.ToBits | duniverse/Zarith/caml_z.c:945-973 | the bytes of the magnitude, in as few whole limbs as it takes |
| ZCodec.OfBits | duniverse/Zarith/caml_z.c:975-1023 | bytes of any count as a number |
| ZCodec.Serialize | duniverse/Zarith/caml_z.c:2919-2952 | sign, bytes and cut size of a block; too large exactly for 2^32 limbs |
| ZCodec.Deserialize | duniverse/Zarith/caml_z.c:2958-3005 | the value of the bytes; the invariant holds exactly when the magnitude does not fit a native int |
| ZCodec.PrefixIsWhole | duniverse/Zarith/caml_z.c:2927-2931 | the bytes the size names are worth what all are exactly when they are fewer than 2^32, for every block |
| ZCodec.WireRoundTrip | duniverse/Zarith/caml_z.c:2919-3005 | a block that is accepted reads back as the same number on every platform exactly when its bytes are fewer than 2^32, and is then valid unless it would fit a native int there |
| ZCodec.WireLosesBlock | duniverse/Zarith/caml_z.c:2927-2931 | a 64-bit block of 2^29 limbs is accepted, its size is cut to 0, and zero is read back |
| ZCodec.WireBreaksInvariant | duniverse/Zarith/caml_z.c:2954-2957 | a 32-bit block that is not valid on 64 bits |
| ZCodec.WordsUnique | duniverse/Zarith/caml_z.c:2894-2904 | every number has one sequence of 32-bit words to mix: an even count, with no two zeros on top |
| ZCodec.Hash | duniverse/Zarith/caml_z.c:2887-2907 | those words of the magnitude mixed, and one more for a negative number, for 32-bit and 64-bit limbs |
| ZCodec.HashOpposite | duniverse/Zarith/caml_z.c:2905 | a negative number hashes to one more than its opposite, modulo 2^32 |
| Channel.ErrorsThatEnd | duniverse/core/bigstring_unix/src/bigstring_unix_stubs.c:411-433 | EINTR never ends a call, and EAGAIN or EWOULDBLOCK ends an output only when a single byte was offered |
| Channel.Channel.Output | duniverse/core/bigstring_unix/src/bigstring_unix_stubs.c:384-464 | data is only buffered exactly when it fits; otherwise for every sequence of short writes, EINTR and EAGAIN: bytes sent and bytes left are the old buffer and the first k bytes; success comes after the first write with which the buffer and min_len bytes have gone, and leaves the buffer empty; an error ends it exactly when it is not EINTR, nor EAGAIN or EWOULDBLOCK for more than one byte; all that is left is offered, and one byte after a refusal |
| Channel.Channel.Drain | duniverse/core/bigstring_unix/src/bigstring_unix_stubs.c:397-463 | the same when the buffer cannot hold all data |
| Channel.Channel.Attempt | duniverse/core/bigstring_unix/src/bigstring_unix_stubs.c:409-461 | one writev: the areas stay in order, the same are offered again after EINTR and one byte after EAGAIN, and any other error ends it |
| Channel.SentMore | duniverse/core/bigstring_unix/src/bigstring_unix_stubs.c:410-460 | what writev takes is what comes next of the buffer and the bigstring |
| Channel.Advance | duniverse/core/bigstring_unix/src/bigstring_unix_stubs.c:436-459 | moving past the bytes written keeps the areas in order, or ends with at least min_len |
| Channel.Channel.Input | duniverse/core/bigstring_unix/src/bigstring_unix_stubs.c:280-382 | bytes received, read ahead and still to come are the old ones in order, pending or not, nothing else in the bigstring changes, min_len wrapping included; the file is spared exactly when the buffer has all of at least one byte; otherwise success comes after the first read with which min_len bytes have come, an error exactly after one that is not EINTR, and end of file exactly after a readv that gives nothing; each read asks for all there is room for |
| Channel.Channel.Fill | duniverse/core/bigstring_unix/src/bigstring_unix_stubs.c:306-380 | the same for the loop over readv |
| Channel.Channel.Receive | duniverse/core/bigstring_unix/src/bigstring_unix_stubs.c:318-379 | one readv into the bigstring and then the buffer: an error exactly after one other than EINTR, end of file exactly after a readv that gives nothing when bytes were asked for |
| Channel.AddressOfMin | duniverse/core/bigstring_unix/src/bigstring_unix_stubs.c:301-309 | the wrapped minimum and the moved pointer still give the address of the minimum |
| Spawn.Process.SafeDup | duniverse/spawn/src/spawn_stubs.c:186-197 | a descriptor from three on, the lowest free, and nothing else changed; it fails exactly when none is free there, and then all that was open still is, with the standard descriptors held |
| Spawn.Process.Redirect | duniverse/spawn/src/spawn_stubs.c:249-263 | it succeeds exactly when three descriptors from three on are free and no dup2 is refused, and reports dup exactly when they are not free; then it is a simultaneous assignment for any repeats or permutation, survives exec, leaks no temporary and touches no other descriptor; failures can still be reported |
| Spawn.InstallOne | duniverse/spawn/src/spawn_stubs.c:257-263 | installing one temporary keeps the table as planned |
| Spawn.LastStage | duniverse/spawn/src/spawn_stubs.c:249-263 | the last table is the one asked for |
| Spawn.RedirectionIs | duniverse/spawn/src/spawn_stubs.c:249-263 | descriptor by descriptor, what the table asked for is |

## Left out

- BngDiv.DivRem: dividend and divisor lie apart, in one array or two; ranges that overlap are not modelled.
- BngDiv.DivRemDigit: quotient and dividend lie apart; BngDiv.DivRemNormDigit, which bng_div_rem calls with the quotient one place above the dividend, also works on ranges that overlap so.
- BngMul.MultAdd: the target lies apart from the factors, which may overlap.
- BngMul.SquareAdd: the target lies apart from the number squared.
- Bng.Add: operands may be the same range or lie apart; other overlaps are not modelled.
- ZCodec.Serialize: applies to blocks, the only values the runtime hands to it.
- Nat.HashNat: the runtime's mixing function is a parameter.
- ZCodec.Hash: the mixing function is a parameter whose results are 32-bit words.
- Rounding.RoundToOdd: rounds to nearest with ties to even, not by the processor's other rounding modes.
- ToFloat.FractionToFloatRounds: exponents are unbounded, so overflow and subnormal results of ldexp are not modelled.
- Channel.Channel.Input: errors of readv other than EINTR are one case; locking and the release of the runtime are not modelled.
- Spawn.Process.Redirect: process groups, signals, the working directory and execve around the redirections are not modelled.
- Inline assembly variants of the digit operations and of Zarith, and BngMult by a 64-bit product: they repeat contracts of the generic code.
- bng_complement and bng_is_zero; the latter can never hold, since bng_num_digits is at least one.
- The inside of GMP; the functions that only wrap mpz (powers, roots, primes, inverses); multiplication, square roots, gcd, shift_left, numbits, popcount and the conversions to fixed size integers.
- ml_z_gcd and ml_z_shift_right_trunc, whose native paths miss their documented results at the least int.
- Printing of rationals, of_string and of_float, and Z.of_float.
- Sizes, counts, widths and offsets are unbounded integers: overflow of an index or of a format's width is not modelled.
- Allocation, garbage collection, exceptions beyond an error result, and the tables of custom operations.
- Bytes of 32-bit words on the wire of Nat are not split: the runtime writes and reads each word in one order.
- The other libraries of the repository: system call stubs, blits, runtime shims and build files.
