# PosInt: arbitrary-precision non-negative integers, in Dafny

This project models the big-integer engine of `posint.cpp` and proves its
operations correct against a mathematical meaning.

A PosInt is a little-endian vector of limbs in radix `B`. Its value is
`limb[0] + limb[1]*B + limb[2]*B^2 + ...`, and its canonical form has every
limb in `[0, B)` and no most-significant zero limb. Zero is the empty vector.

The model keeps the structure of the source:

- `Limbs`: limb sequences (`seq<int>`), their value `Value(B, s)`, the
  canonical-form predicate `IsPosInt`, `normalize`, and `FromNat`, the
  canonical limbs of a natural number. Canonical limbs are unique
  (`CanonicalUnique`).
- `Compare`: `compareDigits` and `compare`.
- `Carry`: the limb-array primitives `addArray`, `subArray`, `mulDigit` and
  `divDigit`. Each C loop becomes a loop over a sequence, except the
  closing carry loop of `mulDigit` (posint.cpp:444-447): under the caller's
  room requirement it never takes a step, so it is omitted. That is the
  loop that writes past the divisor buffer in the first finding below.
- `Multiply`: schoolbook `mulArray` and Karatsuba `fastMulArray`, including
  its split and recombination bookkeeping.
- `Divide`: `divremArray`, the normalized long division of Knuth (TAOCP
  Vol. 2, section 4.3.1, Algorithm D) with its two-limb trial quotient and
  its correction loop.
- `PosInt`: the operations on canonical values. These are `set(int)`,
  `convert`, `isEven`, `add`, `sub`, `mul`, `fastMul`, `divrem`, `mod`, `pow`
  and `gcd`. An operation that throws in the source returns
  `Failure(error)` here.
- `Arith`: integer lemmas that the proofs call for nonlinear steps.

Modelling choices:

- The global mutable radix `B` is a parameter with `B >= 2`.
- Receivers that the source mutates become returned values.
- Integers are unbounded.

The Karatsuba split follows posint.cpp:308-317: the low half has `len / 2`
limbs and the high half the rest.

## Model

| member | source | states |
|---|---|---|
| Limbs.Normalize | posint.cpp:171-175 | the result is normalized, is a prefix of the input, and only zero limbs were dropped |
| Limbs.NormalizeValue | posint.cpp:171-175 | normalizing keeps the value, and turns an in-range sequence into a canonical PosInt |
| Limbs.FromNat | posint.cpp:32-42 | the limbs of n by repeated division by B are canonical and denote n |
| Limbs.CanonicalUnique | posint.cpp:171-175 | two canonical sequences with the same value are equal, so canonical results are determined by their value |
| Limbs.CanonicalIsFromNat | posint.cpp:171-175 | every canonical sequence is the FromNat of its value |
| Compare.CompareDigits | posint.cpp:185-200 | the result is -1, 0 or 1 exactly as a < b, a = b or a > b, with limbs past either length read as zero |
| Compare.Compare | posint.cpp:203-209 | on canonical operands the result is -1, 0 or 1 exactly as the values compare |
| Carry.AddArray | posint.cpp:211-231 | dest += x over len limbs: the result is in range and its value is the sum, given room for the carry |
| Carry.AddLimbwise | posint.cpp:217-218 | the limb-wise additions keep the sum's value, with each limb at most 2B - 2 |
| Carry.CarryPass | posint.cpp:220-225 | the carry pass over the first len - 1 limbs keeps the value and brings them into range |
| Carry.CarryOut | posint.cpp:227-230 | the trailing carry loop brings every limb into range without changing the value |
| Carry.SubArray | posint.cpp:240-260 | dest -= x over len limbs: the result is in range and its value is the difference, given dest >= x |
| Carry.SubLimbwise | posint.cpp:246-247 | the limb-wise subtractions keep the difference's value, with each limb above -B |
| Carry.BorrowPass | posint.cpp:249-254 | the borrow pass over the first len - 1 limbs keeps the value and brings them into range |
| Carry.BorrowOut | posint.cpp:256-259 | the trailing borrow loop brings every limb into range while the value stays non-negative |
| Carry.MulDigit | posint.cpp:434-448 | dest *= d: the result is in range and its value is the product, given room |
| Carry.ScaleLimbs | posint.cpp:438-439 | multiplying every limb by d multiplies the value by d |
| Carry.DivDigit | posint.cpp:450-459 | dest = d * q + rem with q in range and 0 <= rem < d |
| Multiply.MulArray | posint.cpp:274-289 | the schoolbook product has exactly len(x) + len(y) limbs, in range, worth x * y |
| Multiply.MulRow | posint.cpp:282-288 | one row adds x[i] * y * B^i and leaves the limbs above the row zero |
| Multiply.MulAccStep | posint.cpp:284-286 | one limb product with its immediate carry adds exactly t * B^p |
| Multiply.FastMulArray | posint.cpp:297-365 | Karatsuba on two len-limb operands into 2 len zero limbs gives the product x * y, in range |
| Multiply.DigitSum | posint.cpp:324-336 | the buffer of highLen + 1 limbs holds the low half plus the high half |
| Multiply.TrimSums | posint.cpp:338-339 | the trim drops exactly the top limbs that are zero in both sums: it stops at one limb or where either sum's top limb is non-zero, and keeps both values |
| Multiply.MiddleTerm | posint.cpp:350-352 | z1 - z2 - z0 leaves the cross term xl * yh + xh * yl, in range |
| Multiply.TrimmedLength | posint.cpp:354-355 | the trim drops exactly the leading zero limbs of z1 (down to one limb), keeps its value, and fits in the room left at limb lenOver2 |
| Multiply.Recombine | posint.cpp:354-361 | z1 copied in at lenOver2, then z2 added at 2 lenOver2 and z0 at 0, gives z0 + z1 B^l + z2 B^2l |
| Multiply.ProductSplit | posint.cpp:342-352 | Karatsuba's identity on the values of the halves |
| Divide.EstimateBounds | posint.cpp:461-493 | with the divisor's top limb at least B/2 and the partial remainder below y B, the trial quotient never exceeds the true quotient limb and is at most the slack below it |
| Divide.Estimate | posint.cpp:493 | the corrected trial quotient equals the source's whenever the divisor's top limb is at least B/2 rounded up |
| Divide.EstimateAsWritten | posint.cpp:493 | the source's estimate is two below the largest count of the divisor's top limb that fits in the partial remainder's top two limbs |
| Divide.EstimateAsWrittenBounds | posint.cpp:491-493 | for a divisor whose top limb is at least B/2 rounded up, the source's estimate never exceeds the true quotient limb and is at most two below it |
| Divide.DivisorBounds | posint.cpp:461-466 | a divisor meeting the top-limb requirement is positive and B^len(y) is at most its slack times it |
| Divide.DivRemArray | posint.cpp:461-505 | x = y * q + r with 0 <= r < y, q of len(x) - len(y) + 1 limbs and r of len(x) limbs, all in range |
| Divide.Correct | posint.cpp:481-485 | the correction loop counts the quotient of the partial remainder by y and leaves its remainder |
| Divide.SettleDigit | posint.cpp:481-485 | after correction the quotient limb is final, in range, and was raised by at most the slack |
| Divide.NextDigit | posint.cpp:487-501 | moving one limb down, the estimate times y is subtracted and x = r + y * q still holds limb-wise |
| Divide.SubAt | posint.cpp:483-500 | subArray at offset qind (in the correction loop and for the estimated multiple) lowers r from limb qind by the subtrahend's value, keeps the limbs below qind, and leaves every limb in range |
| Divide.Multiple | posint.cpp:496-499 | the temp buffer of len(y) + 1 limbs, y with a zero top limb multiplied by mulDigit, is in range and worth c * y |
| Divide.SubMultiple | posint.cpp:495-500 | c * y built in len(y) + 1 limbs and subtracted at limb qind lowers the partial remainder by exactly c * y |
| PosInt.SetInt | posint.cpp:32-42 | set(int) refuses a negative value and otherwise yields the canonical limbs of x |
| PosInt.Convert | posint.cpp:114-122 | the accumulated value is the PosInt's value |
| PosInt.IsEven | posint.cpp:177-183 | the answer is true exactly when the value is even, for even and odd radix alike |
| PosInt.OddRadixParity | posint.cpp:179-182 | with an odd radix the parity of the value is the parity of the number of odd limbs |
| PosInt.Add | posint.cpp:233-238 | the result is canonical and worth a + x |
| PosInt.Sub | posint.cpp:262-270 | the result fails with Underflow exactly when a < x, and is otherwise canonical and worth a - x |
| PosInt.Mul | posint.cpp:367-389 | the result is canonical and worth a * x |
| PosInt.FastMul | posint.cpp:391-430 | the result is canonical and worth a * x |
| PosInt.MulAgree | posint.cpp:367-430 | two canonical results worth a * x are the same sequence, so mul and fastMul agree limb for limb |
| PosInt.DriverProduct | driver.cpp:16-31 | in radix 10 the canonical product of 320 and 1428 is the limb sequence of 456960 |
| PosInt.DivRem | posint.cpp:507-567 | fails with DivideByZero exactly for y = 0; otherwise q and r are canonical, x = y q + r, 0 <= r < y, q = x / y and r = x % y; for x < y, q is zero (the empty sequence) and r is x itself |
| PosInt.DivSingle | posint.cpp:516-521 | the one-limb path gives canonical quotient and remainder of x by y |
| PosInt.DivScaled | posint.cpp:522-541 | for a divisor of two or more limbs, scaling both operands, dividing with divremArray and dividing the remainder back by the factor gives the canonical quotient and remainder of x by y |
| PosInt.ScaleDivisor | posint.cpp:523-530 | the scaled divisor keeps len(y) limbs, is y times a factor below B, and meets divremArray's top-limb requirement |
| PosInt.ScaleDividend | posint.cpp:532-536 | x with a zero top limb, multiplied by the factor, is worth x * fac in len(x) + 1 limbs |
| PosInt.Mod | posint.cpp:507-567 | mod, the remainder half of divrem: fails with DivideByZero exactly for y = 0 and otherwise gives the canonical x % y |
| PosInt.Pow | posint.cpp:570-586 | the result is canonical and worth a to the power x, and in particular a^0 = 1 |
| PosInt.Gcd | posint.cpp:593-605 | the result has exactly the common divisors of x and y, divides both, is at least every common divisor, is zero only for x = y = 0, and is x when y is zero |
| PosInt.DoublingOverflows | posint.cpp:522-530 | for radix 3 and y = 5 the source's test asks for a doubling that does not fit in two limbs |
| Divide.EstimateAsWrittenOvershoots | posint.cpp:466-493 | for radix 3 and a divisor with top limb B/2 rounded down the source's estimate exceeds the true quotient limb |

## Left out

- `rand` and `randomInt` (posint.cpp:136-166) are left out: they depend on the C library's `rand()`, a nondeterministic generator.
- `powmod`, `xgcd` and `MillerRabin` (posint.cpp:589-619) are left out: `powmod` and `xgcd` have empty bodies and `MillerRabin` always returns false, so there is no behaviour to specify.
- `print` and `read` (posint.cpp:56-112) are left out. So are the stream operators, `print_array` and `debugArray`. These are text and stream I/O, and the grouping of external digits into limbs is not modelled.
- `setBase` (posint.cpp:14-22) is left out. The radix `B` is a parameter of every member. `Bbase` and `Bpow` serve only the text I/O.
- `set(const PosInt&)` is not modelled separately. With value semantics, a copy is the value itself.
- The `this == &x` copies and the `&q == &r` error of `divrem` are left out. Values in the model cannot alias, so this error has no counterpart.
- Fixed-width integers are not modelled. Limbs, carries and products are unbounded integers. The 32-bit overflow that limits `B` to 2^15 is not modelled, and neither is `convert` overflowing `int`.
- `mod` is declared in posint.h, which is not part of this model. `PosInt.Mod` is the remainder of `divrem`.
- PosInt.SetInt: the source clears the receiver before it throws for a negative x (posint.cpp:33-36), so a failed set leaves the PosInt equal to zero; the model's Failure carries no value and does not state this effect on the receiver.
- Carry.DivDigit: modelled only for `len` equal to the buffer length, which is how posint.cpp:520 and posint.cpp:540 call it.
- Carry.MulDigit: modelled only for `len` equal to the buffer length, which is how every call in posint.cpp uses it.
- PosInt.Pow: does not state how many times `mul` is called (one per unit of the exponent). It states only the value.
- Divide.DivRemArray: the source allows q and r to be longer than needed. The model gives them exactly len(x) - len(y) + 1 and len(x) limbs.
- Divide.DivRemArray: the source zeroes only the top quotient limb at the start. The model starts from an all-zero quotient, which gives the same result because every limb is written before the end.

## Findings

| source | as written | input that shows it | evidently intended | confidence | as-written member | corrected member |
|---|---|---|---|---|---|---|
| posint.cpp:522-530 | `divrem` doubles the divisor in place, in ylen limbs, while twice its top limb is below B | B = 3 (Bbase 3, Bpow 1), y = [2, 1] = 5, x = y: the first doubling gives 10, which needs three limbs, so `mulDigit` writes its carry past `scaley` | double only while the top limb is below B/2 rounded down, the requirement stated for `divremArray`; every such doubling fits in ylen limbs | high for odd radix; even radix is unaffected; not executed | PosInt.DoublingOverflows | PosInt.ScaleDivisor |
| posint.cpp:466, 493 | `divremArray` asks for a divisor top limb of at least B/2 (integer division) and subtracts 2 from the trial quotient | B = 3, y = [1, 2, 1] = 16 (top limb 1 = 3/2), partial remainder [0, 0, 2, 1] = 45: the estimate is 3, the true quotient limb is 2, so subtracting 3y goes negative | subtract 3 instead of 2 when twice the top limb is below B, which happens only for an odd radix; with an even radix the estimate is unchanged | high for odd radix, reachable once the scaling above stops at B/2 rounded down; not executed | Divide.EstimateAsWrittenOvershoots | Divide.EstimateBounds |
