# big_integer in Dafny

A model of the arbitrary-precision signed integer `big_integer` of `big_integer.cpp`, with
proofs about it.

A `big_integer` has two parts:

- `data_`, a vector of 32-bit limbs, least significant first;
- `sign`, the value of the implicit infinite fill above those limbs: all ones when set, zeros
  when clear.

The number it denotes is therefore read in infinite two's complement:

    Value = Nat(data_) - (sign ? 2^(32 * |data_|) : 0)

The model is the class `BigIntegers.BigInteger`. It has two fields:

- `data: seq<Limb>`, where a limb is an integer in [0, 2^32);
- `sign: bool`.

Each compound operator of the C++ is a method that updates the receiver in place
(`modifies this`). Each is proved against `Value()`, the ghost reading above.

`Canonical()` is the form `shrink` leaves behind: at least one limb, and the top limb differs
from the fill unless it is the only one. `Limbs.CanonicalUnique` proves that this form is
unique, which is why `operator==`, a structural comparison, decides equality of values.

The modules follow the layers of the C++:

- `Arith`: division with remainder, powers of two, and C++'s truncating `/` and `%` (`TruncDiv`,
  `TruncMod`).
- `Limbs`: `Nat`, `Value`, the fill, `shrink`'s trimming, and the canonical limbs of a number.
- `TwosComplement`: the carry chain of `+=`, and limb complement.
- `LimbProducts`: the arithmetic of `mul_uint`, `div_uint` and the schoolbook `*=`.
- `LongDivision`: windows of limbs, the `calc3to2` estimate, the single correction,
  `difference`, and the loop invariant of `/=`.
- `Bitwise`: two's-complement AND/OR/XOR on integers, and the padding the C++ operators use.
- `Shifts`: whole-limb moves and powers of two.
- `DecimalNotation`: the decimal text of an integer and the reading of digit strings.
- `BigIntegers`: the class, its constructors and operators, the comparisons and `to_string`.

Native widths are written out explicitly:

- the `uint64_t` carries and borrows of `+=`, `mul_uint`, `div_uint`, `*=` and `difference`;
- the `__uint128_t` estimate of `calc3to2` and its narrowing cast;
- the wrapping multiplications of the `int` constructor.

The normalizing factor `(1ull << 32) / (b[m-1] + 1)` of `/=` is computed on unbounded
integers. The two inputs on which its native widths matter are excluded by a precondition
(see "## Left out").

## Model

| member | source | states |
|---|---|---|
| BigIntegers.BigInteger.constructor | big_integer.cpp:3 | the default object is the single limb 0 with a clear sign: value 0, canonical |
| BigIntegers.BigInteger.Copy | big_integer.cpp:5 | the copy has the same limbs and sign |
| BigIntegers.BigInteger.FromUint32 | big_integer.cpp:20-23 | the `uint32_t` constructor stores [a] with a clear sign: value a, canonical |
| BigIntegers.BigInteger.FromInt | big_integer.cpp:8-18 | every 32-bit int, INT32_MIN included, gives a canonical object of that value; a non-negative one is stored as [a] |
| BigIntegers.NegativeMagnitude | big_integer.cpp:12-13 | the two wrapping `uint32_t` multiplications leave abs(a) for every negative 32-bit a |
| BigIntegers.BigInteger.FromString | big_integer.cpp:25-44 | a well-formed string gives a canonical object whose value is `Constructed(s)`: the decimal value, negated under '-', except that a negative all-ones magnitude m gives -m-2 |
| BigIntegers.BigInteger.ReadDigits | big_integer.cpp:27-30 | `*this *= 10; *this += digit` over the digits leaves the number they spell, canonical |
| BigIntegers.AllLimbsMax | big_integer.cpp:31-37 | the flag `f` is set exactly when every stored limb is UINT32_MAX |
| BigIntegers.AllOnesIff | big_integer.cpp:31-43 | the magnitudes on which the constructor departs from the decimal value are exactly 2^(32k) - 1 |
| BigIntegers.ConstructedRoundTrip | big_integer.cpp:25-44 | the constructor reads the rendering of v back as v exactly when v is not the negative of an all-ones magnitude, and as v - 2 in that case |
| BigIntegers.AllOnesExample | big_integer.cpp:38-40 | "-4294967295" is read as -4294967297 |
| BigIntegers.RenderConstructed | big_integer.cpp:25-44 | a canonically spelled string outside the all-ones case renders back to itself after construction |
| BigIntegers.ParseThenRender | big_integer.cpp:470-493 | `to_string(big_integer(s))` is the canonical spelling of the constructed value, and is s itself for a canonical spelling outside the all-ones case |
| BigIntegers.BigInteger.Shrink | big_integer.cpp:495-500 | pops fill limbs down to `TrimFill`; the value is unchanged and a non-empty vector becomes canonical |
| Limbs.TrimFillSpec | big_integer.cpp:495-500 | trimming keeps the value, yields a canonical prefix of the vector, and removes only fill limbs |
| Limbs.CanonicalUnique | big_integer.cpp:495-500 | two canonical forms of the same value are the same limbs and sign |
| BigIntegers.BigInteger.Expand | big_integer.cpp:502-508 | pads with fill limbs up to len (a longer vector is untouched); the value is unchanged |
| Limbs.ValueExtend | big_integer.cpp:502-508 | appending fill limbs keeps the value |
| BigIntegers.BigInteger.Get | big_integer.cpp:510-512 | `operator[]` returns the stored limb below the length and the fill (all ones or zeros, by the sign) past it |
| BigIntegers.GetIsDigit | big_integer.cpp:510-512 | `operator[]` at every index, stored or past the end, is the base-2^32 digit of the value |
| Limbs.DigitOfValue | big_integer.cpp:510-512 | limb i, with the fill past the end, is (Value / BASE^i) mod BASE |
| BigIntegers.BigInteger.AddAssign | big_integer.cpp:55-70 | `+=` yields the exact sum for every sign combination, canonical |
| BigIntegers.BigInteger.AddLimbs | big_integer.cpp:59-66 | the limb loop adds the sign-extended right operand modulo BASE^L with a final carry of 0 or 1 |
| TwosComplement.AddResult | big_integer.cpp:57-67 | over max(len)+1 limbs, bit 31 of the top limb is the sign and the limbs read back as the exact sum |
| TwosComplement.ExtendedValue | big_integer.cpp:57-58 | sign extension keeps the value |
| BigIntegers.BigInteger.SubAssign | big_integer.cpp:72-75 | `-=` yields the exact difference, canonical |
| BigIntegers.BigInteger.Complement | big_integer.cpp:343-352 | `~x` has value -x-1, flips the sign, complements every limb and shrinks |
| TwosComplement.ComplementValue | big_integer.cpp:343-352 | complementing the limbs and the sign maps v to -v-1 |
| BigIntegers.BigInteger.Negate | big_integer.cpp:332-341 | unary `-` yields -x in canonical form, so zero stays the single limb 0 with a clear sign |
| BigIntegers.DoubleNegation | big_integer.cpp:332-341 | -(-a) is `==` to a for canonical a |
| BigIntegers.AddNegation | big_integer.cpp:332-341 | a + (-a) is the single limb 0 with a clear sign |
| BigIntegers.BigInteger.MulUint | big_integer.cpp:77-90 | the limbs read unsigned are multiplied by rhs and grow by at most one non-zero limb; on a non-negative receiver the value is multiplied |
| BigIntegers.BigInteger.MulLimbs | big_integer.cpp:78-85 | the limb loop leaves the low limbs of data * rhs and the carry above them |
| LimbProducts.MulUintTop | big_integer.cpp:86-88 | a non-zero top limb times a non-zero factor leaves a non-zero top limb |
| BigIntegers.BigInteger.DivUint | big_integer.cpp:92-102 | the limbs read unsigned are divided by b != 0 rounding down, then shrunk; on a non-negative receiver this is floor(Value / b); canonical for a non-empty vector, and an empty vector stays empty |
| BigIntegers.BigInteger.DivLimbs | big_integer.cpp:93-99 | the top-down loop leaves quotient * b + remainder == old limbs with remainder < b |
| LimbProducts.DivDigitFits | big_integer.cpp:95-98 | each quotient digit (carry * 2^32 + limb) / b fits in one limb |
| BigIntegers.BigInteger.MulAssign | big_integer.cpp:104-140 | `*=` yields the exact product, canonical |
| BigIntegers.MultiplyMagnitudes | big_integer.cpp:121-133 | the nested loop leaves the product of the magnitudes in len(a)+len(b) limbs, every index i+j in range |
| LimbProducts.ProductFits | big_integer.cpp:126-131 | a_i * b_j + c[i+j] + carry fits in 64 bits and its high half in one limb |
| LimbProducts.SignedProduct | big_integer.cpp:112-136 | the product of the magnitudes negated on XOR of the signs is the product of the values |
| BigIntegers.BigInteger.TakeProduct | big_integer.cpp:134-138 | the accumulator, negated when the signs differed and shrunk, is assigned with that signed value, canonical |
| BigIntegers.CalcThreeToTwo | big_integer.cpp:142-151 | the trial digit is the 3-by-2 quotient of the limb windows reduced mod 2^32 (the `std::min` never clamps) |
| LongDivision.EstimateCorrect | big_integer.cpp:142-151 | while the remainder is below b * BASE^(i+1), the 3-by-2 quotient is the true digit or one more, and at most 2^32 |
| LongDivision.EstimateWraps | big_integer.cpp:150 | an input where the 3-by-2 quotient is exactly 2^32, which the cast turns into 0 |
| BigIntegers.ComparePrefix | big_integer.cpp:153-164 | the answer is true exactly when the (m+1)-limb window of a at pos is below that of b |
| BigIntegers.BigInteger.Difference | big_integer.cpp:166-180 | when the subtrahend does not exceed the window, the receiver loses b * BASE^offset and is canonical |
| BigIntegers.SubtractShifted | big_integer.cpp:168-177 | the borrow loop writes the window difference in place (pushing past the end) |
| BigIntegers.SubtractStep | big_integer.cpp:169-176 | one pass of the borrow loop extends the running difference by one limb, keeping difference + subtrahend == window + borrow * BASE^i |
| BigIntegers.SubtractLimb | big_integer.cpp:170-171 | the 64-bit difference gives the borrow from its high half and the limb from its low half |
| BigIntegers.BigInteger.DivAssign | big_integer.cpp:182-237 | unless a trial digit wrapped, `/=` yields 0 on the early zero and otherwise the quotient truncated toward zero; the truncated quotient in every case for a negative or canonical divisor; no wrap for divisors below 2^64; canonical except that an empty receiver divided by a one-limb non-negative divisor stays empty |
| BigIntegers.Magnitudes | big_integer.cpp:184-194 | after negating the negative operands both are non-negative with the magnitudes of the values, and their limbs are `MagnitudeOf` the originals |
| BigIntegers.BigInteger.DivideMagnitudes | big_integer.cpp:195-230 | the early zero is raised exactly when the divisor has at least two stored limbs and more than the dividend; otherwise floor division of the magnitudes through `div_uint` or the digit loop |
| BigIntegers.BigInteger.NormalizedDivide | big_integer.cpp:206-228 | for a divisor of 2 <= m <= n limbs, the quotient limbs are the floor quotient of the magnitudes unless a trial digit wrapped; never for a two-limb divisor |
| BigIntegers.BigInteger.ScaleOperands | big_integer.cpp:207-212 | both operands are multiplied by the factor; the divisor keeps its length and a non-zero top limb, and the dividend gets a zero top limb |
| LongDivision.ShortDividend | big_integer.cpp:203-205 | a divisor with a non-zero top limb and more limbs than the dividend gives quotient 0 |
| BigIntegers.EarlyZeroExact | big_integer.cpp:203-205 | for a negative or canonical divisor the early zero is the truncated quotient |
| BigIntegers.EarlyZeroExample | big_integer.cpp:203-205 | [5, 7] ^= [3, 7] stores [6, 0], of value 6; then 100 / it is 0 and 100 % it is 100, where truncating division gives 16 and 4 |
| Bitwise.XorKeepsZeroTop | big_integer.cpp:269-279 | `^=` on [5, 7] and [3, 7] stores [6, 0], with a zero top limb |
| LongDivision.NormalizeFits | big_integer.cpp:207-212 | the factor 2^32 / (top + 1) is at least 1 and keeps the divisor within m limbs |
| LongDivision.NormalizedTop | big_integer.cpp:207-212 | after scaling, the top limb of the divisor is at least 2^31 |
| LongDivision.NormalizedQuotient | big_integer.cpp:207-228 | the quotient of the scaled operands is the quotient of the original ones |
| BigIntegers.BigInteger.LongDivide | big_integer.cpp:217-228 | unless a trial digit wrapped, the loop leaves dividend == quotient * divisor + remainder with remainder < divisor; when one wrapped, it returns the position and the exact remainder at which the `calc3to2` estimate was 2^32 (`WrapWitness`) |
| BigIntegers.BigInteger.DigitStep | big_integer.cpp:218-227 | one pass keeps that invariant with one more quotient digit fixed; it raises the wrap flag exactly when the estimate at i is 2^32, and leaves the quotient limbs above i alone |
| LongDivision.WrapWitnessKept | big_integer.cpp:217-227 | later passes, which only write quotient limbs below the wrap position, keep the record of a wrap |
| BigIntegers.BigInteger.NextDigit | big_integer.cpp:218-225 | the estimate lowered once by the `compare_prefix` test is the true digit, and the product is b * digit |
| LongDivision.CorrectedDigit | big_integer.cpp:221-225 | one decrement on `compare_prefix` turns the estimate into the true digit |
| BigIntegers.BigInteger.TakeQuotient | big_integer.cpp:231-235 | the quotient is shrunk, negated when the signs differed, and assigned |
| Arith.TruncDivOfMagnitudes | big_integer.cpp:232-234 | the magnitude quotient with the XOR sign (zero kept unsigned) is truncating division |
| BigIntegers.BigInteger.ModAssign | big_integer.cpp:239-242 | unless a trial digit wrapped, `%=` yields a - b * (a / b): the dividend itself on the early zero, otherwise the truncating remainder, and the truncating remainder in every case for a negative or canonical divisor; canonical |
| Arith.TruncModProperties | big_integer.cpp:239-242 | (a/b)*b + a%b == a, abs(a%b) < abs(b), and the remainder has the dividend's sign |
| BigIntegers.BigInteger.ApplyBitwise | big_integer.cpp:246-251 | the new sign is the operator on the signs; the limbs are both operands padded with the result's fill and combined; when that padding agrees with each operand's own fill the value is the two's-complement operator on the values |
| BigIntegers.CombineLimbs | big_integer.cpp:250-251 | limb i is combined with rhs's limb i, or the result's fill past its end |
| BigIntegers.BigInteger.AndAssign | big_integer.cpp:244-255 | `&=` is the shared loop followed by `shrink`, canonical |
| BigIntegers.BigInteger.OrAssign | big_integer.cpp:257-267 | `|=` is the shared loop and is not shrunk |
| BigIntegers.BigInteger.XorAssign | big_integer.cpp:269-279 | `^=` is the shared loop and is not shrunk |
| Bitwise.PaddedValue | big_integer.cpp:246-276 | with padding that agrees with each operand's fill, the limb-wise operator computes AND/OR/XOR of the values |
| Bitwise.SafePadding | big_integer.cpp:246-276 | the padding agrees for equal lengths, for equal signs under AND and OR, and for two non-negative operands |
| Bitwise.AndPaddingCounterexample | big_integer.cpp:246-251 | 2^32 & -1 should be 2^32, but `&=` pads -1 with zero limbs and gives 0 |
| Bitwise.AndComplementIsZero | big_integer.cpp:244-255 | for canonical a, `a &= ~a` leaves exactly [0] with a clear sign |
| Bitwise.ZipValue | big_integer.cpp:250-251 | limb-wise AND/OR/XOR of equally long vectors is the two's-complement operator on their values |
| BigIntegers.BigInteger.ShlAssign | big_integer.cpp:281-300 | `<<= k` yields x * 2^k for k >= 0, canonical; a negative k behaves as `>>= -k` |
| Shifts.ValueShiftedUp | big_integer.cpp:289-294 | k zero limbs put below the stored ones multiply the value by BASE^k |
| BigIntegers.BigInteger.ShrAssign | big_integer.cpp:302-325 | `>>= k` yields floor(x / 2^k) for x >= 0 and -(abs(x) / 2^k) - 1 for x < 0; a negative k behaves as `<<= -k` |
| BigIntegers.ShiftDivide | big_integer.cpp:309-316 | dividing by 2^(k mod 32) and popping k / 32 limbs is division by 2^(k mod 32) * BASE^(k/32) |
| BigIntegers.DropLow | big_integer.cpp:312-316 | the loop removes the cnt lowest limbs, or all of them when there are fewer |
| Shifts.ValueDropped | big_integer.cpp:311-316 | dropping the k lowest limbs of a non-negative number divides it by BASE^k |
| Shifts.DivideInTwoSteps | big_integer.cpp:307-316 | dividing by 2^(k mod 32) and then by BASE^(k / 32) is dividing by 2^k |
| Shifts.NegativeShiftIsFloor | big_integer.cpp:317-319 | for x < 0, -(abs(x) / 2^k) - 1 equals floor(x / 2^k) exactly when 2^k does not divide x |
| BigIntegers.ShiftRightExamples | big_integer.cpp:302-325 | running `>>= 1` leaves -3 on -4 (whose floor half is -2) and -3 on -5 |
| BigIntegers.Equal | big_integer.cpp:430-437 | `==` compares sign and limbs; equal objects have equal values |
| BigIntegers.EqualIffSameValue | big_integer.cpp:430-437 | on canonical objects `==` holds exactly when the values are equal |
| BigIntegers.NotEqual | big_integer.cpp:439-446 | `!=` is the negation of `==` |
| BigIntegers.Less | big_integer.cpp:448-452 | `<` holds exactly when a < b |
| BigIntegers.Greater | big_integer.cpp:454-457 | `>` holds exactly when a > b |
| BigIntegers.LessEq | big_integer.cpp:459-463 | `<=` holds exactly when a <= b |
| BigIntegers.GreaterEq | big_integer.cpp:465-468 | `>=` implies a >= b, and holds exactly when a >= b for canonical operands |
| BigIntegers.ToString | big_integer.cpp:470-493 | `to_string` of a canonical object is the decimal rendering of its value |
| BigIntegers.MagnitudeDigits | big_integer.cpp:482-487 | the loop pushes the digits of the magnitude, least significant first |
| BigIntegers.PopDigit | big_integer.cpp:483-486 | one pass on any non-negative b yields b mod 10 and leaves b / 10, canonical unless b was the empty vector, which stays empty |
| BigIntegers.NextDecimalDigit | big_integer.cpp:483-484 | `(b - (b / 10) * 10).first()` is b mod 10 |
| BigIntegers.EmptyDigitPass | big_integer.cpp:482-487 | on the empty vector the loop guard holds, the digit pushed is '0' and the vector stays empty: the pass is a fixed point |
| DecimalNotation.DigitValue | big_integer.cpp:29 | `str[i] - '0'` of a digit character is below ten |
| DecimalNotation.DigitChar | big_integer.cpp:484 | `'0' + d` of a digit below ten is a digit character that `DigitValue` maps back to d |
| DecimalNotation.Reverse | big_integer.cpp:491 | `std::reverse` puts character i at position len-1-i |
| DecimalNotation.RenderRoundTrip | big_integer.cpp:470-493 | the rendering is "0" for zero, starts with '-' exactly for negatives, has no leading zero, and parses back to the value |
| DecimalNotation.ParseRoundTrip | big_integer.cpp:25-30 | each canonically spelled digit string renders back to itself |
| DecimalNotation.ParseDecimal | big_integer.cpp:27-30 | reading the digits of n with `*10 + digit` gives n |

## Left out

- Stream output `operator<<`, `swap`, the defaulted assignment and destructor, unary `+`, `++`/`--` and the by-value binary wrappers are not modelled. Those wrappers are one-line delegations to the compound operators. `--` appears inside the string constructor as `SubAssign` of 1, and `%=` is written out with the compound operators on copies.
- `big_integer.h` is not part of this model. It declares a different variant of the class.
- No error paths are modelled: the code has none. The string constructor is given only well-formed input, an optional '-' followed by digits. Division requires a non-zero divisor, because `div_uint` divides natively by it.
- BigIntegers.BigInteger.DivAssign requires a divisor whose magnitude's top limb is neither 0 nor 2^32 - 1 when that magnitude has at least two limbs and no more than the dividend's. For a top limb of 2^32 - 1, the 32-bit sum `b[m-1] + 1` wraps to zero and the normalizing factor divides by zero. For a top limb of 0, which a non-negative vector left by `^=` can have, the factor 2^32 is cast to a zero `uint32_t`, both operands become 0 and `calc3to2` divides by zero. Both are undefined behaviour in C++, so the model has nothing to state for them.
- BigIntegers.BigInteger.DivAssign proves the quotient only when no trial digit reached 2^32. That cast wraps to 0 and is not repaired by the `std::min`. `LongDivision.EstimateWraps` exhibits an estimate of exactly 2^32. A wrap cannot happen for divisors below 2^64, and the contract states that as well. `BigIntegers.BigInteger.LongDivide` returns, with the flag, the position and remainder at which the estimate was 2^32; `/=` passes only the flag on, so its contract does not say which inputs wrap.
- BigIntegers.BigInteger.ModAssign inherits the same condition from `/=`.
- BigIntegers.BigInteger.Difference requires that the subtrahend is a different object from the receiver. `/=` always passes a fresh product.
- BigIntegers.BigInteger.ShlAssign and BigIntegers.BigInteger.ShrAssign require a shift count above INT32_MIN, whose negation overflows `int`.
- BigIntegers.BigInteger.ShrAssign: on a non-negative receiver shifted past all of its limbs, the vector is left empty (value 0, not canonical), as in the code.
- BigIntegers.BigInteger.ShlAssign: the reset of an empty vector to 0 is not reached, since `*=` always leaves at least one limb.
- BigIntegers.BigInteger.DivUint states the unsigned reading of the limbs for a negative receiver. The operation is only called on non-negative values.
- BigIntegers.BigInteger.OrAssign, BigIntegers.BigInteger.XorAssign and BigIntegers.BigInteger.AndAssign state the value only when the padding agrees with each operand's own fill. Otherwise they state the limbs the code produces.
- BigIntegers.GreaterEq gives the if-and-only-if only for canonical operands. On non-canonical operands of equal value, `==` is false and `>` is false.
- BigIntegers.ToString requires a canonical operand. Every operator leaves one except `|=` and `^=` (a top limb equal to the fill), `>>=` of a non-negative value past all of its limbs, `/=` of an empty vector by a one-limb non-negative divisor, and `&=` of two empty vectors (the empty vector). On the empty vector the code never terminates (see below). The requires also excludes non-empty non-canonical values such as [6, 0], which the code renders correctly; the model does not state their rendering.
- `std::reverse` is modelled as a function on strings, and `first()` as a read of limb 0.
- Loop counters of type `int32_t` and `size_t` are unbounded integers. Vectors of 2^31 limbs or more are not modelled.

## Where the code departs from the textbook description

The model follows the code in each of these cases:

- **Representation.** The limbs are stored in two's complement with a fill, not as sign and magnitude. Zero is still unique: the single limb 0 with a clear sign.
- **`>>=` on a negative value.** It always computes -(abs(x) / 2^k) - 1. That is the floor of x / 2^k only when 2^k does not divide x, so -4 >> 1 is -3 (`Shifts.NegativeShiftIsFloor`, `BigIntegers.ShiftRightExamples`).
- **`&=`, `|=` and `^=`.** They pad the shorter operand with the fill of the result's sign, not its own. So 2^32 & -1 gives 0 (`Bitwise.AndPaddingCounterexample`). `|=` and `^=` do not shrink.
- **The string constructor.** It reads "-m" as -m-2 when every limb of m is 2^32 - 1 (`BigIntegers.AllOnesExample`), so `to_string` followed by the constructor is not the identity on those values.
- **`/=`.** There is no check for a zero divisor. The normalizing factor wraps for a top limb of 2^32 - 1, and a trial digit of 2^32 is cast to 0.
- **The early zero of `/=`.** It is decided on the number of stored limbs, not on the values. A non-negative divisor that `^=` left with zero top limbs and more limbs than the dividend gives quotient 0 and remainder the dividend: 100 / [6, 0] is 0 and 100 % [6, 0] is 100 (`BigIntegers.EarlyZeroExample`).
- **`to_string` of the empty vector.** `big_integer(5) >> 32` leaves no limbs. `to_string` on it loops forever: the empty vector differs from [0], so the loop guard holds; `b /= 10` goes through `div_uint`, which leaves it empty; and each pass pushes '0' (`BigIntegers.EmptyDigitPass`).
