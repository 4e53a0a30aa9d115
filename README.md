# bcmath: arbitrary-precision decimal arithmetic on numeral strings

The model covers the `BCMath` class of KPHP's bcmath port. `bcmath_stl.cpp` is
the `std::string` copy. `bcmath.cpp` is the Qt copy (`QBCMath`): the same
engine with a truncate-only `bc_round` and no `bcround`. One engine models
both. The routines of the Qt copy and the members that model them:

| routine | Qt copy | member |
|---|---|---|
| `bc_parse_number` | bcmath.cpp:35-85 | `Parser.ParseNumber` |
| `bc_comp` | bcmath.cpp:96-120 | `Comparator.BcComp` |
| `bc_round` | bcmath.cpp:122-194 | `RoundBuffer.BcRound` with rounding off, which gives `TruncText` |
| `bc_add_positive` | bcmath.cpp:196-246 | `Adder.AddPositive` |
| `bc_sub_positive` | bcmath.cpp:248-308 | `Subtractor.SubPositive` |
| `bc_mul_positive` | bcmath.cpp:310-355 | `Multiplier.MulPositive` |
| `bc_div_positive` | bcmath.cpp:357-471 | `Divider.DivPositive` |
| `bc_add` | bcmath.cpp:474-500 | `Dispatch.BcAdd` |
| `bcscale` | bcmath.cpp:502-508 | `Facade.BCMath.Bcscale` |
| `bcdiv` | bcmath.cpp:510-539 | `Facade.BCMath.Bcdiv` |
| `bcmod` | bcmath.cpp:541-596 | `Facade.BCMath.Bcmod` |
| `bcpow` | bcmath.cpp:598-643 | `Facade.BCMath.Bcpow` |
| `bcadd` | bcmath.cpp:645-674 | `Facade.BCMath.Bcadd` |
| `bcsub` | bcmath.cpp:676-707 | `Facade.BCMath.Bcsub` |
| `bcmul` | bcmath.cpp:709-738 | `Facade.BCMath.Bcmul` |
| `bccomp` | bcmath.cpp:740-773 | `Facade.BCMath.Bccomp` |

Numbers are decimal numerals held as text: an optional sign, integer digits,
and an optional '.' with fraction digits. Every public operation works the
same way:

- it resolves its scale argument: `INT_MIN` means the default scale, and any
  other negative scale means 0;
- it reads an empty operand as "0", or gives up early;
- it parses each operand with `bc_parse_number` into a descriptor of spans
  (`sign`, `lint`, `ldot`, `lfrac`, `lscale`);
- it hands the spans to a kernel: `bc_add_positive`, `bc_sub_positive`,
  `bc_mul_positive`, `bc_div_positive`, `bc_comp`, or the long-long loops of
  `bcmod` and `bcpow`;
- every kernel writes its digits into a character buffer and hands that to
  `bc_round`, which strips leading zeros, settles the sign of a zero, rounds or
  truncates to the scale, and pads with zeros.

The modules follow the program's structure:

| Module | Contents |
|---|---|
| `Digits` | digit strings and their value `Val` |
| `Parser`, `ParserFacts` | `bc_parse_number` as a function and as a method |
| `Comparator` | `bc_comp` |
| `Normalizer`, `NormalizerFacts`, `RoundBuffer` | `bc_round`: a text-level specification, and the method that works in place on the buffer |
| `Alignment`, `Adder`, `Subtractor`, `Multiplier`, `Divider` | the four kernels, each a method over arrays proved against a function of the operands |
| `Dispatch` | `bc_add` |
| `Facade` | the class `BCMath`, whose field `bcScale` is the static default scale (initially 6), and the public operations |
| `FacadeFacts` | what the public operations compute, as values |

A kernel's specification is the exact result of the operation, written as
digits and then cut by `bc_round`'s text function. The lemmas relate those
digits to the operands' values:

- the sum, the difference and the product exactly;
- the quotient truncated to `scale` places;
- the remainder with the sign of the dividend;
- the power by repeated squaring.

## Model

| member | source | states |
|---|---|---|
| Parser.ParseNumber | bcmath_stl.cpp:50-100 | returns -1 exactly when the text is not a numeral; otherwise returns the fraction length and the descriptor of `Parse` |
| Parser.TrimNumber | bcmath_stl.cpp:84-98 | for a numeral, the leading-zero skip, the dropped empty fraction and the unsigned zero give exactly `Parse`'s descriptor; the `BC_ASSERT(lfrac == ldot)` always holds |
| ParserFacts.ParseAcceptsExactlyNumerals | bcmath_stl.cpp:50-83 | the parser accepts exactly an optional sign followed by digits and optionally a '.' and more digits, with at least one character after the sign: "" and "-" are refused, "." is accepted |
| ParserFacts.ParseSpans | bcmath_stl.cpp:63-94 | the descriptor's spans lie in the text; a fraction follows a '.'; `lfrac` equals `ldot` when the fraction is empty |
| ParserFacts.ParseStripsLeadingZeros | bcmath_stl.cpp:85-87 | the integer span drops leading zeros but keeps one digit, keeping its value; only zeros are skipped |
| ParserFacts.ParseSign | bcmath_stl.cpp:52-98 | the sign is -1 exactly when the text starts with '-' and is not an integer zero |
| Comparator.BcComp | bcmath_stl.cpp:111-135 | the loop returns `CompSpec`: first the longer integer span, then the first differing digit over at most `scale` fraction places |
| Comparator.CompareFractions | bcmath_stl.cpp:127-135 | with the integer spans equal digit for digit, the fraction loop returns `CompSpec`: the first differing fraction digit within `scale` places, a missing digit read as '0', else 0 |
| Comparator.CompAntisymmetric | bcmath_stl.cpp:111-135 | swapping the operands negates the result |
| Comparator.CompOrdersTruncatedValues | bcmath_stl.cpp:111-135 | for non-empty integer spans with no leading zero, the result is the order of the values truncated to the compared scale |
| Comparator.LongerIsLarger | bcmath_stl.cpp:115-117 | a canonical numeral with a shorter integer span is the smaller one |
| Comparator.FirstDifferenceDecides | bcmath_stl.cpp:119-132 | with equal lengths, the first differing digit decides the order |
| Comparator.NoDifferenceDecides | bcmath_stl.cpp:126-134 | with no differing digit within the compared places, the result is 0 |
| Comparator.EmptySpanRankedLow | bcmath_stl.cpp:112-117 | ".5" ranks below "0.1": an empty integer span loses by length |
| Comparator.CompZeroFilledOrdersValues | bcmath_stl.cpp:111-135 | with a "0" filled into an empty integer span, the comparison orders the truncated values for every parsed numeral |
| RoundBuffer.BcRound | bcmath_stl.cpp:137-209 | the in-place normaliser returns `RoundText` of the buffer's integer and fraction digits when rounding, and `TruncText` otherwise |
| RoundBuffer.BcRoundHalfUp | bcmath_stl.cpp:154-183 | the half-up branch returns `RoundText` |
| RoundBuffer.SkipLeadingZeros | bcmath_stl.cpp:138-140 | moves `lint` past the leading zeros, as `StripLeading` does, keeping one digit |
| RoundBuffer.SettleSign | bcmath_stl.cpp:144-152 | the sign stays negative exactly when the digits are not all zero (`KeepsMinus`) |
| RoundBuffer.WalkBackOverNines | bcmath_stl.cpp:156-158 | returns `WalkBack`: the scale lowered over each '9' that a carry would pass |
| RoundBuffer.CarryIntoInteger | bcmath_stl.cpp:164-175 | the integer digits become `IncDigits` of the old ones, growing one digit to the left on overflow; the rest of the buffer is unchanged |
| RoundBuffer.TrimZeros | bcmath_stl.cpp:180-182 | the fraction keeps `TrimTrailing` of its digits |
| RoundBuffer.Emit | bcmath_stl.cpp:189-208 | the returned text is `Render`: the sign, the digits, the '.', and the zero padding up to the scale when asked |
| RoundBuffer.AppendZeros | bcmath_stl.cpp:205-206 | appends exactly `n` zeros |
| Normalizer.IncDigitsValue | bcmath_stl.cpp:168-175 | the carried integer digits are worth one more |
| NormalizerFacts.TruncValue | bcmath_stl.cpp:184-186 | truncation keeps the value cut to `scale` places: the digits read together are `Val(I + F)` divided by a power of ten |
| NormalizerFacts.RoundValue | bcmath_stl.cpp:155-182 | half-up rounding: the rounded digits are worth the truncated value plus 1 exactly when the first dropped digit is at least 5; an input already short enough is unchanged |
| NormalizerFacts.RenderPadded | bcmath_stl.cpp:198-208 | a padded result has exactly `scale` fraction digits after the '.' |
| NormalizerFacts.BcZeroIsZero | bcmath_stl.cpp:102-109 | an all-zero buffer with exactly `scale` fraction digits, of any integer width, sign and padding mode, normalises to `bc_zero(scale)` |
| NormalizerFacts.WalkBackFacts | bcmath_stl.cpp:156-158 | the walk stops below a run of '9's, and only when the digit at `scale` rounds up |
| NormalizerFacts.StripKeepsValue | bcmath_stl.cpp:138-140 | stripping leading zeros keeps the value |
| Adder.AddPositive | bcmath_stl.cpp:211-261 | returns `AddText`, the normalised text of the column-wise sum |
| Adder.AddExact | bcmath_stl.cpp:217-256 | the digits written are worth exactly the sum of both magnitudes at the larger scale |
| Adder.AddColumns | bcmath_stl.cpp:217-258 | the buffer holds the column sums with their carries, in the frame `bc_round` expects |
| Adder.AddFractionColumns | bcmath_stl.cpp:225-244 | the fraction columns are summed right to left; trailing zero columns are not written; the carry out is `Carry` |
| Adder.AddIntegerColumns | bcmath_stl.cpp:246-257 | the integer columns are summed with the carry in; the carry out of the top column is `Carry` at 0 |
| Adder.AddIntegerPart | bcmath_stl.cpp:246-258 | places the '.' after the integer columns (or none when no fraction column was written) and fills the integer columns, leaving the frame `bc_round` reads |
| Adder.ColsValue | bcmath_stl.cpp:246-256 | the written columns plus the carry out are worth the sum of the two columns' values |
| Subtractor.SubPositive | bcmath_stl.cpp:263-323 | returns `SubText`, the normalised text of the column-wise difference |
| Subtractor.SubValue | bcmath_stl.cpp:263-318 | the digits written are the difference modulo 10 to the number of columns: there is no final borrow check |
| Subtractor.SubExact | bcmath_stl.cpp:263-318 | when the left magnitude is the larger, the digits are worth exactly the difference |
| Subtractor.DiffColsResidue | bcmath_stl.cpp:304-318 | the column difference is the residue of the values, and no borrow leaves the top column exactly when the left value is not smaller |
| Subtractor.SubColumns | bcmath_stl.cpp:269-320 | the buffer holds the column differences with their borrows, in `bc_round`'s frame |
| Subtractor.SubIntegerPart | bcmath_stl.cpp:304-320 | places the '.' and fills the integer columns with the borrow in, leaving `bc_round`'s frame |
| Subtractor.SubFractionColumns | bcmath_stl.cpp:277-302 | the fraction columns are subtracted right to left, trailing zero columns unwritten; the borrow out is `Borrow` |
| Subtractor.SubIntegerColumns | bcmath_stl.cpp:304-319 | the integer columns are subtracted with the borrow in, down to column 0 |
| Multiplier.MulPositive | bcmath_stl.cpp:325-375 | returns `MulText`, the normalised text of the product |
| Multiplier.MulExact | bcmath_stl.cpp:331-363 | the digits written are worth exactly the product of the magnitudes |
| Multiplier.MulFits | bcmath_stl.cpp:331-333 | the product fits in `llen + rlen` integer digits (the two integer widths) and `lscale + rscale` fraction digits |
| Multiplier.Convolve | bcmath_stl.cpp:336-344 | the accumulator's weighted sum is the product of the magnitudes |
| Multiplier.PropagateCarries | bcmath_stl.cpp:345-348 | the carry pass keeps the weighted sum and leaves every column but the top one a digit |
| Multiplier.WriteProduct | bcmath_stl.cpp:350-365 | the buffer holds the integer and fraction digit runs of the accumulator in `bc_round`'s frame |
| Multiplier.MulColumns | bcmath_stl.cpp:325-365 | the buffer holds `MulDigits` split at the integer width |
| Divider.DivPositive | bcmath_stl.cpp:377-496 | returns `DivText`: `None` (the `BC_ASSERT` exit) for the fractional zero divisor, otherwise the text of the quotient truncated to `scale` places |
| Divider.DivExact | bcmath_stl.cpp:377-482 | the quotient digits are worth `Quotient`, the dividend times 10^scale divided by the divisor, rounded down |
| Divider.DivRendersQuotient | bcmath_stl.cpp:441-492 | the integer and fraction digits, leading zeros stripped, still read as the quotient |
| Divider.QuotientFits | bcmath_stl.cpp:383-426 | the quotient is 0 when the first quotient digit would fall below the scale, and otherwise fits in the digits the buffer holds |
| Divider.DivTextZero | bcmath_stl.cpp:420-426 | when the first quotient digit falls below the scale, the result is `bc_zero(scale)` |
| Divider.WindowLess | bcmath_stl.cpp:448-456 | decides whether the dividend window is worth less than the divisor |
| Divider.SubtractDigit | bcmath_stl.cpp:462-466 | one pass of the subtraction loop: the window keeps its number less the divisor digits taken so far, with a borrow out of the window only from its first digit |
| Divider.SubtractWindow | bcmath_stl.cpp:461-467 | subtracts the divisor from the window with borrows, and touches nothing else |
| Divider.NextDigit | bcmath_stl.cpp:443-469 | the digit found is at most 9, the window drops by that many divisors, and it ends below the divisor |
| Divider.QuotientDigit | bcmath_stl.cpp:441-482 | one step keeps the division state: the quotient so far is the dividend prefix divided by the divisor |
| Divider.DivisionStep | bcmath_stl.cpp:441-482 | one pass of the loop: the next digit (at most 9) is found and written, and the quotient so far is the next dividend prefix divided by the divisor |
| Divider.DivisionLoop | bcmath_stl.cpp:441-482 | after all steps the quotient digits are worth the dividend prefix divided by the divisor, laid out in the buffer |
| Divider.LongDivision | bcmath_stl.cpp:428-483 | the written quotient is the dividend prefix divided by the divisor |
| Divider.LoadDigits | bcmath_stl.cpp:394-407 | the array holds the magnitude's digits followed by zeros |
| Divider.QuotientPrefix | bcmath_stl.cpp:428-438 | the buffer starts as the quotient layout with no digits yet: "0." and zeros before the first digit |
| Divider.WriteDigit | bcmath_stl.cpp:471-479 | appends a digit to the layout, with the '.' after the units digit |
| Divider.RoundQuotient | bcmath_stl.cpp:483-495 | the quotient buffer is normalised to `TruncText`, unpadded |
| Divider.DivideNonzero | bcmath_stl.cpp:392-495 | for a nonzero divisor, the result is the `DivText` quotient |
| Dispatch.BcAdd | bcmath_stl.cpp:499-526 | returns `AddDispatch`: the adder for equal signs, otherwise the subtractor, with the operand `bc_comp` ranks larger first and its sign |
| Dispatch.AddDispatchExact | bcmath_stl.cpp:499-522 | for operands with non-empty integer spans, the result is the truncated text of digits whose signed value is the exact sum, and a cancelled sum is positive |
| Dispatch.RankOrdersMagnitudes | bcmath_stl.cpp:505-513 | for non-empty integer spans with no leading zero, at full precision, the rank is the order of the magnitudes |
| Dispatch.RankedFirstIsLonger | bcmath_stl.cpp:505-517 | the operand ranked first never has the shorter integer span, so the subtractor's operands fit |
| Dispatch.DispatchCases | bcmath_stl.cpp:504-518 | with opposite signs, the subtractor gets the operand ranked first, with that operand's sign |
| Dispatch.EmptySpanMisranked | bcmath_stl.cpp:504-510 | ".5" plus "-0.1" at scale 6 gives "-9.600000", though the sum is 0.4 |
| Dispatch.FilledDispatchExact | bcmath_stl.cpp:499-522 | with a "0" filled into empty integer spans, every pair of parsed operands gets the exact signed sum |
| Dispatch.FilledExample | bcmath_stl.cpp:504-510 | ".5" plus "-0.1" under the corrected dispatch gives digits worth 0.4 |
| Facade.BCMath.constructor | bcmath_stl.cpp:38 | the default scale starts at 6 |
| Facade.BCMath.Bcscale | bcmath_stl.cpp:528-534 | sets the default scale, with a negative scale taken as 0 |
| Facade.BCMath.ResolveScale | bcmath_stl.cpp:679-685 | `INT_MIN` gives the default scale; any other negative scale gives 0 |
| Facade.BCMath.Bcadd | bcmath_stl.cpp:671-700 | returns `AddResult`: empty operands are "0", a non-number gives `bc_zero(scale)`, otherwise `bc_add` |
| Facade.BCMath.Bcsub | bcmath_stl.cpp:702-733 | returns `SubResult`: `bc_add` with the right operand's sign flipped |
| Facade.BCMath.Bcmul | bcmath_stl.cpp:735-764 | returns `MulResult`: a non-number gives "0", otherwise the product with sign `lsign * rsign` |
| Facade.BCMath.Bcdiv | bcmath_stl.cpp:536-565 | returns `DivResult`: an empty operand gives `bc_zero(scale)`, a non-number gives "0", otherwise the quotient; `None` for the exit |
| Facade.BCMath.Bcmod | bcmath_stl.cpp:567-622 | returns `ModResult`: "0" unless both operands are integers and the divisor is a nonzero integer of at most 18 digits |
| Facade.BCMath.Bcpow | bcmath_stl.cpp:624-669 | returns `PowResult`: "0" for non-integers and for a negative or too long exponent, "1" for exponent 0, otherwise square and multiply |
| Facade.BCMath.SquareAndMultiply | bcmath_stl.cpp:658-668 | the loop returns `PowLoop` from "1", the base and the exponent |
| Facade.BCMath.Bccomp | bcmath_stl.cpp:766-799 | returns `CompResult`: a non-number gives 0, opposite signs give `(lsign - rsign) / 2`, otherwise `bc_comp` times the sign |
| Facade.BCMath.Bcround | bcmath_stl.cpp:801-833 | returns `RoundResult`: `None` for a non-number, otherwise `bc_round` with rounding and padding on a copy shifted one place right |
| Facade.ParseInteger | bcmath_stl.cpp:576-586 | succeeds exactly when the text parses with scale 0 |
| Facade.IntValue | bcmath_stl.cpp:588-591 | the accumulated value is the integer span's value |
| Facade.Remainder | bcmath_stl.cpp:598-608 | the `long long` loop, which splits each ×10 step into ×2 then reduce, then ×5 plus the next digit then reduce, leaves the integer span's value modulo the divisor without overflow |
| Facade.WriteRemainder | bcmath_stl.cpp:610-621 | writes the remainder's decimal digits, with '-' first when the dividend is negative |
| Facade.RoundCopy | bcmath_stl.cpp:821-829 | the shifted copy rounds to `RoundText` of the operand's digits |
| Facade.ShiftedCopy | bcmath_stl.cpp:821-825 | the copy is the text moved one place right over a '0' fill, with a terminating NUL |
| FacadeFacts.SumsHaveScale | bcmath_stl.cpp:671-733 | `bcadd` and `bcsub` always return exactly `scale` fraction digits |
| FacadeFacts.AddDispatchHasScale | bcmath_stl.cpp:499-522 | every result of `bc_add` has exactly `scale` fraction digits |
| FacadeFacts.TruncPadded | bcmath_stl.cpp:198-208 | padded truncation gives exactly `scale` fraction digits, and none when the scale is 0 |
| FacadeFacts.BcZeroHasScale | bcmath_stl.cpp:102-109 | `bc_zero(scale)` has exactly `scale` fraction digits |
| FacadeFacts.AddResultValue | bcmath_stl.cpp:671-700 | `bcadd` is the truncated text of digits whose signed value is the exact sum |
| FacadeFacts.SubResultValue | bcmath_stl.cpp:702-733 | `bcsub` is the truncated text of digits whose signed value is the exact difference |
| FacadeFacts.MulResultValue | bcmath_stl.cpp:735-764 | `bcmul` is the unpadded truncated text of the exact product, with sign `lsign * rsign` |
| FacadeFacts.DivResultValue | bcmath_stl.cpp:536-565 | `bcdiv` by a nonzero number is the unpadded text of the quotient truncated to `scale` places |
| FacadeFacts.DivByIntegerZero | bcmath_stl.cpp:387-390 | dividing by "0" returns "0" |
| FacadeFacts.DivByFractionalZero | bcmath_stl.cpp:409-415 | dividing by "0.0" reaches the assertion exit |
| FacadeFacts.BccompAntisymmetric | bcmath_stl.cpp:766-799 | swapping the operands of `bccomp` negates the result |
| FacadeFacts.BccompOrdersValues | bcmath_stl.cpp:794-798 | with equal signs and non-empty integer spans, `bccomp` orders the signed values truncated to the compared scale |
| FacadeFacts.BccompMisranksEmptySpan | bcmath_stl.cpp:794-798 | as written, `bccomp(".5", "0.1")` is -1 and `bccomp("-.5", "-0.1")` is 1 at every scale: the empty integer span loses by length |
| FacadeFacts.FilledBccompOrdersValues | bcmath_stl.cpp:794-798 | `bccomp` with a "0" filled into an empty integer span orders the signed truncated values for every pair of parsed numerals of one sign |
| FacadeFacts.FilledBccompExample | bcmath_stl.cpp:794-798 | the intended `bccomp` ranks ".5" above "0.1" once a fraction place is compared |
| FacadeFacts.NegativeZeroRanksLow | bcmath_stl.cpp:794-796 | "-0.00" compares below "0": the sign test comes before any digit |
| FacadeFacts.IntegerTextFacts | bcmath_stl.cpp:576-596 | an integer numeral passes `bcmod`'s integer test, and its span holds its absolute value |
| FacadeFacts.ParseIntegerText | bcmath_stl.cpp:50-98 | a sign and canonical digits parse as that signed integer |
| FacadeFacts.ModResultValue | bcmath_stl.cpp:567-622 | `bcmod` of integers is the truncated remainder (the sign of the dividend), written with '-' whenever the dividend is negative |
| FacadeFacts.NegativeZeroRemainder | bcmath_stl.cpp:617-619 | a negative dividend that the divisor divides gives "-0" |
| FacadeFacts.MulIntegers | bcmath_stl.cpp:735-764 | `bcmul` at scale 0 of two integers is the integer numeral of their product |
| FacadeFacts.PowLoopValue | bcmath_stl.cpp:658-666 | the square-and-multiply loop leaves `result * mul^deg` |
| FacadeFacts.PowResultValue | bcmath_stl.cpp:624-669 | `bcpow` of integers with a non-negative exponent below 10^18 is the numeral of the power |
| FacadeFacts.NegativeExponent | bcmath_stl.cpp:649-652 | a negative exponent gives "0" |
| FacadeFacts.DecimalTextValue | bcmath_stl.cpp:610-615 | the remainder's digits are canonical and read as its value |
| FacadeFacts.RoundCarriesIntoNewDigit | bcmath_stl.cpp:164-175 | rounding "9.5" to scale 0 carries into a new digit: "10" |
| FacadeFacts.RoundLowersScale | bcmath_stl.cpp:156-159 | rounding "0.996" to 2 places lowers the scale over the nines and gives "1", unpadded |
| FacadeFacts.RoundPadsShortFraction | bcmath_stl.cpp:198-207 | rounding "1" to 2 places pads to "1.00" |
| FacadeFacts.SignBeforeTruncation | bcmath_stl.cpp:144-152 | the sign is settled on all fraction digits before truncation: "-0.001" truncated to 2 places is "-0.00" |
| FacadeFacts.BcroundNotIdempotent | bcmath_stl.cpp:801-833 | `bcround("0.996", 2)` is "1" while `bcround("1", 2)` is "1.00" |

## Left out

- 32-bit `int` sizes: the source computes buffer sizes and column indices in `int`. This covers `std::string result (scale + 2, '0')` in `bc_zero` (bcmath_stl.cpp:106), `result_size = result_len + result_scale + 3` (bcmath_stl.cpp:219, 271, 333, 385) and `res[i + j + result_scale] += x * y` (bcmath_stl.cpp:342). These overflow for scales near `INT_MAX` (for example `bcdiv("1", "3", 2147483647)`), and the column sums overflow for operands of more than about 2.65·10^7 digits. Overflow is undefined behaviour in the source, and the string constructor may throw instead. The model uses unbounded `int`/`nat`. So `Facade.DivResult`, `Multiplier.Convolve` and the other kernels return the mathematically correct result where the source has no defined behaviour.
- Diagnostics: the messages written to `std::cerr` (or `qWarning`) are not modelled; only the values returned are.
- The `BC_ASSERT` exit of the process: `bc_div_positive` reaches it for a fractional zero divisor such as "0.0". The model returns `None` there. The asserts that cannot fail on parsed input are proved instead.
- `Q_ASSERT` in the Qt copy is compiled out of release builds. The model follows the debug behaviour, which is the same as the `std::string` copy.
- `bcround`'s `return 0` for a non-number constructs a `std::string` from a null pointer. The model returns `None` for it.
- The header's wrapper classes, operator overloads and conversions from floating point are not part of this model.
- The Qt copy's string plumbing is not modelled: `toUtf8`, `toStdString` and `QString::mid`. The `std::string` copy's `malloc`, `sprintf` and `free` are not modelled either. The model works on `seq<char>` and `array<char>` throughout.
- The static default scale is not shared between threads: it is a field of one `BCMath` object.
- `bc_add`'s unreachable `BC_ASSERT (0)` is not modelled; the Qt copy's missing `return` after it is left out too. The parser only produces the signs 1 and -1.
- Facade.BCMath.Bcmod: the divisor is accumulated in a `long long` before its length is checked against 18 digits, so a longer divisor overflows. The model computes the divisor's value without wrap-around and then applies the same check, so the result is the same "0". The remainder loop itself is proved to stay within 64 bits.
- Facade.BCMath.Bcpow: the exponent is accumulated the same way. A longer exponent is rejected by the same check.
- The precision `1000000000` that `bc_add` hands `bc_comp` is the constant `Dispatch.FullPrecision`. Fractions longer than that are outside the lemmas that assume every fraction digit is compared.
- FacadeFacts.BccompOrdersValues: requires non-empty integer spans. With an empty span `bc_comp` ranks by length alone and the order of the values is lost, as the second finding below shows; `FacadeFacts.FilledBccompOrdersValues` states the order for every parsed pair under the intended reading. `Comparator.CompOrdersTruncatedValues` and `Dispatch.RankOrdersMagnitudes` carry the same requirement through `Canonical`.
- Facade.WriteRemainder: `bcmod` builds its result with `std::string(buffer + cur_pos)` over a 20-byte buffer that is never NUL-terminated, so that constructor reads past the buffer before `.substr(0, 20 - cur_pos)` trims the result. The model keeps the intended slice `buffer[cur_pos..20]`.
- FacadeFacts.AddResultValue: requires non-empty integer spans and fractions no longer than `FullPrecision`. Without the first, the result is wrong, as the finding below shows.
- FacadeFacts.SubResultValue: requires non-empty integer spans and fractions no longer than `FullPrecision`, as `AddResultValue` does.
- FacadeFacts.ModResultValue: states the value only for integer operands and a divisor below 10^18. Every other input gives "0", as `Facade.ModResult` states.
- FacadeFacts.PowResultValue: states the value only for integer operands and an exponent below 10^18. `NegativeExponent` covers a negative exponent.
- FacadeFacts.MulIntegers: states the product's value only at scale 0, the scale `bcpow` uses. `MulResultValue` covers every scale.

## Findings

| source | as written | input that shows it | evidently intended | confidence | as-written member | corrected member |
|---|---|---|---|---|---|---|
| bcmath_stl.cpp:504-510 | `bc_add` ranks operands of opposite signs with `bc_comp`, which orders by integer-span length first. ".5" has an empty span and ranks below "0.1". The subtractor then takes the larger magnitude from the smaller with no final borrow. | `bcadd(".5", "-0.1")` at scale 6 gives "-9.600000" | "0.400000": an empty integer span read as "0" | not executed | Dispatch.EmptySpanMisranked | Dispatch.FilledDispatchExact |
| bcmath_stl.cpp:798 | `bccomp` of two numerals of one sign returns `bc_comp`, which orders by integer-span length first. ".5" has an empty span, so it ranks below "0.1", and "-.5" ranks above "-0.1". | `bccomp(".5", "0.1")` gives -1 at every scale | 1 once a fraction place is compared: an empty integer span read as "0" | not executed | FacadeFacts.BccompMisranksEmptySpan | FacadeFacts.FilledBccompOrdersValues |

The public operations model the code as written, so `Facade.AddResult` and `Facade.CompResult` keep these behaviours. `FacadeFacts.FilledCompResult` is the intended `bccomp`, and `FacadeFacts.FilledBccompExample` ranks ".5" above "0.1" with it. `Comparator.CompZeroFilledOrdersValues` proves that `bc_comp` orders values correctly once a "0" is filled in. `Dispatch.FilledExample` gives digits worth 0.4 for the `bcadd` input above.
