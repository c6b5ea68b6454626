# Verified models of number printing, formatting and option parsing

This project models, in Dafny, the algorithms of the libraries that the drone software is built with: the
fmt headers under `include/fmt` and the option parser in `include/extern/cxxopts.hpp`. Machine words are
bounded integers with their wrap-around written out; objects that change in place are classes; loops are
loops. `dafny verify dfyconfig.toml` verifies all of it.

The modules, each importing those above it that it needs:

- `Powers`, `Slices`, `Outcomes`: powers and the few nonlinear facts; places in sequences; results that may be
  errors, and options.
- `Bigits`, `BigintSpec`, `Bigints`: `bigint`, an array of 32-bit bigits with an exponent, changed in place.
  `Value()` is the number stored; every operation is specified by what it does to that number.
- `DragonSpec`, `ShortestSpec`, `DragonValue`, `DragonStorage`, `Dragon`, `DragonReach`, `DragonLead`,
  `DragonShown`: the Dragon4 digit generator. The first two say what rounding and shortest digits mean for a ratio
  and when the code's comparisons are read wrongly; `DragonValue` ties the ratio to f * 2^e and its interval to the
  neighbours of that number; `DragonStorage` says for which f and e the stored exponents mislead; `Dragon` is
  `format_dragon` on top of `Bigint`; `DragonReach` says what it prints of floating-point numbers and has three that
  it prints wrong; `DragonLead` says when the first of the digits is a zero, `DragonShown` what fixed notation shows
  of them.
- `FixedPath`: the fast fixed-precision path with its magic multipliers and rounding thresholds.
- `WideWords`, `TrailingZeros`: wide products, division by magic multipliers, removal of trailing zeros
  through modular inverses.
- `DecimalDigits`, `BasedDigits`, `FloatLayout`, `FloatShape`, `Grouping`, `IntegerParser`: counting and writing digits
  in base ten and in bases two, eight and sixteen, the four notations of a float and what they show, digit grouping,
  and reading integers back.
- `FormatSyntax`, `FormatRun`: the grammar and the meaning of format strings, as functions of the string, a
  position and the argument counter. `FormatParser`, `FormatStrategies`: the parsers and the formatting
  handler as they run, proved equal to these functions. `SpecGrammar`, `SpecConverse`,
  `FormatGrammar`: the grammars of specifiers and of format strings from the writer's side, and that exactly what they
  write is accepted, with what it says. `CompiledFormat`, `CompiledAgrees`, `CompiledStrict`: the compiler to trees of
  writers, its agreement with the interpreter, and what it accepts beyond it.
- `Buffers`: the flushing, truncating and counting buffers behind `format_to_n`.
- `Utf8`, `CodePoints`, `Utf16`: the branchless decoder, the walk over code points, the conversions.
- `IsoWeek`: ISO 8601 weeks.
- `CommandLine`, `OptionParser`, `CommandGrammar`: what a command line means, the parser that computes it, and the
  pieces that an accepted command line is made of.

The values and errors that a formatted argument produces (`write`, with and without specifiers) are two
functions given to the model, the same for the interpreter and the compiler. The tokenizer of command line
arguments, the acceptance of option values and the hash of option names are given as functions too, and
nothing is assumed of them except where a lemma says so.

## What the proofs found

The code is modelled as it is, and some of what its comments promise holds only under a condition. These are
stated as an if-and-only-if, with an input where the promise fails:

- `compare` looks at the stored length first, so a zero stored with a large exponent counts as large and equal
  values stored with different exponents count as different (`BigintSpec.CompareIsSign`,
  `BigintSpec.CompareSplitsEqualValues`).
- The shortest mode of `format_dragon` can therefore stop outside the interval or run past the shortest digits
  (`DragonReach.StopsOffTheInterval`, `DragonReach.RunsPastTheShortest`). For every value of the formats this
  happens exactly if the midpoint to the predecessor is a decimal short enough and the stored exponents contradict
  whether it belongs to the interval (`DragonStorage.MisreadIffMidpoint`). A given number of digits is
  always rounded exactly (`DragonReach.FloatResult`).
- `format_dragon` lowers an exponent estimated too high by the upper end of the interval, also when it is asked for a
  number of digits. A value just below a power of ten that reads back as it then gets a zero as its first digit and
  one digit too few; exactly when is `DragonLead.LeadingZero`, and `DragonLead.TenToTwentyEight` has such a value.
- When rounding carries through all nines, `format_dragon` raises the exponent instead of adding a digit, so that fixed
  notation shows one place less than it was asked for; exactly when is `DragonShown.FixedDigitsShown`, and
  `DragonShown.NearTen` has such a value. The fast path adds the digit (`FixedPath.FormatValue`).
- In fixed notation of the formats wider than double, a value whose first digit lies more than one place below the
  last place asked for rounds to zero, but `format_dragon` then enters the shortest mode and prints digits of it
  (`DragonReach.FixedPlaces`, `DragonReach.TenBillionth`).
- The tail loop of `subtract_aligned` stays at one index and loses a borrow that meets a zero bigit
  (`BigintSpec.LostBorrowParts`, `BigintSpec.BorrowIsLost`); `DivmodAssign` shows that its callers never need more.
- The 64-bit `remove_trailing_zeros` cuts the quotient by 10^8 to 32 bits (`TrailingZeros.RemoveTrailingZeros64`)
  and does not end when what is left is zero (`TrailingZeros.NeverLeaves`). Its callers stay below that range.
- The multiplier for the division by 1000 fails for words ending in 999 near the top of the 64-bit range
  (`TrailingZeros.DivideBy1000Exact`).
- The compiler of format strings accepts more than the interpreter: it loses the character after a lone closing
  brace (`CompiledAgrees.CompilerDropsAfterBrace`) and allows an automatic width in a numeric field
  (`CompiledAgrees.CompilerMixesIndexing`). On all other strings that it compiles and that write, the two agree
  (`CompiledStrict.InterpreterAgreesIfStrict`).
- A point before a presentation type may have no digits behind it, as in `{:.f}`, and leaves the precision open
  (`SpecGrammar.SpecifierReadBack`, `SpecConverse.SpecifierExactly`); only a point at the end is refused.
- The pointer version of the truncating buffer drops what is written after its end was asked for, unless the limit
  was reached (`Buffers.PointerBuffer.Out`, `Buffers.LostAfterOut`).
- The wrap test of `integer_parser` lets some numbers through that the type cannot hold
  (`IntegerParser.WrapNotNoticed`); what is read is the number written if and only if its digits fit the
  unsigned type (`IntegerParser.Parse`). It does not read back what `{:#X}` writes (`IntegerParser.CapitalPrefix`).
- ISO weeks of years below zero are wrong exactly in long years (`IsoWeek.YearWeeksExact`, `IsoWeek.YearMinusTwo`).
- Options whose first long and short names run together alike share one count (`CommandLine.CountExact`,
  `CommandLine.KeysCollide`), and an option given only after a double dash has its default recorded as well
  (`CommandLine.DefaultBesideArgument`, `CommandLine.DefaultAndArgument`).

One condition is of the model's input only: a float layout without any digit and with exponent zero would have no
digit before the point (`FloatLayout.LayoutDenotes`), and no caller asks for one. A width or precision taken from
a 128-bit argument is cut to 64 bits before it is checked, and `FormatRun` follows that.

## Model

| member | source | states |
|---|---|---|
| Bigints.Bigint.SubtractAligned | include/fmt/format.h:2944-2953 | for a minuend not below the subtrahend and stored with no larger exponent: the canonical difference, plus 2^32 - 1 units just above the subtrahend exactly when the tail loop, stuck at one index, loses the borrow |
| Bigints.Bigint.SubtractLevel | include/fmt/format.h:2944-2950 | the level bigits become the difference modulo one unit of the position above, and the borrow returned is that unit |
| Bigints.Bigint.SubtractBorrow | include/fmt/format.h:2951 | the tail loop takes the borrow out of one bigit only, wrapping it when it is zero, and never moves on |
| BigintSpec.SubtractedValue | include/fmt/format.h:2944-2953 | untouched, level and tail bigits together are minuend minus subtrahend, with the excess of a lost borrow when it meets a zero bigit |
| BigintSpec.BorrowIsLost | include/fmt/format.h:2951 | taking 1 from 2^64: the borrow meets a zero bigit and is lost |
| BigintSpec.LostBorrowParts | include/fmt/format.h:2951 | a borrow is lost if and only if the bigit above the subtrahend is zero and the level bigits are smaller |
| Bigints.Bigint.Multiply | include/fmt/format.h:2955-2965 | value times the 32-bit factor exactly; at most one bigit more; normal form kept |
| Bigints.Bigint.MultiplyWide | include/fmt/format.h:2967-2985 | value times a 64- or 128-bit factor exactly, through the two halves of the factor |
| BigintSpec.CarryStep | include/fmt/format.h:2958-2963 | one step of the carry chain keeps stored part plus carry equal to the product so far, and the new carry is within the factor |
| BigintSpec.SplitProduct | include/fmt/format.h:2975-2980 | neither the sum of the low products nor the new carry overflows the wide word, and the new carry is the exact high part |
| Bigints.Bigint.Assign | include/fmt/format.h:2987-2997 | the stored number is the word, in as many bigits as it needs |
| Bigints.Bigint.ShiftLeft | include/fmt/format.h:3023-3036 | value times 2^shift, the whole words going into the exponent |
| BigintSpec.ShiftBits | include/fmt/format.h:3028-3034 | a bit shift of a bigit moves the stated bits out at the top and keeps the stated rest |
| Bigints.Bigint.Compare | include/fmt/format.h:3044-3058 | the order by length, then bigits from the top, then stored length |
| BigintSpec.CompareIsSign | include/fmt/format.h:3044-3058 | compare is the sign of the difference if and only if neither a zero stored too high nor equal values stored with different exponents are compared |
| BigintSpec.CompareSplitsEqualValues | include/fmt/format.h:3056 | two stored forms of 2^32 that compare calls different |
| Bigints.Bigint.AddCompare | include/fmt/format.h:3061-3084 | the order of the sum of two numbers and a third, with both early exits |
| BigintSpec.AddCompareIsSign | include/fmt/format.h:3061-3084 | add_compare is the sign of lhs1 + lhs2 - rhs for all stored numbers, whatever their exponents, if and only if no zero stored too high triggers the exit |
| BigintSpec.LeadDecides | include/fmt/format.h:3074-3082 | a pending difference above one decides the comparison, whatever the lower bigits are |
| Bigints.Bigint.Square | include/fmt/format.h:3106-3132 | value times itself, by cross products of a copy, with the exponent doubled |
| BigintSpec.CrossSumIsProduct | include/fmt/format.h:3112-3130 | the cross sums at their positions add up to the product of two bigit strings |
| BigintSpec.SquareSumBound | include/fmt/format.h:3111-3120 | the running sum of cross products never outgrows its 128-bit accumulator |
| Bigints.Bigint.AssignPow10 | include/fmt/format.h:3087-3104 | exactly 10^exp for every exponent below 2^30 |
| Bigints.Bigint.AssignPow10Step | include/fmt/format.h:3098-3102 | one scanned bit of the exponent turns the power of five of the bits above into that of the bits down to it |
| Bigints.Bigint.Align | include/fmt/format.h:3136-3147 | the exponent is lowered to the other one, the value is unchanged, the top bigit stays nonzero |
| Bigints.Bigint.DivmodAssign | include/fmt/format.h:3149-3160 | terminates with the true quotient and leaves the true remainder, unless equal numbers are stored with different exponents, where it leaves the divisor undivided; where the loop may not be entered is stated |
| BigintSpec.NoLostBorrow | include/fmt/format.h:3155-3158 | a quotient that fits an int keeps the dividend within one bigit of the divisor, so no borrow is lost |
| Dragon.ShortestDigit | include/fmt/format.h:3241-3254 | one digit of the shortest mode, with the comparisons as they are stored: stops exactly where the specification stops, with its digit |
| Dragon.ShortestDigits | include/fmt/format.h:3236-3263 | terminates; all digits are decimal; the digits lie in the interval, with ends included for an even significand, are the nearest of two, and no shorter string lies in it, if and only if no comparison of a remainder was misread |
| ShortestSpec.ShortestUnlessMisread | include/fmt/format.h:3236-3263 | the digit string where the loop stops is the shortest admissible one if and only if no position was misread |
| ShortestSpec.GoesOn | include/fmt/format.h:3246-3262 | going on past a digit without a misread leaves no admissible decimal with so few digits |
| ShortestSpec.LeavesBehind | include/fmt/format.h:3242-3262 | a misread that goes on leaves an admissible shorter decimal behind |
| ShortestSpec.StopsRight | include/fmt/format.h:3246-3257 | where the loop stops its choice is admissible and nearest exactly when that position was not misread |
| ShortestSpec.IncrementFits | include/fmt/format.h:3247-3253 | the increment of the last digit never passes nine |
| ShortestSpec.OrderReadsLow | include/fmt/format.h:3242 | comparing remainder and lower distance by their stored forms is the specified reading |
| DragonSpec.GoOnEmpty | include/fmt/format.h:3246-3262 | neither low nor high: no integer at this place lies in the interval |
| DragonSpec.StopWithin | include/fmt/format.h:3246-3254 | low or high: the digit or its successor lies in the interval |
| Dragon.PropagateCarry | include/fmt/format.h:3281-3293 | a ten in the last place is carried to the left without changing the number; the exponent rises only for a one and zeros |
| DragonSpec.TenInFront | include/fmt/format.h:3289-3292 | a ten in front of zeros is ten times a one in front of them |
| Dragon.FixedDigit | include/fmt/format.h:3273-3277 | one digit of the fixed-precision loop: the next true digit, or a missed one when dividend and divisor are equal but stored differently |
| Dragon.FixedDigits | include/fmt/format.h:3264-3298 | digits and exponent are the ratio rounded half to even to that many digits, unless a digit other than the last is missed, which leaves a digit that is not decimal |
| ShortestSpec.RoundedLast | include/fmt/format.h:3278-3297 | the last digit and the carry make the half-even rounding of the ratio, missed digit or not |
| DragonSpec.RoundLast | include/fmt/format.h:3278-3297 | twice the remainder against the denominator, ties by the parity of the digit, is rounding half to even |
| DragonSpec.RoundsUniquely | include/fmt/format.h:3278-3297 | rounding half to even has one result |
| Dragon.SetupNonnegative | include/fmt/format.h:3187-3198 | numerator, denominator and both distances for a nonnegative binary exponent are those of the value, with their stored exponents |
| Dragon.SetupNegative | include/fmt/format.h:3199-3210 | the same for negative binary and decimal exponents |
| Dragon.SetupMixed | include/fmt/format.h:3211-3221 | the same for a negative binary and a nonnegative decimal exponent |
| Dragon.Fixup | include/fmt/format.h:3224-3234 | the decimal exponent is lowered exactly if the upper end of the interval stays below it; operands and digit count follow |
| Dragon.FormatDragon | include/fmt/format.h:3173-3298 | for all 128-bit significands, exponents and flags: shortest digits if and only if nothing was misread, in the interval that DragonValue.InRangeIsMidpoints finds between the neighbours; a given number of digits, or one for none, rounded half to even unless a digit went missing; and for a count that fixed notation makes negative the digits of a loop nobody asked for |
| Dragon.Unrounded | include/fmt/format.h:3224-3263 | such a count is for a value that rounds to zero, and what is printed is not zero but the shortest decimal of an interval ten times too narrow after a fixup |
| Dragon.ReadEnds | include/fmt/format.h:3242-3244 | both comparisons of a turn, by the numbers and the stored exponents |
| Dragon.LastDigit | include/fmt/format.h:3246-3254 | the last digit goes up where only the upper end is near, or both are and half even says so |
| DragonValue.PlacesDown | include/fmt/format.h:3259-3261 | multiplying numerator and distances by ten i times moves the operands i decimal places down |
| DragonValue.InRangeIsMidpoints | include/fmt/format.h:3182-3197 | a decimal counts as reading back if and only if it lies between the means of f * 2^e with its two neighbours, the lower of which is half as far below a power of two, ends included for even f |
| DragonValue.ShortestTransfers | include/fmt/format.h:3236-3263 | shortest digits of the operands are shortest digits of f * 2^e at the exponent returned |
| DragonValue.RoundedTransfers | include/fmt/format.h:3264-3298 | rounded digits of the operands are f * 2^e rounded half to even to a power of ten |
| DragonValue.OneDigit | include/fmt/format.h:3266-3270 | asked for no digits, the one printed is the value rounded to the next higher power of ten |
| ShortestSpec.MisreadExactly | include/fmt/format.h:3236-3263 | the loop misreads somewhere if and only if, at some place above which nothing is admissible, a zero remainder or one equal to the lower distance is stored with a misleading exponent |
| DragonStorage.NegativeIsSafe | include/fmt/format.h:3199-3221 | for a negative binary exponent nothing is misread and no digit goes missing |
| DragonStorage.TwinExactly | include/fmt/format.h:3274 | a digit goes missing if and only if the value is a power of ten whose numerator is stored higher than the denominator |
| DragonStorage.TwinIsRare | include/fmt/format.h:3187-3198 | among all 128-bit significands only 5^30, 5^31 and 2 * 5^31, with exponents 30 and 31, are such values |
| DragonStorage.FloatNeverTwin | include/fmt/format.h:1563-1587 | no significand of a 24-, 53-, 64- or 113-bit format is one of them |
| DragonStorage.MisledByZero | include/fmt/format.h:3242 | a zero remainder is misread only at the first digit, without a fixup, for a value that is all in that digit |
| DragonStorage.FloatNeverZero | include/fmt/format.h:3404-3414 | with the estimate that format_float computes there is no such value in the formats |
| DragonStorage.MisledByMidpoint | include/fmt/format.h:3242 | a nonzero remainder is misread exactly where the lower midpoint is a decimal of that place whose stored exponents contradict the parity of the significand |
| DragonStorage.MisreadIffMidpoint | include/fmt/format.h:3236-3263 | for every value of the formats the shortest mode goes wrong if and only if the lower midpoint misleads it, a condition on significand and exponents |
| DragonReach.FloatMissesNone | include/fmt/format.h:3264-3277 | for every value of the formats no digit goes missing |
| DragonReach.FloatResult | include/fmt/format.h:3173-3298 | for every value of the formats: the digits asked for are the value rounded half to even, without exception; the shortest digits are right if and only if the lower midpoint does not mislead |
| DragonReach.FixedPlaces | include/fmt/format.h:3224-3233 | in fixed notation after a fixup the value is rounded to the places asked for if and only if the digit count stays nonnegative; otherwise zero is due and a nonzero decimal is printed |
| DragonReach.TenBillionth | include/fmt/format.h:3224-3263 | 10^-10 in the 64-bit format with two places is printed as the digit 1 at exponent -10 |
| DragonLead.FixupExactly | include/fmt/format.h:3224-3234 | the exponent is lowered if and only if the value is below its power of ten and that power does not read back as the value |
| DragonLead.LeadingZero | include/fmt/format.h:3224-3298 | for every value of the formats, with an estimate at most one too high, a given number of digits starts with a zero, and so is one digit short, if and only if the next power of ten reads back as the value but lies more than half a unit of the last digit above it |
| DragonShown.FixedDigitsShown | include/fmt/format.h:3224-3298 | fixed notation of what format_dragon prints, where a digit is left to print, shows the places asked for, but one less if and only if the value rounds up to the next power of ten |
| DragonShown.CarryExactly | include/fmt/format.h:3279-3295 | rounded digits end one place above the unit if and only if the value rounds to one more digit than there are |
| DragonShown.NearTen | include/fmt/format.h:3279-3295 | 9.96875 in the 64-bit format, with the exponent estimated for it and one place asked for, is laid out as two digits and none behind the point |
| DragonLead.RoundedLead | include/fmt/format.h:3264-3298 | digits rounded to the k-th place from the top start with a zero exactly if more than half a unit is missing to the power of ten |
| DragonLead.TenToTwentyEight | include/fmt/format.h:3224-3277 | 10^28 in the 64-bit format, with the exponent estimated for it and 21 digits, is printed with a zero in front |
| DragonReach.StopsOffTheInterval | include/fmt/format.h:3242-3258 | an odd 113-bit significand, with the exponent estimated for it, for which the shortest mode stops at a decimal outside the interval |
| DragonReach.RunsPastTheShortest | include/fmt/format.h:3242-3258 | an even 64-bit significand, with the exponent estimated for it, for which the shortest mode runs past an admissible decimal |
| FixedPath.FormatSegment | include/fmt/format.h:3505-3680 | for every 19-digit segment, sticky flag and precision: the digits and the exponent are the segment rounded half to even, ties broken by what follows, including the carry through all nines and the precision zero and below |
| FixedPath.FormatValue | include/fmt/format.h:3505-3680 | every value that the segment stands for is printed rounded half to even to the digits asked for, with a first digit that is not zero and one digit or exponent more only for a one and zeros; to zero where none is left |
| FixedPath.FastPathIsExact | include/fmt/format.h:3473-3680 | a value of which the segment holds 18 or 19 true digits is rounded exactly as the segment with its sticky flag is |
| FixedPath.StickyDecides | include/fmt/format.h:3485-3496 | half a unit is a multiple of the last genuine digit, so the flag alone decides for every value behind it |
| FixedPath.PrintSubsegment | include/fmt/format.h:3547-3583 | the digits printed through the magic multipliers are the leading digits of the subsegment, and the fraction left brackets what follows them |
| FixedPath.FixedPoint | include/fmt/format.h:3552-3571 | both multipliers give a fixed-point form whose integer part is the first one or two digits |
| FixedPath.NextPair | include/fmt/format.h:3577-3582 | multiplying the fraction by a hundred moves the next two digits into the upper word |
| FixedPath.FractionHalves | include/fmt/format.h:3604-3612 | the threshold table says strictly above one half, the top bit says at least one half |
| FixedPath.FirstSubsegment | include/fmt/format.h:3535-3539 | the reciprocal of 2^96 divides every 64-bit segment by 10^10 |
| FixedPath.SecondSubsegment | include/fmt/format.h:3630-3635 | the reciprocal of 2^64 divides what is below 10^10 by ten |
| FixedPath.UpFirst | include/fmt/format.h:3604-3622 | the decision within or at the end of the first nine digits is the half-even one of the whole segment |
| FixedPath.UpSecond | include/fmt/format.h:3641-3661 | the decision in the second nine digits is the half-even one of the whole segment |
| FixedPath.RoundUpDigits | include/fmt/format.h:3665-3678 | the carry loop adds one to the digits, or turns all nines into a one and zeros, one digit longer or with a larger exponent |
| WideWords.Umul128 | include/fmt/format.h:1381-1407 | the portable multiplication by halves is the exact 128-bit product |
| WideWords.Umul128Upper | include/fmt/format.h:1424-1433 | the upper word is the product divided by 2^64 |
| WideWords.Umul192Upper | include/fmt/format.h:1437-1442 | the upper 128 bits of a 192-bit product, no carry lost |
| WideWords.Umul192Lower | include/fmt/format-inl.h:187-192 | the lower 128 bits of a 192-bit product |
| WideWords.AddWord | include/fmt/format.h:412-418 | adding a word finds its carry by comparison |
| WideWords.MagicDivides | include/fmt/format-inl.h:218-225 | a multiplier just above p / d divides, and the low part of the product tells divisibility, while the excess stays below the multiplier |
| TrailingZeros.DivideBy100 | include/fmt/format-inl.h:249-252 | exact for every 32-bit word |
| TrailingZeros.DivideBy1000Exact | include/fmt/format-inl.h:254-257 | exact if and only if the word does not end in 999 or is below 15534100272597517999 |
| TrailingZeros.DivideSmall | include/fmt/format-inl.h:215-246 | quotient and divisibility by ten or a hundred for all numbers up to ten times as much |
| TrailingZeros.RotatedQuotient | include/fmt/format-inl.h:1149-1157 | the product with an inverse, rotated, is at most the number of multiples if and only if the divisor divides, and is then the quotient |
| TrailingZeros.Strip | include/fmt/format-inl.h:1146-1158 | takes off all zeros at the end: the number is the result times ten to the count, and ten no longer divides it |
| TrailingZeros.RemoveTrailingZeros32 | include/fmt/format-inl.h:1139-1160 | the same for every nonzero 32-bit word |
| TrailingZeros.TestEightZeros | include/fmt/format-inl.h:1166-1173 | the 2^90 test is divisibility by 10^8, and the quotient kept is the true one modulo 2^32 |
| TrailingZeros.RemoveTrailingZeros64 | include/fmt/format-inl.h:1163-1213 | the result is the number without its zeros if and only if 10^8 does not divide it or it is below 2^32 * 10^8 |
| TrailingZeros.NeverLeaves | include/fmt/format-inl.h:1173-1183 | a quotient cut to zero is mapped to itself by the loop, which then never ends; the smallest such number is 2^32 * 10^8 |
| DecimalDigits.CountDigitsFallback | include/fmt/format.h:1144-1157 | the number of decimal digits, four a round |
| DecimalDigits.CountDigits64Exact | include/fmt/format.h:1167-1184 | the table by highest bit and one comparison count the digits of every 64-bit word |
| DecimalDigits.CountDigits32Exact | include/fmt/format.h:1216-1235 | one table addition and a shift count the digits of every 32-bit word |
| DecimalDigits.FormatDecimal | include/fmt/format.h:1306-1328 | the digits fill the buffer from its end, nothing else of it changes |
| DecimalDigits.WriteInt | include/fmt/format.h:2359-2375 | the sign and the decimal digits of every integer of at most 64 bits |
| IntegerParser.Parse | include/extern/cxxopts.hpp:927-981 | what is read of every text; it is the number written if and only if the digits fit the unsigned type |
| IntegerParser.Accumulate | include/extern/cxxopts.hpp:938-968 | the number modulo the word, exactly if all are digits and no prefix of the number steps down modulo the word |
| IntegerParser.FitsAccepted | include/extern/cxxopts.hpp:961-965 | a number that fits the word is never stopped by the wrap test |
| IntegerParser.ExactIfFits | include/extern/cxxopts.hpp:961-967 | what the wrap test lets through is the number if and only if that fits |
| IntegerParser.CheckedNegate | include/extern/cxxopts.hpp:910-916 | negation through the predecessor is exact over the whole signed range |
| IntegerParser.ParseText | include/extern/cxxopts.hpp:595-622 | the same from the text, with sign and prefix split off |
| IntegerParser.RoundTrip | include/extern/cxxopts.hpp:927-981 | the text written for an integer of the target type is read back as that integer |
| IntegerParser.WrapNotNoticed | include/extern/cxxopts.hpp:961-965 | 17179869180 passes the wrap test of a 32-bit word and is read as 4294967292 |
| IntegerParser.SplitExactly | include/extern/cxxopts.hpp:595-622 | a text is cut into a sign, a prefix and digits if and only if it is these, and the digits are not empty and do not begin with what would be taken for a sign or prefix |
| IntegerParser.DigitListed | include/extern/cxxopts.hpp:942-957 | a character is a digit exactly as two lists of sixteen have it, in either case |
| IntegerParser.BasedValue | include/fmt/format.h:1341-1352 | the binary, octal or hexadecimal digits of a number are read as it |
| IntegerParser.HexRoundTrip | include/extern/cxxopts.hpp:927-981 | the hexadecimal text, with its prefix, written for an integer of the target type is read back as that integer |
| IntegerParser.CapitalPrefix | include/extern/cxxopts.hpp:595-622 | with the prefix in capitals the text is refused |
| BasedDigits.FormatUint | include/fmt/format.h:1341-1352 | the digits of a number in base 2, 8 or 16 fill the front of the buffer, from the last one on, and nothing else of it changes |
| BasedDigits.CountDigits | include/fmt/format.h:1196-1211 | the number of these digits, one a round |
| BasedDigits.DigitsLook | include/fmt/format.h:1341-1352 | letters are in the case asked for, and only zero starts with a zero |
| BasedDigits.WriteBased | include/fmt/format.h:2206-2240 | sign, prefix and digits of every integer of at most 64 bits |
| FloatLayout.LayoutDenotes | include/fmt/format.h:2564-2666 | in all four notations the text reads as sign, significand and exponent exactly, if and only if there is a digit or the exponent is not zero; which notation it is and how many digits stand behind the point is FloatShape |
| FloatLayout.SizeIsLength | include/fmt/format.h:2570-2657 | the size computed in advance is the number of code units written |
| FloatLayout.ExpDenotes | include/fmt/format.h:2589-2614 | exponent notation denotes the number |
| FloatLayout.IntegerDenotes | include/fmt/format.h:2617-2635 | integers with trailing zeros denote the number |
| FloatLayout.PointDenotes | include/fmt/format.h:2636-2649 | digits around a point denote the number |
| FloatLayout.FractionDenotes | include/fmt/format.h:2650-2666 | leading zeros behind the point denote the number; without digits, zero |
| FloatLayout.ExponentSpells | include/fmt/format.h:1526-1545 | a sign and two to four digits that spell the exponent |
| FloatLayout.ReadsAssembled | include/fmt/format.h:2564-2666 | reading back a sign, digits, an optional fraction and an optional exponent yields just these |
| FloatLayout.WriteFraction | include/fmt/format.h:2503-2513 | the fraction written backwards in pairs leaves the integral part of the significand |
| FloatLayout.WriteSignificand | include/fmt/format.h:2497-2518 | the digits of an integer significand around the point |
| FloatLayout.PaddedLength | include/fmt/format.h:1771-1788 | padding adds the missing columns times the length of the fill, on whichever sides |
| FloatShape.ExponentShown | include/fmt/format.h:2577-2586 | the text has an e, or an E where capitals are asked for, if and only if the format is the exponential one, or the general one and the leading digit stands below 10^-4 or at the precision and above, 16 where none is given |
| FloatShape.FixedShows | include/fmt/format.h:2617-2666 | of digits that end at the place asked for, or of none, fixed notation shows as many behind the point as the precision says, and the point if there are any or it is asked for |
| FloatShape.GeneralShows | include/fmt/format.h:2577-2666 | for numbers from 10^-4 on, general notation with the point asked for shows as many significant digits as the precision says, and one behind the point of an integer without any |
| FloatShape.ExponentialShape | include/fmt/format.h:2587-2614 | one digit before the point, the others and the zeros asked for behind it, then the exponent |
| FloatShape.IntegerShape | include/fmt/format.h:2617-2649 | of a number from one on: how many digits stand before and behind the point, and when there is a point |
| FloatShape.FractionShape | include/fmt/format.h:2650-2666 | of a number below one: a zero, and how many digits stand behind the point |
| FloatShape.PaddedSides | include/fmt/format.h:1771-1788 | the text stands at the left, at the right or in the middle of its padding, by the alignment |
| Grouping.Groups.CountSeparators | include/fmt/format.h:2084-2089 | the number of separator positions below the number of digits |
| Grouping.Groups.Separators | include/fmt/format.h:2095-2101 | the positions collected are those of the count |
| Grouping.Groups.Apply | include/fmt/format.h:2092-2115 | a separator before each digit at one of these positions |
| Grouping.GroupedSize | include/fmt/format.h:2084-2115 | as many separators are written as were counted |
| Grouping.Ungrouped | include/fmt/format.h:2092-2115 | taking the separators out gives the digits back |
| Grouping.StopsIncrease | include/fmt/format.h:2063-2070 | the positions rise strictly and stay below the number of digits |
| Grouping.Groups.PositionsExactly | include/fmt/format.h:2063-2070 | the positions are exactly those that differ by the sizes of the locale in order, the last size repeating, up to the number of digits or to a size that ends the grouping |
| FormatParser.ParseIntExact | include/fmt/core.h:2237-2257 | a number without a leading zero is read exactly when it fits an int |
| FormatParser.ParseNonnegativeInt | include/fmt/core.h:2237-2257 | the wrapping loop with its digit count is the exact reading in at most ten digits, or the error value |
| FormatParser.ParseContext.TakeNext | include/fmt/core.h:713-722 | the next automatic id, or an error after a numeric one |
| FormatParser.ParseContext.Check | include/fmt/core.h:728-736 | switches to numeric ids, or an error after an automatic one |
| FormatParser.DoParseId | include/fmt/core.h:2276-2302 | a number followed by a brace or a colon, or a whole identifier |
| FormatParser.ParseWidthOrPrecision | include/fmt/core.h:2314-2353 | a number or a reference in braces, with the counter changed as the reference says |
| FormatParser.ParsePrecisionAt | include/fmt/core.h:2358-2368 | what follows the point, or an error when nothing does |
| FormatParser.Round | include/fmt/core.h:2406-2532 | one round of the specifier parser: phase, specifiers, position and counter as specified |
| FormatParser.ParseFormatSpecs | include/fmt/core.h:2374-2537 | the whole specifier computes the specified rounds; SpecConverse.SpecifierExactly says what these accept and mean |
| FormatSyntax.Rounds | include/fmt/core.h:2406-2537 | each round moves on within the string |
| SpecConverse.SpecifierExactly | include/fmt/core.h:2374-2537 | up to a closing brace the parser accepts a specifier if and only if it is a fill, an alignment, a sign, and so on, written in the order of the grammar and allowed for the argument; the specifiers and the counter are what it says |
| SpecConverse.AcceptedIsWritten | include/fmt/core.h:2374-2537 | whatever is accepted is some specifier so written, and its result is what that says |
| SpecConverse.RoundsRead | include/fmt/core.h:2406-2537 | after the alignment every run of the loop reads a part, in the order of the parts |
| SpecConverse.IdWritten | include/fmt/core.h:2276-2313 | every argument id that is accepted is the empty one, a number without leading zeros or an identifier |
| SpecGrammar.SpecifierReadBack | include/fmt/core.h:2374-2537 | every specifier written out in the order of the grammar is read back: its parts, its presentation type, where it ends, the argument counter after it |
| SpecGrammar.LetterFits | include/fmt/core.h:2470-2512 | the letter that a table of its own gives for each presentation type is read as that type, for the kinds of argument listed for it and no others |
| SpecGrammar.LettersOnly | include/fmt/core.h:2470-2512 | no other character is read as a presentation type |
| SpecGrammar.Opening | include/fmt/core.h:2377-2384 | fill and alignment are found by the character after the first, and nothing else is taken for them |
| SpecGrammar.FillOpens | include/fmt/core.h:2515-2533 | a fill of one code point before an alignment, whatever it is but a brace |
| SpecGrammar.ReadsAmount | include/fmt/core.h:2333-2353 | a width or precision, as a number or as a reference, is read back with the counter moved on |
| SpecGrammar.ReadsId | include/fmt/core.h:2276-2313 | an argument id before its brace is read back |
| SpecGrammar.ReadsNumber | include/fmt/core.h:2237-2257 | digits are read back as the number they spell, or as the error value above INT_MAX |
| FormatGrammar.FormatExactly | include/fmt/format.h:4480-4559 | a format string is accepted with this output if and only if it is a row of characters, doubled braces and fields that mean it: which argument each field takes, by counter, number or first name; its width and precision, literal or from the argument referred to, an integer, not negative, cut to 64 bits and at most INT_MAX; what a character argument refuses; the pieces of output in order |
| FormatGrammar.SpecsWritten | include/fmt/format.h:4536-4556 | the specifiers a field is written with have as width and precision the literal ones or those of the arguments referred to, and the field is refused exactly when one of these is missing, no integer, negative or too big |
| FormatGrammar.AmountIs | include/fmt/format.h:3979-3984 | the number taken for a reference by index is that of the argument of this index, and by name that of the first argument so named |
| FormatGrammar.PiecesRun | include/fmt/core.h:2577-2627 | pieces with a meaning written one behind the other are accepted with it |
| FormatGrammar.PiecesFound | include/fmt/core.h:2577-2627 | whatever is accepted consists of such pieces |
| FormatStrategies.ParseReplacementField | include/fmt/core.h:2540-2574 | one field or escaped brace: end, output, counter or error as specified |
| FormatStrategies.ParseShort | include/fmt/core.h:2584-2601 | the loop for short strings computes the meaning of every format string, with the same error |
| FormatStrategies.ParseLong | include/fmt/core.h:2602-2626 | the two searches compute the same meaning of every format string, with the same error |
| FormatStrategies.ParseFormatString | include/fmt/core.h:2577-2627 | both strategies therefore agree whatever the length |
| FormatStrategies.Write | include/fmt/core.h:2603-2617 | text in pieces up to each doubled brace is the literal text |
| FormatStrategies.LiteralRun | include/fmt/core.h:2602-2626 | a piece before an opening brace or the end means its literal text |
| FormatStrategies.FormatHandler.OnFormatSpecs | include/fmt/format.h:4536-4556 | argument, specifiers, dynamic width and precision, closing brace and output, in this order |
| FormatStrategies.FormatHandler.OnArgId | include/fmt/format.h:4516-4526 | the argument a reference stands for, and the counter after it |
| FormatStrategies.VformatTo | include/fmt/format.h:4480-4559 | output or error of every format string, with the shortcut for a single plain field; FormatGrammar.FormatExactly says which output that is |
| FormatRun.ShortcutAgrees | include/fmt/format.h:4495-4500 | the shortcut does what the general path does |
| FormatRun.DoubledIsLiteral | include/fmt/core.h:2577-2627 | text with its braces doubled is formatted to itself |
| FormatRun.PlainRun | include/fmt/core.h:2586-2599 | plain text goes to the output as it stands |
| CompiledAgrees.CompiledFormatAgrees | include/fmt/compile.h:302-535 | every format string the interpreter accepts, with automatic, numeric or run-time named arguments, gives the same output when compiled, ids of dynamic widths and precisions included |
| CompiledAgrees.CompileAgrees | include/fmt/compile.h:414-482 | from any position on, the compiled rest writes what the interpreter writes |
| CompiledAgrees.TailAgrees | include/fmt/compile.h:313-326 | head and compiled tail write what the interpreter writes |
| CompiledAgrees.IndexedAgrees | include/fmt/compile.h:385-410 | a field or a field with specifiers of a known argument, and its tail |
| CompiledAgrees.SpecsAgree | include/fmt/compile.h:337-346 | the specifiers parsed at compile time are those of the interpreter, and the next id is its counter |
| CompiledAgrees.RoundsLooser | include/fmt/compile.h:402 | what a manual counter accepts is parsed alike by the compiler's fresh one |
| CompiledAgrees.RoundsGrow | include/fmt/compile.h:345 | an automatic counter never falls within specifiers |
| CompiledAgrees.NamedAgrees | include/fmt/compile.h:231-256 | trying the arguments in turn finds the one the table of names finds |
| CompiledStrict.InterpreterAgreesIfStrict | include/fmt/compile.h:302-482 | of the strings that compile and write, the interpreter writes the same exactly for those whose closing braces are doubled and whose numeric fields take no automatic width or precision |
| CompiledStrict.RunIsStrict | include/fmt/core.h:2539-2627 | every string that the interpreter accepts is of this kind |
| CompiledStrict.CompiledRuns | include/fmt/compile.h:302-482 | every such string that compiles and writes is accepted by the interpreter |
| CompiledStrict.ManualSpecs | include/fmt/compile.h:337-346 | specifiers of a numeric field parsed with a fresh counter are those of a manual one if and only if no automatic reference is taken |
| CompiledStrict.RoundsTighter | include/fmt/core.h:2406-2537 | rounds that leave a fresh counter free of automatic references go the same way with a manual one |
| CompiledAgrees.CompilerDropsAfterBrace | include/fmt/compile.h:468-471 | a closing brace compiles with any character after it, which is lost, where the interpreter reports an error |
| CompiledAgrees.CompilerMixesIndexing | include/fmt/compile.h:399-400 | a numeric field with an automatic width compiles where the interpreter reports an error |
| CompiledFormat.ParseText | include/fmt/compile.h:302-308 | the scan stops at the first brace or the end |
| Buffers.FixedBufferTraits.Limit | include/fmt/core.h:982-986 | the part let through is what is missing up to the limit, all of it is counted |
| Buffers.IteratorBuffer.Append | include/fmt/format.h:832-842 | terminates, and the elements are appended |
| Buffers.IteratorBuffer.Flush | include/fmt/core.h:1002-1006 | delivers the truncated part of what is in the buffer |
| Buffers.IteratorBuffer.Out | include/fmt/core.h:1015-1019 | delivered are the first elements up to the limit |
| Buffers.PointerBuffer.Flush | include/fmt/core.h:1036-1043 | the target keeps what was written while it was the buffer |
| Buffers.PointerBuffer.Append | include/fmt/format.h:832-842 | terminates also for a limit of zero, and the elements are appended |
| Buffers.PointerBuffer.Out | include/fmt/core.h:1058-1065 | delivered are the first elements up to the limit if and only if the target was not left before the limit was reached or nothing came after |
| Buffers.CountingBuffer.Append | include/fmt/core.h:1105-1122 | every element is counted |
| Buffers.TruncatingIterator.Assign | include/fmt/compile.h:82-98 | an element is let through while the count is below the limit |
| Buffers.ThroughGeneric | include/fmt/core.h:990-1020 | any pieces: the first elements up to the limit, and the count of all |
| Buffers.ThroughPointer | include/fmt/core.h:1022-1066 | the same in the target, and the same count |
| Buffers.ThroughCounting | include/fmt/core.h:1105-1122 | the same count |
| Buffers.ThroughTruncating | include/fmt/compile.h:22-98 | the same elements and the same count |
| Buffers.LostAfterOut | include/fmt/core.h:1058-1061 | asking for the end early makes the pointer version drop what comes after, although there is room |
| Buffers.TruncatedAppend | include/fmt/core.h:982-986 | cutting piece by piece at a limit is cutting the whole |
| Utf8.DecodesWellFormed | include/fmt/format.h:647-681 | no error if and only if the bytes begin with a well-formed sequence of section 4 of RFC 3629; then the pointer moves past it and the code point is a scalar value |
| Utf8.DecodeInvertsEncode | include/fmt/chrono.h:386-407 | decoding what the encoder wrote for a scalar value yields it, whatever follows |
| Utf8.EncodeInvertsDecode | include/fmt/format.h:647-681 | what is decoded without error is the encoding of the code point and lies within the text |
| Utf8.ErrorBits | include/fmt/format.h:670-678 | which error bits remain for each length |
| CodePoints.ForEachCodepoint | include/fmt/format.h:688-716 | blocks of four and a padded tail give the callback the pieces of the text up to the first it refuses, within bounds |
| CodePoints.UntilExactly | include/fmt/format.h:688-716 | the callback is given the first pieces, all accepted but perhaps the last, up to the first refused one or to the end |
| CodePoints.WalkTail | include/fmt/format.h:704-715 | the padded buffer is decoded like the text itself |
| CodePoints.PiecesPartition | include/fmt/format.h:688-716 | on any bytes the pieces are consecutive, not empty, and together the text |
| CodePoints.PieceAt | include/fmt/format.h:691-696 | a piece is a scalar value or an invalid single byte, and ends within the text |
| CodePoints.WalkEncoded | include/fmt/format.h:688-716 | walking the encoding of scalar values yields them |
| CodePoints.NoInvalidIsEncoded | include/fmt/format.h:688-716 | text without an invalid piece is the encoding of its code points |
| CodePoints.ValidIffEncoded | include/fmt/format.h:688-716 | text is walked without an invalid piece if and only if it is the encoding of scalar values |
| CodePoints.CodePointIndex | include/fmt/format.h:770-777 | the counting loop is the specified index |
| CodePoints.IndexInEncoded | include/fmt/format.h:770-777 | on valid text the index is the total length of the first n views |
| Utf16.Utf8ToUtf16 | include/fmt/format-inl.h:1415-1428 | succeeds if and only if the text is valid, with the units of its code points and a final zero |
| Utf16.PushUnits | include/fmt/format-inl.h:1416-1426 | one unit or a surrogate pair for each code point, an error at an invalid one |
| Utf16.UnitsPair | include/fmt/format-inl.h:1416-1426 | a code point above 0xffff becomes a high and a low surrogate that stand for it, any other one unit that is no surrogate |
| Utf16.Utf16ToUtf8 | include/fmt/chrono.h:376-408 | surrogate pairs joined and encoded, an error on an unpaired one |
| Utf16.DecodesEncodedUnits | include/fmt/chrono.h:378-386 | decoding the units of scalar values yields them |
| Utf16.EncodesDecodedUnits | include/fmt/chrono.h:378-386 | units that decode without error are those of scalar values |
| Utf16.RoundTrip | include/fmt/format-inl.h:1415-1428 | valid UTF-8 goes to UTF-16 and back unchanged |
| IsoWeek.WeekOfThursday | include/fmt/chrono.h:1214-1231 | from the year one on, year and week are those of the Thursday of the week (section 2.2.10 of ISO 8601:2004) |
| IsoWeek.WeekSteps | include/fmt/chrono.h:1218-1231 | one day on the pair stays, except on a Monday, where it becomes the next week |
| IsoWeek.LongYearHas53Weeks | include/fmt/chrono.h:1204-1213 | 53 weeks if and only if the year starts or ends on a Thursday, from the year one on |
| IsoWeek.YearWeeksExact | include/fmt/chrono.h:1204-1213 | over all years the number of weeks is right if and only if the year is not negative or is not a long one |
| IsoWeek.YearMinusTwo | include/fmt/chrono.h:1204-1213 | a long year that is given 52 weeks |
| IsoWeek.PhaseIsLastDay | include/fmt/chrono.h:1206-1211 | the phase of a year is the weekday of its last day |
| IsoWeek.WeekNumIsThursdays | include/fmt/chrono.h:1214-1217 | the raw week number counts Thursdays from the start of the year |
| OptionParser.Parser.Parse | include/extern/cxxopts.hpp:2375-2542 | the result has the entries, leftovers, defaults and counts the arguments mean, for every argument vector, and CommandGrammar.CommandLineExactly says what they mean; with the hashes apart it fails on a meaningful one if and only if an option not given has a default its type refuses |
| OptionParser.Parser.ParseOption | include/extern/cxxopts.hpp:2254-2268 | the entry is appended and counted under its hash, or the value is refused |
| OptionParser.Parser.CheckedParseArg | include/extern/cxxopts.hpp:2270-2303 | the option at the cursor without a written value, as CommandGrammar.LongReads and GroupValue say: its implicit value, or the next argument with the cursor moved, or an error |
| OptionParser.Parser.ConsumePositional | include/extern/cxxopts.hpp:2313-2341 | the first positional option that can take the argument, with the cursor moved as specified |
| OptionParser.Parser.ParseGroup | include/extern/cxxopts.hpp:2420-2468 | short options one by one, the rest of a group as a value, the last with the next argument |
| OptionParser.Parser.ParseLong | include/extern/cxxopts.hpp:2469-2498 | a long option with its value, or left over when that is allowed |
| OptionParser.Parser.ParseOne | include/extern/cxxopts.hpp:2384-2503 | one argument of the first loop |
| OptionParser.Parser.ParseDefaults | include/extern/cxxopts.hpp:2505-2520 | one default for each option that was not given, in whatever order the table is, each accepted by its type |
| OptionParser.Parser.ParseRest | include/extern/cxxopts.hpp:2522-2537 | after a double dash: positionals while they are taken, all the rest left over |
| OptionParser.Parser.FinaliseAliases | include/extern/cxxopts.hpp:2545-2560 | every name of every option leads to its hash |
| OptionParser.Options.AddOption | include/extern/cxxopts.hpp:2573-2595 | an option is registered if and only if its names are new, and the registry stays closed |
| CommandLine.CountExact | include/extern/cxxopts.hpp:1628-1645 | an option's count is the number of its entries if and only if no entry is another option's with the same hash |
| CommandLine.CountsOwnEntries | include/extern/cxxopts.hpp:1628-1645 | with the hashes apart, count(alias) is the number of entries of the option, under each alias |
| CommandLine.KeysCollide | include/extern/cxxopts.hpp:1314 | two options whose names run together alike share their count, whatever the hash |
| CommandLine.PositionalFills | include/extern/cxxopts.hpp:2313-2341 | a positional goes to the first option that can take it, one that is no container only while its count is zero |
| CommandLine.UnmatchedIsSubsequence | include/extern/cxxopts.hpp:2375-2542 | when unrecognised options are errors, unmatched() is an ordered part of the arguments |
| CommandLine.DefaultsOnce | include/extern/cxxopts.hpp:2505-2520 | each option is among the defaults at most once, and exactly if it has a default and was not given |
| CommandLine.DefaultBesideArgument | include/extern/cxxopts.hpp:2522-2532 | an option has a default besides an argument if and only if it is given only after the double dash |
| CommandLine.DefaultAndArgument | include/extern/cxxopts.hpp:2522-2532 | a positional after a double dash comes after the defaults, so its option has both |
| CommandLine.Meaning | include/extern/cxxopts.hpp:2375-2542 | a command line that is accepted is consumed to its end |
| CommandGrammar.CommandLineExactly | include/extern/cxxopts.hpp:2375-2542 | a command line is accepted if and only if it is a row of pieces that fit one behind the other, perhaps a double dash, and words: long options with an implicit value, with a value behind an equals sign or with the next argument; groups of letters; unknown options; words. It records the entries these say, in order, and leaves over what they leave over |
| CommandGrammar.LongReads | include/extern/cxxopts.hpp:2469-2503 | an option alone records its implicit value and takes one argument, with an equals sign it records that value, and without an implicit one it records the next argument and takes two |
| CommandGrammar.GroupFlags | include/extern/cxxopts.hpp:2420-2452 | every letter before the one that takes a value records its implicit value, and unknown letters are left over with a dash |
| CommandGrammar.GroupValue | include/extern/cxxopts.hpp:2439-2461 | the first letter without an implicit value records the rest of the group, or the next argument if it is the last, and fails without one |
| CommandGrammar.WordStep | include/extern/cxxopts.hpp:2313-2341 | the positional option at the cursor is passed when it takes one value and has it, and takes the word otherwise |
| CommandGrammar.WordReads | include/extern/cxxopts.hpp:2313-2341 | a word goes to the first positional option that is not full, or nowhere |
| CommandGrammar.PieceReads | include/extern/cxxopts.hpp:2384-2503 | a piece that stands at the cursor is read: the cursor goes behind it and it adds what it means |
| CommandGrammar.PieceWritten | include/extern/cxxopts.hpp:2384-2503 | whatever is read at the cursor is a piece that fits there |
| CommandGrammar.WalkReads | include/extern/cxxopts.hpp:2384-2503 | the loop reads the pieces up to the end or a double dash |
| CommandGrammar.RestReads | include/extern/cxxopts.hpp:2522-2537 | behind a double dash words go to positional options until one goes nowhere, and all from there are left over |
| OptionParser.NoBadDefault | include/extern/cxxopts.hpp:2505-2520 | with the hashes apart, if the defaults were recorded, no option that was not given has a default its type refuses |

## Left out

- Bigints.Bigint.SubtractAligned: sizes and exponents are unbounded naturals where the code has `int`; the limits of `int` are stated where they matter (`Square`, `AssignPow10`, `DivmodAssign`).
- Bigints.Bigint.DivmodAssign: asks that the quotient fits an `int`, which the code counts it in, and that a zero dividend is not stored higher than the divisor, where the code's own assertion does not hold.
- Bigints.Bigint.MultiplyWide: the 64-bit and 128-bit instances; the arithmetic of the fallback 128-bit class is only modelled where `WideWords` uses it.
- Dragon.FormatDragon: asks for an exponent estimate that is right or one too high, as `format_float` provides; a fixed precision beyond INT_MAX, which throws, is a separate result.
- DragonReach.FloatResult: the estimate, which the code computes in floating point, is a parameter; for 113-bit significands with a nonnegative binary exponent its power of ten must not be below the leading bit.
- DragonShown.FixedDigitsShown: without digit grouping, and for a precision of at most 767, to which `format_float` cuts it before the digits are generated.
- DragonLead.LeadingZero: the estimate is a parameter here too, right or one too high.
- FixedPath.FormatValue: starts from the first segment; that the cached powers of ten bring that segment within one unit of the value depends on tables that are not part of this model and is the assumption `Represents`, also of FixedPath.FastPathIsExact.
- FloatLayout.LayoutDenotes: without digit grouping, which `Grouping` treats on its own, and for a decimal point that is no digit, sign or exponent character.
- FormatRun: arguments of user-defined types, whose formatters parse for themselves; arguments with statically known names, for which the compiler counts an id and the interpreter does not.
- FormatSyntax.Rounds: format strings of `char`; the wide-character instances take every code unit as one code point.
- CompiledAgrees.CompiledFormatAgrees: a character array counts as the same kind of argument for compiler and interpreter, and `to_string` as the plain writer; ids are unbounded, while the compiler's context refuses the id INT_MAX.
- FormatStrategies.ParseFormatString: what was written before an error is not compared, only the error.
- Buffers.TruncatingIterator.Assign: the iterator over `void` value types; the one that hands out references to its target is not modelled. Counts are unbounded.
- Buffers: the buffers without a limit, and the one over a contiguous container.
- CodePoints.ForEachCodepoint: the callback is a predicate that says whether to go on; what it does with the pieces is done afterwards, in the same order.
- Utf16.Utf16ToUtf8: the branch for 16-bit code units; the conversion from the locale's encoding is not part of this model.
- IsoWeek: the date is given by consistent year, day of the year and weekday; time zones and the other fields are not modelled.
- OptionParser.Parser.Parse: values are recorded as text; what is stored in the variables behind the options is not modelled. `argc` is at least one.
- CommandGrammar.CommandLineExactly: how an argument is cut into an option and its value is the given tokenizer's matter; which error a command line that is not accepted ends with is stated by `OptionParser.Parser.Parse` only through `CommandLine`.
- BasedDigits.WriteBased: without padding and precision.
- OptionParser.Options.AddOption: an option that is refused may have left some of its names registered, as in the code; nothing is said of the registry then.
- The exact-digit search of Dragonbox, its cached powers and its logarithm estimates: they depend on large constant tables.
- Hexadecimal floats, `printf`, ranges, colours, locale facets, file and console output, wide-character duplicates.
- Help texts and the iterator over parse results of the option parser; the MQTT headers, device drivers and sockets, of which only declarations are present.
