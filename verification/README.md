# MariaDB ColumnStore engine: verified models

This project models the parts of the ColumnStore engine whose correctness is hard to see from the
code, and proves what they are for. The models follow the C++ code branch by branch; integer widths,
wrap-around, saturation and the order of tests are written out.

- **Decimal literals and DECIMAL values.** `MachineInts`, `Digits`, `DataConditions`, `LiteralGrammar`,
  `NumericLiterals`, `Decimals`: text to a DECIMAL of any precision and scale, with its conditions.
  `DecimalReading`: the same in terms of the literal as it is written. `DecimalPrint`: DECIMAL to text in
  both widths, and the round trip. `DecimalCompare`, `DecimalArithmetic`, `DecimalRounding`: order,
  checked arithmetic, floor, ceiling and rounding. `PowersOfTwo`, `Float128Rounding`, `Float128Quotient`:
  the division by powers of ten that the arithmetic does in binary floating point of 113 bits, modelled
  in integers with the rounding of every operation.
- **128-bit floating point modulo.** `Float128Mod`: the two-word remainder, subnormal numbers included.
- **Table access of DMLProc.** `TableAccess`: the per-table queue under one mutex and one condition
  variable, as a state machine whose steps are the critical sections, with theorems over every run, and
  as a monitor class whose methods are those steps.
- **Batch insert.** `BatchInsert`: packages handed to the PMs, one unanswered package per PM. The
  replies, lost connections among them, are given; the results hold for all of them.
- **DDL statements on the wire.** `DdlCodec`, `DdlTables`, `DdlActions`, `DdlStatements`: the bytes of
  CREATE TABLE and ALTER TABLE, as functions on byte sequences, and the exact conditions under which they
  read back. `DdlLayout`: the bytes as one flat list of fields. `DdlStream`: the byte stream and the
  loops of the serialize and unserialize operations, with one loop for vectors of anything.
- **Row ids and partitions by value.** `RidMapping`: row id to partition, segment, dbroot and local row
  id. `MinMax`: widening of extent ranges and the choice of partitions.

Where the code falls short of the rational or the obvious definition, the condition is exact and a
concrete input is given: `WideRoundExactly`, `UnsignedRoundExactly`, `AlterTableRoundTrip`,
`ColumnTypeRoundTrip`, `RightExactly`, `NextBatchExactly`, `WideUnsignedAgrees`, `VanishesExactly`,
`UndefinedExactly`; with the inputs in `WideRoundLosesSign`, `UnsignedRoundLosesHalf`,
`TwoCommentsAreRefused`, `LengthIsLost`, `StrideWraps`, `WarningDoublesUp`, `InvalidLooksValid`,
`AlmostHalfIsOne` and `SmallFactorVanishes`. Scaling down rounds to nearest up to a bound
(`QuotientRounds`), with `OddIsMoved` and `WideIsOff` beyond it and a bound on the error everywhere
(`QuotientError`); the exact set of larger numbers that round to nearest is not stated.

The comment on release by force says that the logic after the wait then releases the thread. The code
never forces a waiting thread, because `rollbackPending` leaves a handler without a processor alone;
the model follows the code, and the exits meant for that case are proved unreachable.

## Model

| member | source | states |
|---|---|---|
| `DataConditions.DataCondition.AdjustSIntXRange` | datatypes/mcs_data_condition.h:61-75 | The value is clamped to plus or minus the bound, and the out-of-range condition is added exactly when that changed it; conditions only accumulate. |
| `LiteralGrammar.ParseComplete` | datatypes/numericliteral.h:334-407 | Every literal of the grammar, after any spaces and before anything that does not continue it, is recognised with exactly its sign, integral digits, fraction digits and exponent. |
| `LiteralGrammar.ParseSound` | datatypes/numericliteral.h:518-535 | Text accepted without a syntax error is spaces, a literal of the grammar with exactly the returned parts, and a rest that does not continue it. |
| `LiteralGrammar.WrittenForms` | datatypes/numericliteral.h:334-407 | Literals as they are written: signs, period, exponent marker in either case, and what does and does not continue them. |
| `LiteralGrammar.SyntaxErrors` | datatypes/numericliteral.h:518-535 | A marker without digits and a period alone are syntax errors; what was read before them stays. |
| `MachineInts.TypeRanges` | datatypes/mcs_numeric_limits.h:24-64 | The ranges of the four integer types, as decimal numbers. |
| `Digits.LastDigitCounts` | datatypes/numericliteral.h:256-279 | The digits are the characters of codes 48 to 57, and a digit more makes ten times the value plus that digit. |
| `NumericLiterals.ToXIntPositiveContinue` | datatypes/numericliteral.h:256-279 | The digit loop gives the appended value, or the type maximum with the condition raised exactly when it is exceeded. |
| `NumericLiterals.ToSIntNegative` | datatypes/numericliteral.h:286-314 | The negative digit loop gives minus the value, or the type minimum with the condition raised exactly when it is undercut. |
| `NumericLiterals.ToXIntPositiveRoundAwayFromZeroContinue` | datatypes/numericliteral.h:316-326 | Appending digits and a rounding increment saturates and flags exactly when the exact value exceeds the type. |
| `NumericLiterals.DecimalToXIntPositive` | datatypes/numericliteral.h:445-457 | Integral and fraction digits converted as one number, plus one when rounding, saturated and flagged exactly. |
| `NumericLiterals.ToXIntPositiveScaleUp` | datatypes/numericliteral.h:459-476 | Digits times a power of ten, saturated; flagged exactly when too large, except for the early return when the digits alone equal the type maximum. |
| `NumericLiterals.ToXIntPositiveRound` | datatypes/numericliteral.h:478-483 | Round half away from zero at the decimal point, saturated and flagged exactly. |
| `NumericLiterals.ToXIntPositiveRoundExp` | datatypes/numericliteral.h:485-515 | For every exponent the result is the digits shifted and rounded half away from zero, saturated and flagged as for scaling up. |
| `NumericLiterals.SkipLeadingZeroDigits` | datatypes/numericliteral.h:212-219 | Leading zeros are dropped, the value is kept, and no leading zero is left. |
| `NumericLiterals.SkipTrailingZeroDigits` | datatypes/numericliteral.h:220-224 | Trailing zeros are dropped, the value changes by exactly that power of ten, and no trailing zero is left. |
| `NumericLiterals.SignedNumericLiteral.Normalize` | datatypes/numericliteral.h:439-443 | Normalising keeps the sign and the denoted number at every scale, and leaves no digit exactly when the number is zero. |
| `NumericLiterals.SignedNumericLiteral.PackedExponent` | datatypes/numericliteral.h:556-572 | The saturating sum of exponent and scale shifts like the true sum, and the condition is raised exactly when the exponent text does not fit 64 bits. |
| `NumericLiterals.SameShiftRoundsAlike` | datatypes/numericliteral.h:556-572 | Where the saturated exponent differs from the true one, the literal saturates or vanishes all the same. |
| `NumericLiterals.SignedNumericLiteral.ToPackedDecimalPositive` | datatypes/numericliteral.h:556-572 | For every scale the result is the literal times ten to the scale, rounded half away from zero and saturated; the condition is raised exactly when a nonzero literal has an exponent outside 64 bits, or the rounded number exceeds the type and it is not a case of digits equal to the maximum being scaled up. |
| `NumericLiterals.SignedNumericLiteral.ToPackedSDecimal` | datatypes/numericliteral.h:601-614 | The signed result is the rounded literal, saturated at either end; the condition is exact for both signs, and a negative number equal to the type minimum raises it too. |
| `Decimals.ScaleDivisor` | datatypes/mcs_decimal.h:214-225 | The two tables of powers of ten give exactly ten to the scale for scales 0 to 38. |
| `Decimals.ConvertAndClamp` | datatypes/mcs_decimal.cpp:152-173 | Conversion followed by the clamp equals the sign times the smaller of rounded magnitude and limit; the condition is raised exactly when the magnitude exceeds the limit or a nonzero literal has an exponent outside 64 bits. |
| `Decimals.FromString` | datatypes/mcs_decimal.cpp:152-173 | For every text, every scale of a signed byte and every precision: the value is the sign times min(round half away(abs v times 10^scale), 10^precision - 1), and the conditions added are exactly syntax error, clamped, or exponent outside 64 bits. A negative scale counts as its 32-bit cast. |
| `DecimalReading.ClampedIsNearest` | datatypes/numericliteral.h:354-614 | For every literal of the grammar, scale and precision, with c all its digits as one number, f the number of fraction digits and e the exponent as written: the magnitude read is c * 10^(e + scale) / 10^f, or c * 10^scale / 10^(f + e) for a negative exponent, rounded half away from zero and cut off at 10^precision - 1, with the sign written; the condition is raised exactly when it is cut off, or when a nonzero literal has an exponent above 2^63 - 1, or 2^63 if negative. |
| `DecimalReading.ReadLiteral` | datatypes/mcs_decimal.cpp:152-173 | The constructor gives exactly this for every literal after any spaces and before anything that does not continue it, in the 128-bit word for precisions above 18 and in the 64-bit word otherwise; a negative scale counts as its unsigned 32-bit number. |
| `DecimalPrint.PodTextsPrint` | datatypes/mcs_int128.cpp:27-52 | The texts chosen in the three limb cases concatenate to the canonical digits of the number the limbs denote. |
| `DecimalPrint.PrintPodParts` | datatypes/mcs_int128.cpp:27-52 | The limbs are printed into the buffer at the given place, and nothing before it changes. |
| `DecimalPrint.WriteInt128` | datatypes/mcs_int128.cpp:54-74 | The canonical digits of a magnitude are written, and success means they fit the given length. |
| `DecimalPrint.SplitIntPart` | datatypes/mcs_decimal.cpp:482-522 | In all three cases of the scale the limbs denote the magnitude divided by ten to the scale. |
| `DecimalPrint.WriteIntPart` | datatypes/mcs_decimal.cpp:482-522 | The canonical digits of the integral part are written. |
| `DecimalPrint.WriteLeadingZeros` | datatypes/mcs_decimal.cpp:524-555 | The padding loop writes as many zeros as make the remaining digits exactly scale digits long. |
| `DecimalPrint.WriteFractionalPart` | datatypes/mcs_decimal.cpp:524-555 | Exactly scale digits denoting the fraction are written. |
| `DecimalPrint.ToStringWide` | datatypes/mcs_decimal.cpp:557-592 | For every magnitude below 2^127 and scale 1 to 38 the printer never overflows its buffer, writes at most 41 characters, and gives sign, canonical integral digits, point and exactly scale fraction digits. |
| `DecimalPrint.ToStringInt128` | datatypes/mcs_int128.cpp:76-107 | At scale 0 every value but the two markers prints as sign and canonical digits. |
| `DecimalPrint.ToStringNarrow` | datatypes/mcs_decimal.cpp:594-605 | The 64-bit printer gives the same text form and its 23-byte buffer never truncates; undefined exactly for the smallest value, which is negated in 64 bits. |
| `DecimalPrint.ToStringWhole` | datatypes/mcs_decimal.cpp:640-643 | At scale 0 every 64-bit value, the smallest included, prints as sign and canonical digits. |
| `DecimalPrint.ToString` | datatypes/mcs_decimal.cpp:607-649 | For every decimal and either choice of the wide half: the null marker prints as NULL, the empty marker at scale 0 as EMPTY, the smallest narrow value at a positive scale is undefined, and everything else prints as the decimal text of the value shown, at most 41 characters. |
| `DecimalPrint.TextForm` | datatypes/mcs_decimal.cpp:482-649 | The decimal text is a minus sign exactly for a negative number, digits without a needless leading zero and, unless the scale is 0, a period and exactly scale digits; the digits are those of the magnitude. |
| `DecimalPrint.TextDenotes` | datatypes/mcs_decimal.cpp:483-649 | Printed text is a literal of the grammar that denotes the printed number. |
| `DecimalPrint.PrintParseIdentity` | datatypes/numericliteral.h:439-614 | Parsing printed text at the same scale and a precision the value fits gives the value back, with nothing rounded, clamped or flagged. |
| `DecimalPrint.PrintThenParse` | datatypes/mcs_decimal.cpp:152-173 | Printing a decimal of either width gives text if and only if it is wide or its unused wide half is not the null marker; constructing one from the text gives the same unscaled value, scale and precision with no condition raised. |
| `DecimalCompare.RescaledRemainderFits` | datatypes/mcs_decimal.cpp:175-218 | Rescaling a remainder to the larger scale never overflows, in 64 and in 128 bits. |
| `DecimalCompare.CompareIsRationalOrder` | datatypes/mcs_decimal.cpp:175-218 | Comparing quotients and rescaled remainders is the order of the rationals v/10^s. |
| `DecimalCompare.TemplateAgrees` | datatypes/mcs_decimal.h:730-774 | The operator template, with its shortcuts for equal scales and widths, agrees with the rational order. |
| `DecimalCompare.OperatorsAgree` | datatypes/mcs_decimal.h:776-804 | All six operators agree with cross-multiplied comparison for every mix of widths and scales. |
| `DecimalCompare.Total` | datatypes/mcs_decimal.h:776-804 | The order is total, antisymmetric up to equality, and its strict forms are converses. |
| `DecimalCompare.Transitive` | datatypes/mcs_decimal.h:776-804 | The order is transitive across widths and scales, strictly if either step is strict. |
| `DecimalArithmetic.WrapAndDivide` | datatypes/mcs_decimal.h:902-940 | Dividing the wrapped product back gives the factor exactly when the true product fits the type. |
| `DecimalArithmetic.CheckedMultiply` | datatypes/mcs_decimal.h:902-940 | For all operands of the type: exact, or the exception exactly when the product leaves the type, or undefined exactly for the factor zero and for the smallest value times -1. |
| `DecimalArithmetic.ChecksStayInRange` | datatypes/mcs_decimal.h:958-998 | The addition and subtraction tests do not overflow themselves. |
| `Float128Quotient.QuotientRounds` | datatypes/mcs_decimal.cpp:52-53 | Converting to binary128, dividing by ten to the k, adding one half and truncating rounds half up for every magnitude below 2^113 and 1 to 38 digits, and below 2^112 when nothing is scaled off. |
| `Float128Quotient.QuotientError` | datatypes/mcs_decimal.cpp:52-53 | For every magnitude and divisor the result is off by at most half a unit and 2^-110 of the magnitude. |
| `Float128Quotient.VanishesExactly` | datatypes/mcs_decimal.cpp:141-145 | For every magnitude and 0 to 38 digits the result is zero if and only if the magnitude is below one half, or below a given number just under it from 35 digits on. |
| `Float128Quotient.ScaledInRange` | datatypes/mcs_decimal.cpp:52-53 | With one or more digits scaled off, the result of any 128-bit magnitude is at most 2^126. |
| `Float128Quotient.TopRoundsUp` | datatypes/mcs_decimal.cpp:141-142 | With nothing scaled off, the magnitudes from 2^127 - 2^13 on become 2^127. |
| `Float128Quotient.BelowTop` | datatypes/mcs_decimal.cpp:141-142 | With nothing scaled off, all smaller magnitudes stay below 2^127. |
| `Float128Quotient.DivisorIsExact` | datatypes/mcs_decimal.cpp:52-53 | Every power of ten up to 10^38 is converted exactly, so the division is by the integer. |
| `Float128Quotient.OddIsMoved` | datatypes/mcs_decimal.cpp:141-142 | With nothing scaled off, every odd magnitude from 2^112 to 2^113 becomes the next one: the bound of QuotientRounds is sharp. |
| `Float128Quotient.WideIsOff` | datatypes/mcs_decimal.cpp:52-53 | 10^38 - 8000 with one digit scaled off becomes 10^37, which is 800 too large. |
| `Float128Quotient.AlmostHalfIsOne` | datatypes/mcs_decimal.cpp:52-53 | 5 * 10^37 - 1 with 38 digits scaled off does not become zero. |
| `DecimalArithmetic.DownRounds` | datatypes/mcs_decimal.cpp:48-54 | Scaling an operand down rounds half away from zero for all operands of up to 113 bits, 112 when nothing is scaled off. |
| `DecimalArithmetic.DownError` | datatypes/mcs_decimal.cpp:48-54 | For every operand it is off by at most half a unit and 2^-110 of the operand. |
| `DecimalArithmetic.DownInRange` | datatypes/mcs_decimal.cpp:141-145 | The conversion back leaves the type if and only if nothing is scaled off a value of at least 2^127 - 2^13, and gives the smallest value if and only if nothing is scaled off one of at most -(2^127 - 2^13). |
| `DecimalArithmetic.DownVanishes` | datatypes/mcs_decimal.cpp:141-145 | An operand is scaled down to zero if and only if its magnitude is below the threshold of its scale; with one digit scaled off, -1 comes from -14 to -5. |
| `DecimalArithmetic.AddSubtract` | datatypes/mcs_decimal.cpp:27-76 | For every result scale the sum x + y, or the difference x - y, of the rescaled operands; or the exception exactly when a rescaled operand or that integer leaves 128 bits. |
| `DecimalArithmetic.WithinOneUnit` | datatypes/mcs_decimal.cpp:27-76 | When the operands that are scaled down have up to 113 bits, the sum or difference is within one unit of the exact rational one; it is exact when none is scaled down. |
| `DecimalArithmetic.SumError` | datatypes/mcs_decimal.cpp:27-76 | For all operands and scales the sum or difference is within one unit and 2^-111 of the operands of the exact rational one. |
| `DecimalArithmetic.WideOperandIsOff` | datatypes/mcs_decimal.cpp:48-54 | The operand 10^38 - 8000 at scale 1, brought to scale 0, is 800 units too large. |
| `DecimalArithmetic.Multiply` | datatypes/mcs_decimal.cpp:110-150 | For all operands and every result scale the exact scaled product, or the product of the factors scaled down, or the exception exactly when it leaves 128 bits; undefined exactly on operands given by comparison with constants. |
| `DecimalArithmetic.UndefinedExactly` | datatypes/mcs_decimal.cpp:134-150 | To a smaller scale the product is undefined if and only if the right factor is below the threshold at which it vanishes, or one digit is to go and the left factor is at least 2^127 - 2^13, or at most -(2^127 - 2^13) with a right factor from -14 to -5. |
| `DecimalArithmetic.FactorsRound` | datatypes/mcs_decimal.cpp:134-150 | Factors of up to 112 bits are scaled down by rounding half away from zero. |
| `DecimalArithmetic.MultiplyUp` | datatypes/mcs_decimal.cpp:463-473 | In both widths the exact scaled product, or the exception exactly when it leaves the type; undefined exactly for a right factor of zero, which the narrow form does not test for, and for the smallest value times -1. |
| `DecimalArithmetic.SmallFactorVanishes` | datatypes/mcs_decimal.cpp:134-150 | 10^-20 times 4 * 10^-20 to 38 digits is undefined: the right factor is scaled down to zero. |
| `DecimalArithmetic.ModIsTruncatedRemainder` | datatypes/mcs_decimal.h:714-728 | Modulo an integer is the truncated remainder by the integer times ten to the scale, computed without overflow, no larger than the value and of its sign; undefined exactly for the divisor zero, and for the smallest value by -1 at scale 0. |
| `DecimalRounding.FloorAndCeil` | datatypes/mcs_decimal.h:227-265 | Floor and ceiling of the decomposed decimal are the rational ones in both widths. |
| `DecimalRounding.FloorAndCeilOf` | datatypes/mcs_decimal.h:670-712 | The conversions to 64-bit integers are the rational floor and ceiling, saturated. |
| `DecimalRounding.FloorAndCeilAgree` | datatypes/mcs_decimal.h:670-712 | Representations of the same number, of any width and scale, have the same floor and ceiling. |
| `DecimalRounding.SameRounding` | datatypes/mcs_decimal.h:227-265 | Representations of the same number round half away from zero alike. |
| `DecimalRounding.RoundingsAgreeExactly` | datatypes/mcs_decimal.h:659-663 | Two representations of one number convert to the same rounded 64-bit integer if and only if the number is not in (-1, -1/2] or the widths are the same. |
| `DecimalRounding.RoundHalfAwayIs` | datatypes/mcs_decimal.h:227-265 | The rounded value and the rational are at most one half apart, and at one half apart the value is the one farther from zero. |
| `DecimalRounding.RoundByFraction` | datatypes/mcs_decimal.h:227-265 | Doubling the remainder decides rounding half away from zero. |
| `DecimalRounding.NarrowRound` | datatypes/mcs_decimal.h:227-265 | The 64-bit signed rounding is the rational one; doubling the fraction fits. |
| `DecimalRounding.PosNegRoundedIntegralPart` | datatypes/mcs_decimal.h:626-642 | The wide rounding takes the truncated quotient and the first fraction digit. |
| `DecimalRounding.DigitRounds` | datatypes/mcs_decimal.h:626-642 | Rounding by the first fraction digit gives the rational rounding, except that values above -1 and at most -1/2 give 0 instead of -1. |
| `DecimalRounding.WideRoundExactly` | datatypes/mcs_decimal.h:626-642 | The wide signed rounding is the rational one if and only if the value is not above -1 and at most -1/2. |
| `DecimalRounding.WideRoundLosesSign` | datatypes/mcs_decimal.h:626-642 | The value -0.6 rounds to 0 instead of -1. |
| `DecimalRounding.ToSInt64Round` | datatypes/mcs_decimal.h:659-663 | In both widths the result is the saturated rational rounding, with the one wide exception. |
| `DecimalRounding.UnsignedRoundExactly` | datatypes/mcs_decimal.h:397-404 | The unsigned rounding is the saturated rational one if and only if the wide fraction is below 2^126; failing needs scale 38. |
| `DecimalRounding.UnsignedRoundLosesHalf` | datatypes/mcs_decimal.h:397-404 | The value 0.9 at scale 38 rounds to 0 instead of 1. |
| `Float128Mod.Ilogb` | datatypes/mcs_float128.h:235-267 | The exponent loops find the exponent that normalises a nonzero finite number, subnormal ones included. |
| `Float128Mod.SetUp` | datatypes/mcs_float128.h:269-301 | The two words hold a normalised significand that, with the exponent, denotes the operand. |
| `Float128Mod.Reduce` | datatypes/mcs_float128.h:303-332 | The two-word shift and subtract loop gives exactly the remainder of the shifted dividend by the divisor. |
| `Float128Mod.Renormalise` | datatypes/mcs_float128.h:334-342 | The renormalising loop ends and keeps the denoted number. |
| `Float128Mod.Encode` | datatypes/mcs_float128.h:343-368 | Normal or subnormal, the encoded words have the given sign and denote the given magnitude. |
| `Float128Mod.RemainderDenotes` | datatypes/mcs_float128.h:303-332 | The remainder of the significands at the divisor exponent denotes the remainder of the numbers. |
| `Float128Mod.MagOfFields` | datatypes/mcs_float128.h:227-301 | With exponent field e and fraction field f the magnitude is (2^112 + f) * 2^(e - 1) units of 2^-16494, and f units for a subnormal number. |
| `Float128Mod.MagOrder` | datatypes/mcs_float128.h:227-233 | Comparing the words compares the magnitudes. |
| `Float128Mod.Fmodq` | datatypes/mcs_float128.h:212-370 | For all finite x and finite nonzero y the result has the sign of x and magnitude exactly abs x mod abs y; otherwise NaN or x as the code decides. |
| `TableAccess.ArriveKeeps` | dmlproc/dmlprocessor.cpp:364-461 | Arriving keeps the invariant: queues hold live, unforced handlers of their table once each; unforced workers are fronts; waiters are queued, and notified when in front. |
| `TableAccess.WakeKeeps` | dmlproc/dmlprocessor.cpp:402-450 | Waking up keeps the invariant. |
| `TableAccess.WakeExits` | dmlproc/dmlprocessor.cpp:418-450 | A waiter that wakes up leaves only as the front of its queue; the missing-entry, empty-queue and not-queued exits are unreachable. |
| `TableAccess.ReleaseKeeps` | dmlproc/dmlprocessor.cpp:463-508 | Releasing keeps the invariant, also when the handler was released by force before. |
| `TableAccess.RollbackPendingKeeps` | dmlproc/dmlprocessor.cpp:510-533 | Release by force keeps the invariant; handlers without a processor are left alone. |
| `TableAccess.ArriveDoes` | dmlproc/dmlprocessor.cpp:392-461 | For every state of the invariant: an arrival starts the queue of a free table and works; otherwise it is last in the unchanged queue and waits. Nothing else changes. |
| `TableAccess.WakeDoes` | dmlproc/dmlprocessor.cpp:418-450 | A wake-up lets the front of the queue work and sends everybody else back to wait; no queue changes. |
| `TableAccess.ReleaseDoes` | dmlproc/dmlprocessor.cpp:463-508 | A release ends the handler and takes its transaction off the queue of its table, the others stay in order, an empty queue leaves the map, and every waiter is notified. |
| `TableAccess.RollbackPendingDoes` | dmlproc/dmlprocessor.cpp:510-533 | A release by force marks a working handler with a processor, takes its transaction off every queue, keeps the others of its table in order, drops an empty queue from the map and notifies every waiter; a waiting handler, or one without a processor, is left alone. |
| `TableAccess.OtherStepsDo` | dmlproc/dmlprocessor.cpp:418-421 | A spurious wake-up is a pending notification, and building the processor is only noted; nothing else changes. |
| `TableAccess.ForceFreesTable` | dmlproc/dmlprocessor.cpp:510-533 | A run: a transaction alone in its queue is released by force, the table is free, and the next arrival works at once. |
| `TableAccess.RunKeepsInv` | dmlproc/dmlprocessor.cpp:364-533 | Every run of arrivals, wake-ups, spurious wake-ups, releases and releases by force keeps the invariant. |
| `TableAccess.MutualExclusion` | dmlproc/dmlprocessor.cpp:364-533 | In every run an unforced working transaction is the front of its table queue, and at most one works on a table. |
| `TableAccess.ForcedHandlerOverlaps` | dmlproc/dmlprocessor.cpp:1189-1213 | A run in which a transaction released by force and its successor work on one table together. |
| `TableAccess.NoLostWakeup` | dmlproc/dmlprocessor.cpp:402-507 | In every run a blocked front has a pending notification and will leave the wait by the regular exit. |
| `TableAccess.OnlyRegularExits` | dmlproc/dmlprocessor.cpp:418-450 | In every run the irregular exits of the wait are unreachable. |
| `TableAccess.LateReleaseIsHarmless` | dmlproc/dmlprocessor.cpp:463-508 | In every run the late release of a transaction released by force changes no queue. |
| `TableAccess.RunIsFifo` | dmlproc/dmlprocessor.cpp:392-507 | Over any run a queue plus the arrivals equals those who left plus the queue now, and the grants are those who left plus the working front. |
| `TableAccess.GrantedInArrivalOrder` | dmlproc/dmlprocessor.cpp:392-507 | In every run access to a table is granted in arrival order and nobody is skipped. |
| `TableAccess.PredecessorsLeaveFirst` | dmlproc/dmlprocessor.cpp:475-507 | Whoever has k predecessors is the front after exactly k departures and is the next to leave then. |
| `TableAccess.TablesAreIndependent` | dmlproc/dmlprocessor.cpp:364-533 | A step of one table changes neither queue nor workers of another. |
| `TableAccess.Find` | dmlproc/dmlprocessor.h:70-83 | The search loop finds the first occurrence or the end. |
| `TableAccess.EraseAt` | dmlproc/dmlprocessor.h:84-98 | Erasing at the place found removes exactly the first occurrence. |
| `TableAccess.Monitor.constructor` | dmlproc/dmlprocessor.h:240-265 | The monitor starts without queues and handlers. |
| `TableAccess.Monitor.Synch` | dmlproc/dmlprocessor.cpp:364-461 | The critical section is the arrival step, keeps the invariant, and lets the thread work at once exactly on a free table. |
| `TableAccess.Monitor.WakeUp` | dmlproc/dmlprocessor.cpp:418-450 | The tests after the wait are the wake-up step; the thread leaves exactly as the front. |
| `TableAccess.Monitor.ReleaseTableAccess` | dmlproc/dmlprocessor.cpp:463-508 | The critical section is the release step and keeps the invariant. |
| `TableAccess.Monitor.RollbackPendingOf` | dmlproc/dmlprocessor.cpp:510-533 | The critical section is the release-by-force step and keeps the invariant. |
| `BatchInsert.WriteKeeps` | dmlproc/batchinsertprocessor.cpp:285-290 | Writing to a PM keeps one unanswered package each if and only if the PM has answered; that every waiting PM has at least one is always kept. |
| `BatchInsert.RepliesKeep` | dmlproc/batchinsertprocessor.cpp:296-331 | Answers to unanswered packages keep at least one package per waiting PM, and one each. |
| `BatchInsert.EndingIsFirst` | dmlproc/batchinsertprocessor.cpp:296-331 | The wait reads up to the first reply that is lost, carries a code or comes from the chosen PM, and ends with it. |
| `BatchInsert.StateAfterWait` | dmlproc/batchinsertprocessor.cpp:296-331 | After the wait the state of the chosen PM is true if and only if the first reply that is lost, carries a code or comes from the chosen PM is an answer of that PM. |
| `BatchInsert.NextBatchExactly` | dmlproc/batchinsertprocessor.cpp:265-339 | One unanswered package each is kept by sending the next package if and only if the chosen PM had answered before or the wait ends with its answer: a condition on the state and the replies before the call. |
| `BatchInsert.WarningDoublesUp` | dmlproc/batchinsertprocessor.cpp:316-336 | Two waiting PMs, and PM 2 answers with a range warning while PM 1 is waited for: PM 1 ends with two unanswered packages. |
| `BatchInsert.CountExactly` | dmlproc/batchinsertprocessor.cpp:361-371 | The PMs in state false are never more than the unanswered packages, and as many if and only if there is one package each. |
| `BatchInsert.BatchInsertProc.constructor` | dmlproc/batchinsertprocessor.cpp:54-84 | All PMs start in state true with nothing outstanding. |
| `BatchInsert.BatchInsertProc.AddPkg` | dmlproc/batchinsertprocessor.cpp:188-192 | The package goes to the back of the queue. |
| `BatchInsert.BatchInsertProc.GetPkg` | dmlproc/batchinsertprocessor.cpp:194-201 | The package comes off the front of the queue. |
| `BatchInsert.BatchInsertProc.BuildPkg` | dmlproc/batchinsertprocessor.cpp:203-211 | The message carries the front package and names the PM it goes to. |
| `BatchInsert.BatchInsertProc.SendFirstBatch` | dmlproc/batchinsertprocessor.cpp:233-263 | No PM or PM 0 sets the error and changes nothing else; otherwise the front package goes to the PM, and one unanswered package each is kept if and only if the PM had answered. |
| `BatchInsert.BatchInsertProc.SendNextBatch` | dmlproc/batchinsertprocessor.cpp:265-339 | From any valid state: without a PM only the error is set; otherwise the front package goes to the chosen PM and to no other, and the error code is that of the reply that ended the wait. One unanswered package each is kept if and only if the PM had answered or the wait ends with its answer. |
| `BatchInsert.BatchInsertProc.WaitFor` | dmlproc/batchinsertprocessor.cpp:296-331 | The wait loop terminates, never reads with nothing outstanding, and ends with the answer of the chosen PM, a lost connection, or a reply with a nonzero code, which becomes the error code. |
| `BatchInsert.BatchInsertProc.CountOutstanding` | dmlproc/batchinsertprocessor.cpp:361-371 | The loop counts the PMs in state false. |
| `BatchInsert.BatchInsertProc.ReceiveOutstandingMsg` | dmlproc/batchinsertprocessor.cpp:361-423 | The loop terminates although failed reads are repeated; as many answers are taken as PMs were waiting, so that many fewer packages stay outstanding, and none if and only if there was one unanswered package each. |
| `BatchInsert.InsertBatches` | dmlproc/dmlprocessor.cpp:678-930 | Over a whole statement, of one batch or many, and for all replies: each package goes out at most once, in order, to the PM chosen for it. With more than one batch, the first send whose wait ends with a lost connection or a code other than 0 and 13 is the last one; if there is none, all are made. The error code and the number of packages that stay outstanding are those the replies determine; none stays if and only if there was one unanswered package each before the answers were collected. |
| `BatchInsert.SendsExactly` | dmlproc/dmlprocessor.cpp:772-930 | The batches sent are exactly those up to the first send whose wait ends with a lost connection or a code other than 0 and 13. |
| `BatchInsert.InsertWithWarnings` | dmlproc/dmlprocessor.cpp:772-930 | When no read fails and every code is 0 or 13, the range warning, every package goes out, in order, to the PM chosen for it. |
| `BatchInsert.FirstAnswersAre` | dmlproc/batchinsertprocessor.cpp:376-405 | The answers collected are those of a beginning of the replies that ends with as many answers as PMs were waiting. |
| `BatchInsert.ErrorIsLast` | dmlproc/batchinsertprocessor.cpp:388-405 | The error code after collecting answers is that of the last answer with a code, or 1 if a failed read came later. |
| `BatchInsert.QuietSends` | dmlproc/dmlprocessor.cpp:678-930 | When no read fails and no answer carries a code, everything is sent and one unanswered package each is kept all along. |
| `BatchInsert.InsertQuietly` | dmlproc/dmlprocessor.cpp:678-930 | Then every package goes out, in order, nothing stays outstanding and no error is noted. |
| `BatchInsert.StrangerIsAwaited` | dmlproc/batchinsertprocessor.cpp:296-331 | Without errors the wait for a PM that owes no answer, such as one that is not listed, reads every reply and does not end. |
| `DdlCodec.QuadThen` | utils/messageqcpp/bytestream.cpp:221-230 | A 32-bit number written and followed by anything reads back, with exactly its four bytes taken. |
| `DdlCodec.OctThen` | utils/messageqcpp/bytestream.cpp:243-252 | The same for 64-bit numbers. |
| `DdlCodec.TextThen` | utils/messageqcpp/bytestream.cpp:492-532 | The same for length-prefixed strings, empty ones included. |
| `DdlCodec.VecThen` | dbcon/ddlpackage/serialize.cpp:38-61 | The same for vectors of anything whose elements read back. |
| `DdlCodec.AllLength` | dbcon/ddlpackage/serialize.cpp:48-61 | On every input that reads successfully, a vector reader takes as many bytes as writing the value gives. |
| `DdlCodec.NameThen` | dbcon/ddlpackage/serialize.cpp:1706-1727 | A qualified name reads back with exactly its bytes taken. |
| `DdlCodec.ColumnTypeThen` | dbcon/ddlpackage/serialize.cpp:1100-1164 | A column type reads back with its 64-bit length cut to 32 bits. |
| `DdlCodec.ColumnTypeRoundTrip` | dbcon/ddlpackage/serialize.cpp:1100-1164 | A column type reads back unchanged if and only if its length fits in 32 bits. |
| `DdlCodec.LengthIsLost` | dbcon/ddlpackage/serialize.cpp:1100-1164 | A column type of length 2^32 reads back with length 0. |
| `DdlCodec.ColumnConstraintThen` | dbcon/ddlpackage/serialize.cpp:1171-1210 | A column constraint reads back with exactly its bytes taken. |
| `DdlCodec.DefaultThen` | dbcon/ddlpackage/serialize.cpp:1282-1307 | An optional default value reads back, absent or present. |
| `DdlCodec.ColumnDefThen` | dbcon/ddlpackage/serialize.cpp:1249-1307 | A column definition whose length fits reads back with exactly its bytes taken. |
| `DdlCodec.GetColumnDef` | dbcon/ddlpackage/serialize.cpp:1249-1278 | Whatever column definition is read from any input has a length that fits and took as many bytes as it has. |
| `DdlCodec.ConstraintBodyThen` | dbcon/ddlpackage/serialize.cpp:1346-1588 | Unique, primary key, references and check constraints read back under their own type code. |
| `DdlCodec.ConstraintsThen` | dbcon/ddlpackage/serialize.cpp:1605-1645 | The list of table constraints reads back, each by its type code. |
| `DdlTables.InsertKeepsSorted` | dbcon/ddlpackage/serialize.cpp:1648-1656 | Inserting into the option map keeps it in key order and adds nothing but the pair. |
| `DdlTables.InsertPresent` | dbcon/ddlpackage/serialize.cpp:1648-1656 | A key that is in the option map keeps its value. |
| `DdlTables.InsertNew` | dbcon/ddlpackage/serialize.cpp:1648-1656 | A new key is added with its value, and every entry stays. |
| `DdlTables.LessAfterPrefix` | dbcon/ddlpackage/serialize.cpp:1648-1656 | Keys are ordered by their first different byte, and a beginning of a key comes before it. |
| `DdlTables.OptionsThen` | dbcon/ddlpackage/serialize.cpp:1648-1697 | The option map, written in key order and read by insertion, is rebuilt. |
| `DdlTables.TableDefThen` | dbcon/ddlpackage/serialize.cpp:1595-1699 | A table definition with any columns, constraints and options reads back with exactly its bytes taken. |
| `DdlTables.TrailerThen` | dbcon/ddlpackage/serialize.cpp:72-102 | Session, statement text, owner and autoincrement mark read back. |
| `DdlActions.ActionThen` | dbcon/ddlpackage/serialize.cpp:673-1093 | Each of the twelve alter actions reads back under its type code with exactly its bytes taken. |
| `DdlActions.ActionReads` | dbcon/ddlpackage/serialize.cpp:124-215 | Whatever action is read from any input has column lengths that fit and took as many bytes as it has. |
| `DdlActions.UnknownActionIsRefused` | dbcon/ddlpackage/serialize.cpp:208-208 | An unknown action code is refused. |
| `DdlActions.GetAddTableConstraint` | dbcon/ddlpackage/serialize.cpp:773-805 | An added constraint with an unknown type code is passed over: reading succeeds with no constraint and takes the four bytes of the code. |
| `DdlStatements.ActionsRead` | dbcon/ddlpackage/serialize.cpp:124-215 | Reading n actions takes at least the bytes of the actions, of the last trailer, and 16 more for every other action. |
| `DdlStatements.ActionsRoundTrip` | dbcon/ddlpackage/serialize.cpp:124-215 | Actions and trailer come back with exactly their bytes taken if and only if there is exactly one action and its lengths fit. |
| `DdlStatements.CreateTableRoundTrip` | dbcon/ddlpackage/serialize.cpp:68-103 | For every CREATE TABLE statement and anything after it, reading the type code and the statement recovers it and leaves exactly the rest, if and only if all column lengths fit in 32 bits and the options are in key order. |
| `DdlStatements.AlterTableRoundTrip` | dbcon/ddlpackage/serialize.cpp:110-247 | For every ALTER TABLE statement and anything after it, reading recovers it and leaves exactly the rest, if and only if it has exactly one action and its column lengths fit. |
| `DdlStatements.TwoCommentsAreRefused` | dbcon/ddlpackage/serialize.cpp:110-247 | A statement with two empty table comments is refused by its own reader. |
| `DdlLayout.CreateTableLayout` | dbcon/ddlpackage/serialize.cpp:82-103 | Every CREATE TABLE statement is written as one given list of fields in order, with all type codes: numbers of 4 and 8 bytes, least significant byte first, and strings behind their length. |
| `DdlLayout.AlterTableLayout` | dbcon/ddlpackage/serialize.cpp:221-247 | The same for every ALTER TABLE statement and each of its twelve actions. |
| `DdlStream.WriteVec` | dbcon/ddlpackage/serialize.cpp:38-46 | The loop appends the count and every element in order, for any element form. |
| `DdlStream.ReadVec` | dbcon/ddlpackage/serialize.cpp:48-61 | The counting loop reads exactly the counted elements in order, or fails where the wire reader fails; for any element form. |
| `DdlStream.ReadOptions` | dbcon/ddlpackage/serialize.cpp:1648-1656 | The loop inserts every pair read, and the map it ends with is the one the wire reader gives. |
| `DdlStream.SerializeTableDef` | dbcon/ddlpackage/serialize.cpp:1662-1699 | Name, columns, constraints and options are appended as the wire form, vectors by the one loop. |
| `DdlStream.UnserializeTableDef` | dbcon/ddlpackage/serialize.cpp:1595-1659 | Reads and fails as the wire reader does, with what follows left unread. |
| `DdlStream.SerializeCreateTable` | dbcon/ddlpackage/serialize.cpp:82-103 | Appends the wire form with its type code, whatever the stream held. |
| `DdlStream.UnserializeCreateTable` | dbcon/ddlpackage/serialize.cpp:68-79 | Reads and fails as the wire reader does, with what follows left unread. |
| `DdlStream.ReadActions` | dbcon/ddlpackage/serialize.cpp:124-215 | The loop reads the counted actions, each followed by a trailer, and keeps the last trailer. |
| `DdlStream.SerializeAlterTable` | dbcon/ddlpackage/serialize.cpp:221-247 | Appends type code, name, time zone, actions and one trailer. |
| `DdlStream.UnserializeAlterTable` | dbcon/ddlpackage/serialize.cpp:110-218 | Reads and fails as the wire reader does, with what follows left unread. |
| `DdlStream.UnserializeStatement` | ddlproc/ddlprocessor.cpp:482-521 | The receiver dispatches on the type codes of the two modelled statements. |
| `DdlStream.CreateTableTrip` | dbcon/ddlpackage/serialize.cpp:68-103 | A CREATE TABLE statement written to a stream and followed by any bytes is received unchanged, with exactly those bytes left, if and only if all column lengths fit in 32 bits and the options are in key order. |
| `DdlStream.AlterTableTrip` | dbcon/ddlpackage/serialize.cpp:110-247 | The same for ALTER TABLE, if and only if there is exactly one action and its column lengths fit. |
| `RidMapping.ConvertRidToColumn` | dbcon/ddlpackageproc/ddlpackageprocessor.cpp:1388-1409 | With the width of every product modelled: a division by zero exactly when the 32-bit product or the dbroot count is zero; when the true product fits 32 bits the row is located exactly if its partition number fits 32 bits, and otherwise the assertion fires. |
| `RidMapping.RidInSegmentFile` | dbcon/ddlpackageproc/ddlpackageprocessor.cpp:1404-1408 | Below 2^32 no intermediate product wraps and the local row id is the one in the segment file. |
| `RidMapping.LocateIsValid` | dbcon/ddlpackageproc/ddlpackageprocessor.cpp:1388-1409 | Segments are below the files per partition and local row ids below the rows of a segment file. |
| `RidMapping.RowIdOfLocate` | dbcon/ddlpackageproc/ddlpackageprocessor.cpp:1388-1409 | The inverse formula gives the row id back. |
| `RidMapping.LocateOfRowId` | dbcon/ddlpackageproc/ddlpackageprocessor.cpp:1388-1409 | Every position is the position of the row id the inverse formula gives. |
| `RidMapping.Bijection` | dbcon/ddlpackageproc/ddlpackageprocessor.cpp:1388-1409 | Row ids and positions correspond one to one. |
| `RidMapping.RowIsAt` | dbcon/ddlpackageproc/ddlpackageprocessor.cpp:1388-1409 | Row r of the k-th round over the segment files, in segment s of partition p, is found in partition p, segment s, at local row id k times the rows of an extent plus r. |
| `RidMapping.RightExactly` | dbcon/ddlpackageproc/ddlpackageprocessor.cpp:1393-1399 | Every row id whose partition number fits is put into its partition if and only if the rows of a partition are fewer than 2^32. |
| `RidMapping.StrideWraps` | dbcon/ddlpackageproc/ddlpackageprocessor.cpp:1393-1393 | A layout whose 32-bit product is zero. |
| `RidMapping.DbRootRotates` | dbcon/ddlpackageproc/ddlpackageprocessor.cpp:1398-1398 | For all segments, first dbroots and counts: two segments share a dbroot if and only if their distance, less 2^32 for every wrap of the 32-bit sum, is a multiple of the dbroot count. |
| `RidMapping.DbRootsInTurn` | dbcon/ddlpackageproc/ddlpackageprocessor.cpp:1398-1398 | Where the 32-bit sum does not wrap, two segments share a dbroot if and only if they are congruent modulo the dbroot count. |
| `RidMapping.RootsFollow` | dbcon/ddlpackageproc/ddlpackageprocessor.cpp:1398-1398 | The first segment is on the first dbroot, and every next one on the next dbroot, with 1 after the last. |
| `RidMapping.DbRoot` | dbcon/ddlpackageproc/ddlpackageprocessor.cpp:1398-1398 | The dbroot lies between 1 and the count. |
| `MinMax.InvalidRange` | datatypes/mcs_datatype.h:723-749 | The invalid ranges are empty in their order and hold no value. |
| `MinMax.InvalidIsEmpty` | datatypes/mcs_datatype.h:761-774 | For signed columns of any width and unsigned ones of up to 8 bytes a range is reported invalid if and only if no value lies in it. |
| `MinMax.WideUnsignedAgrees` | datatypes/mcs_datatype.h:761-774 | For unsigned columns wider than 8 bytes the report says whether a value lies in the range if and only if both ends have the same sign. |
| `MinMax.InvalidLooksValid` | datatypes/mcs_datatype.h:734-745 | The invalid range of unsigned columns holds no value and is reported valid for those wider than 8 bytes. |
| `MinMax.MinMaxInfo.WidenSInt64` | datatypes/mcs_datatype.h:788-792 | Widening takes the smaller minimum and the larger maximum and leaves the other fields. |
| `MinMax.MinMaxInfo.WidenUInt64` | datatypes/mcs_datatype.h:793-799 | The same for unsigned values kept in signed words. |
| `MinMax.MinMaxInfo.WidenSInt128` | datatypes/mcs_datatype.h:800-804 | The same for 128-bit values. |
| `MinMax.WidenMinMaxInfo` | datatypes/mcs_datatype.h:805-822 | The static forms widen a copy; the result is determined by its ends. |
| `MinMax.LeastEnclosing` | datatypes/mcs_datatype.h:788-822 | Folding from the invalid range gives the least interval around all extents, empty exactly when all of them are. |
| `MinMax.FoldOfSameExtents` | datatypes/mcs_datatype.h:788-822 | Order and repetition of the extents do not matter. |
| `MinMax.FoldInGroups` | datatypes/mcs_datatype.h:788-822 | Grouping of the extents does not matter. |
| `MinMax.IsSuitableSInt64` | datatypes/mcs_datatype.h:851-866 | Suitable means non-empty and within the bounds, strictly at an end whose rounding flag says so. |
| `MinMax.IsSuitableUInt64` | datatypes/mcs_datatype.h:867-882 | The same in unsigned order. |
| `MinMax.IsSuitableSInt128` | datatypes/mcs_datatype.h:883-898 | The same in 128 bits. |
| `MinMax.SuitableFold` | datatypes/mcs_datatype.h:851-898 | A widened range is suitable if and only if some extent is non-empty and every non-empty extent lies within the bounds. |
| `MinMax.SuitableFoldOfAll` | datatypes/mcs_datatype.h:851-898 | The same for a fold from the invalid range. |
| `MinMax.AddPartition` | dbcon/mysql/ha_mcs_partition.cpp:302-324 | The map keeps, per partition, the fold of its extents and whether its first extent was reliable. |
| `MinMax.SuitablePartitions` | dbcon/mysql/ha_mcs_partition.cpp:438-449 | The second loop picks exactly the valid and suitable partitions. |
| `MinMax.PartitionsByValue` | dbcon/mysql/ha_mcs_partition.cpp:427-449 | A partition is chosen if and only if the first entry of it has a reliable range, some entry of it has values, and every entry of it that has values lies within the bounds. |
| `MinMax.RangesAre` | dbcon/mysql/ha_mcs_partition.cpp:302-324 | The ranges folded for a partition are those of all its entries. |
| `MinMax.EntryOutsideRulesOut` | dbcon/mysql/ha_mcs_partition.cpp:302-324 | A partition with entries [1,1] and [100,100] is not chosen for the interval [1,1]. |
| `MinMax.LaterUnreliableRangeIsTrusted` | dbcon/mysql/ha_mcs_partition.cpp:310-323 | A partition is chosen although its second extent has an unreliable range. |

## Left out

- Decimal division, and conversions to and from binary floating point.
- `Float128Quotient.QuotientRounds`: above its bounds some numbers still round to nearest and some do not; which ones is not stated, only how far off they can be.
- `DecimalArithmetic.MultiplyUp`: the narrow product to a smaller scale, which is scaled down in 53-bit floating point; narrow addition and subtraction beyond their overflow tests. A product that overflows wraps before it is tested, as compilers do, although the language leaves it undefined.
- `Decimals.FromString`: the wide value 0 of an unused half is not modelled as uninitialised.
- `integralWideRound`, which goes through 64-bit division, and scale divisors above 38.
- `Float128Mod.Fmodq`: NaN payloads and the floating-point flags.
- `clearTableAccess`, which empties the map without the mutex or a notification; transactions that cannot be started; more than one live handler of a transaction; table OID 0.
- Liveness of the table queue beyond pending notifications: that a notified thread is scheduled is up to the operating system.
- `BatchInsert.BatchInsertProc.SendNextBatch`: the chosen PM is a listed one. The code does not test for another, such as PM 0; what the wait then does is `StrangerIsAwaited`.
- `BatchInsert.InsertBatches`: each operation is given replies that answer the packages then unanswered; a connection that stays lost for ever is not modelled, and the code then repeats the read without end. Exceptions thrown by the connection itself are not modelled.
- `selectNextPM` of the batch loader, the last batch message, high water marks and table locks: the choice of the PM is a parameter.
- `DdlStream.UnserializeStatement`: dispatches on CREATE TABLE and ALTER TABLE only. The other DDL statements (indexes, drop, truncate, partitions) use the same codec with fewer fields.
- Update in place of the statement objects while they are read: the readers of single records are functions on the bytes, and only the loops of serialization are imperative.
- Comments of columns, which are not serialized; a new column type that is missing when a rename is written, which the code replaces by a default type; big-endian hosts; strings of 2^31 bytes and more and vectors of 2^32 elements and more, which do not fit the wire widths.
- Growth of the stream's buffer: the stream is the sequence of its unread bytes.
- Extent map access, character columns and the printing of partition values; logical partitions are opaque keys.
- Bulk rollback, daemon start-up, telemetry, logging, the SQL grammar and type promotion.
