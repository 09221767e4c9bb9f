# monies — a Dafny model of the Money value and its integer arithmetic

This project models the core of the Go library `monies`. That core is the
`Money` value of `money.go` and the integer helpers of `math.go`.

A `Money` is a signed 64-bit count of minor units (cents, pence, fils), bound
to a copy of a currency descriptor. The descriptor holds the ISO code, the
symbol, the display template, the decimal and thousands separators, and the
number of fraction digits. The library provides:

- construction by currency code through a registry;
- currency-guarded comparisons and arithmetic;
- rounding to whole major units, with ties going toward zero;
- `Split` and `Allocate`, which divide an amount into shares without losing
  or creating a minor unit;
- `Display`, which renders the amount as text.

Modules, one per part of the program:

- `MoneyMath` (`math.dfy`) covers `math.go`: `add`, `subtract`, `multiply`,
  the truncating `divide` and `modulus`, `allocate`, `absolute`, `negative`
  and `round`.
- `Currencies` (`currency.dfy`) holds the currency descriptor and the
  registry, a map from code to descriptor.
- `Distribution` (`distribution.dfy`) gives the integer specification of the
  shares that `Split` and `Allocate` produce, with the proofs that they
  conserve the amount, are fair and fit an int64.
- `Text` (`text.dfy`) gives the specification of `Display`: zero padding,
  thousands grouping, the decimal separator, template filling and the minus
  sign.
- `Monies` (`money.dfy`) covers `money.go`: the `Money` datatype and its
  operations. `Split`, `Allocate` and `Display` loop and update in place in
  the source, so here they are methods with loops. Each is proved against
  the function in `Distribution` or `Text` that specifies it.
- `Cases` (`cases.dfy`) states the cases of `money_test.go` about the model.

Go's `/` and `%` truncate toward zero. Dafny's are Euclidean, so
`MoneyMath.Divide` and `MoneyMath.Modulus` spell out the truncating versions.
Go's `(value, error)` pairs are `Outcome(value, err)`, where `err` is `None`
for Go's `nil`.

## Model

| member | source | states |
|---|---|---|
| MoneyMath.Pow10 | math.go:53 | The power of ten used as the rounding step is at least 1; for one or more fraction digits it is even and at least 10. |
| MoneyMath.Wrap | math.go:31-37 | Two's-complement wrap-around: the result is an int64 congruent to the input modulo 2^64, and equals the input whenever the input fits. |
| MoneyMath.Add | math.go:7-9 | Subtracting `b` from the result gives back `a`, so the result is the exact sum. |
| MoneyMath.Subtract | math.go:11-13 | Adding `b` to the result gives back `a`, so the result is the exact difference. |
| MoneyMath.Multiply | math.go:15-17 | The result is the exact product, where it fits an int64. Dividing it by a non-zero multiplier gives back the multiplicand. |
| MoneyMath.AddSubtractInverse | math.go:7-13 | `add` and `subtract` undo each other. |
| MoneyMath.Divide | math.go:19-21 | The quotient truncates toward zero: its magnitude is the quotient of the magnitudes, and it is zero or positive exactly when the operands' signs agree. The one quotient that overflows, MinInt64 / -1, wraps to MinInt64 as in Go. |
| MoneyMath.Modulus | math.go:23-25 | The remainder has magnitude `abs(a) mod abs(d)` and takes the dividend's sign, so MinInt64 % -1 is 0. Everywhere else it satisfies `a == divide(a, d) * d + r`. |
| MoneyMath.DivideNonNegative | math.go:19-25 | For a non-negative dividend and positive divisor, truncating and Euclidean division agree. |
| MoneyMath.TruncatedIdentity | math.go:19-25 | The truncated quotient and the sign-carrying remainder rebuild the dividend, for all integers. |
| MoneyMath.Allocate | math.go:27-29 | The share `a*r/s` is short of the exact share by less than one unit, except that MinInt64 / -1 wraps to MinInt64. The shortfall `a*r - q*s` takes the sign of `a*r`. For `s > 0` and `0 <= r <= s`, the share is zero or has the sign of `a`, and its magnitude is at most `abs(a)`. |
| MoneyMath.Absolute | math.go:31-37 | The result is non-negative and is either `a` or `-a`. |
| MoneyMath.Negative | math.go:39-45 | The result is non-positive and is either `a` or `-a`. |
| MoneyMath.NegativeIsMinusAbsolute | math.go:31-45 | `negative(a) == -absolute(a)`. `negative` is idempotent, and `absolute` ignores a prior `negative`. |
| MoneyMath.Round | math.go:47-69 | The intended rounding. Zero stays zero. The result is a multiple of 10^e, at most half a step from `a`, and keeps `a`'s sign or is zero. It is larger in magnitude exactly when the remainder exceeds half a step, so ties go toward zero. This holds for MinInt64 too, where the source differs (see Findings). |
| MoneyMath.RoundAsWritten | math.go:47-69 | The source's int64 steps, wrap-around included. Zero stays zero. |
| MoneyMath.AbsoluteAsWritten | math.go:31-37 | Go's `absolute` on int64 gives the magnitude of every amount but MinInt64, which wraps to itself. |
| MoneyMath.RaiseAsWritten | math.go:54-58 | On a non-negative magnitude whose raised value fits, the step taken on the truncated remainder is the Euclidean rule: one step up exactly when the remainder exceeds half a step. |
| MoneyMath.TruncateAsWritten | math.go:60 | On a non-negative value, `(absam / exp) * exp` is the largest multiple of the step not above it. It is non-negative and never wraps. |
| MoneyMath.NegateAsWritten | math.go:62-63 | Go's unary minus gives `-m` for every value but MinInt64, which wraps to itself. |
| MoneyMath.RoundAsWrittenSteps | math.go:47-69 | When nothing wraps, the source's steps come to the magnitude rounded by the Euclidean rule, with the amount's sign put back. |
| MoneyMath.RoundAgrees | math.go:47-69 | The source's computation equals the intended rounding for every amount but MinInt64, as long as `absam += exp` does not pass MaxInt64. |
| MoneyMath.RoundMinInt64AsWritten | math.go:52-66 | The source rounds MinInt64 at two fraction digits to +9223372036854775800, a positive result for a negative amount. |
| MoneyMath.RoundMinInt64Corrected | math.go:47-69 | The intended rounding takes MinInt64 at two fraction digits to -9223372036854775800. |
| MoneyMath.RoundNearMaxAsWritten | math.go:56-58 | The source rounds 9223372036854775799 at two fraction digits to -9223372036854775700, and its negation to +9223372036854775700: `absam += exp` passes MaxInt64 and wraps. |
| MoneyMath.RoundNearMaxCorrected | math.go:47-69 | The intended rounding takes 9223372036854775799 and its negation to 9223372036854775800 and its negation, both within int64. |
| MoneyMath.RoundOfMultiple | math.go:47-69 | A multiple of 10^e is left unchanged. |
| MoneyMath.RoundIdempotent | math.go:47-69 | Rounding twice is rounding once. |
| Distribution.Distribute | money.go:276-279 | Handing out units keeps one entry per party. |
| Distribution.SumDistribute | money.go:268-279 | Handing one unit to each of the first `count` parties adds `count` units to the total. |
| Distribution.SplitAmounts | money.go:261-279 | Split yields exactly `n` shares. |
| Distribution.SplitConserves | money.go:261-279 | The `n` Split shares sum exactly to the amount. |
| Distribution.SplitShape | money.go:261-279 | Share `i` is `divide(a, n)`, plus the amount's sign when `i < abs(modulus(a, n))`. |
| Distribution.SplitMagnitude | money.go:261-279 | A share's magnitude is that of the quotient, plus one for the first `abs(a % n)` parties, and it has the amount's sign. |
| Distribution.SplitFair | money.go:261-279 | Shares differ by at most one unit. Earlier shares are never smaller in magnitude than later ones. Each share has the amount's sign and is no larger than the amount. |
| Distribution.TruncatedMagnitudes | math.go:19-25 | `abs(a) == abs(a / n) * n + abs(a % n)` for truncated division by a positive `n`. |
| Distribution.SplitFits | money.go:261-279 | Every Split share fits an int64, so the `add` of the leftover loop cannot overflow. |
| Distribution.SplitLayout | money.go:261-279 | The remainder is smaller than `n` in magnitude. Every share is the quotient, plus one unit of the amount's sign for the first `abs(a % n)` shares, and fits an int64. |
| Distribution.AllocateBases | money.go:298-308 | There is one truncated base share per ratio. |
| Distribution.AllocateGap | math.go:27-29 | A base share falls short of the exact share `a*r/s` by less than one unit, on the side of the amount's sign. |
| Distribution.LeftoverPrefix | money.go:298-311 | Over any prefix of the parties, the accumulated shortfall of the base shares stays within one unit per party, on the amount's side. |
| Distribution.Leftover | money.go:311-320 | The leftover `amount - total` has the amount's sign, and its magnitude is below the number of parties, so the leftover loop never indexes past the last party. |
| Distribution.AllocateAmounts | money.go:287-323 | Allocate yields one share per ratio. |
| Distribution.AllocateConserves | money.go:293-320 | The Allocate shares sum exactly to the amount. |
| Distribution.AllocateShape | money.go:298-320 | Share `i` is `allocate(a, r_i, sum)`, plus the leftover's sign when `i < abs(leftover)`. |
| Distribution.AllocateBounded | money.go:298-320 | Every Allocate share has the amount's sign and is no larger than the amount. |
| Distribution.AllocateFitsEach | money.go:298-320 | Every Allocate share fits an int64. |
| Text.DigitChar | money.go:91 | A digit character denotes its digit value. |
| Text.FormatDecimal | money.go:91 | The decimal digits of `n` are canonical (no leading zero unless `n` is 0) and denote `n`. |
| Text.Repeat | money.go:95 | Repeating a character `k` times gives `k` copies of it. |
| Text.ValueOfConcat | money.go:95 | Prepending digits scales their value by the right power of ten, so zero padding keeps the value. |
| Text.ValueOfZeros | money.go:95 | A run of zeros denotes 0. |
| Text.PaddedDigits | money.go:91-96 | The padded digits denote `n` and are more than `fraction` in number. |
| Text.PaddedParts | money.go:94-106 | The digits before the decimal separator are canonical and denote `n / 10^fraction`. The digits after it are exactly `fraction` digits denoting `n mod 10^fraction`. |
| Text.LeadLengthFacts | money.go:98-102 | The leading group has one to three digits, and the rest is a whole number of three-digit groups. |
| Text.TriplesRoundTrip | money.go:98-102 | The grouped tail is exactly the separator followed by three digits, repeated, with nothing after the last group; taking each separator out gives back the digits. |
| Text.GroupThousands | money.go:98-102 | Inserting thousands separators loses and moves no digit: after the lead group of one to three digits the text is exactly `sep` and three digits, repeated, and the lead group followed by those triples gives back the integer digits. |
| Text.FormatNumber | money.go:91-106 | The number starts with a digit and begins with the integer digits, grouped by the thousands separator when the currency has one; when the currency has minor units, exactly the decimal separator and `fraction` digits denoting the minor units follow, and otherwise nothing does. |
| Text.FirstIndex | money.go:107-108 | The index of the first occurrence really holds the character, and no earlier index does. |
| Text.ReplaceFirst | money.go:107-108 | Without an occurrence the text is unchanged. Otherwise exactly the first occurrence is replaced. |
| Text.ReplaceFirstAfter | money.go:107-108 | Text before the first occurrence passes through the replacement unchanged. |
| Text.ReplaceFirstHead | money.go:107-108 | A first character other than the pattern stays first. A first character equal to the pattern is the one replaced. |
| Text.Fill | money.go:107-108 | When the template holds both `1` and `$`, the number and the symbol each replace their placeholder where it stands, whichever comes first. A symbol after the number needs a number without `$` in it. |
| Text.Shown | money.go:89-116 | The display starts with a minus sign exactly when the amount is negative. This holds for templates and symbols that do not start with one themselves. |
| Text.ShownNegative | money.go:110-113 | A negative amount is displayed as `-` followed by the display of its magnitude. |
| Monies.New | money.go:69-79 | The error is absent exactly when the code is registered. An unknown code yields the zero Money with `CurrencyNotFound`. Otherwise the amount is kept verbatim with the registered descriptor, whose code is the requested one when the registry is keyed by code. |
| Monies.SameCurrency | money.go:139-141 | Holds exactly when the currency codes are equal. |
| Monies.SameCurrencyEquivalence | money.go:139-141 | SameCurrency is reflexive, symmetric and transitive. |
| Monies.AssertSameCurrency | money.go:143-149 | `CurrencyMismatch` is reported exactly when the codes differ. |
| Monies.Compare | money.go:151-162 | The result is 1, -1 or 0 exactly when the first amount is greater, smaller or equal. |
| Monies.CompareAntisymmetric | money.go:151-162 | Swapping the operands negates the comparison. |
| Monies.Equals | money.go:164-170 | Different codes give `false` with `CurrencyMismatch`. Otherwise the result is amount equality with no error. |
| Monies.GreaterThan | money.go:172-178 | Different codes give `false` with `CurrencyMismatch`. Otherwise the result is `>` on the amounts. |
| Monies.GreaterThanOrEqual | money.go:180-186 | Different codes give `false` with `CurrencyMismatch`. Otherwise the result is `>=` on the amounts. |
| Monies.LessThan | money.go:188-194 | Different codes give `false` with `CurrencyMismatch`. Otherwise the result is `<` on the amounts. |
| Monies.LessThanOrEqual | money.go:196-202 | Different codes give `false` with `CurrencyMismatch`. Otherwise the result is `<=` on the amounts. |
| Monies.ComparisonsMirror | money.go:164-202 | `m > om` is `om < m`, and `m >= om` is `om <= m`. Equality is symmetric. In one currency, `>=` is the negation of `<`. |
| Monies.SignTrichotomy | money.go:206-216 | Exactly one of IsZero, IsPositive and IsNegative holds. |
| Monies.IsZero | money.go:206-208 | Holds exactly when Equals against zero in the same currency gives true with no error. |
| Monies.IsPositive | money.go:210-212 | Holds exactly when GreaterThan against zero in the same currency gives true with no error. |
| Monies.IsNegative | money.go:214-216 | Holds exactly when LessThan against zero in the same currency gives true with no error. |
| Monies.Absolute | money.go:220-222 | The result has the same currency, a non-negative amount and the same magnitude. |
| Monies.Negative | money.go:224-226 | The result has the same currency, a non-positive amount and the same magnitude. |
| Monies.Add | money.go:228-234 | A mismatch returns the second operand unchanged, with `CurrencyMismatch`. Otherwise the result is the exact sum in the receiver's currency, with no error. |
| Monies.Subtract | money.go:236-242 | A mismatch returns the second operand unchanged, with `CurrencyMismatch`. Otherwise the result is the exact difference in the receiver's currency, with no error. |
| Monies.AddThenSubtract | money.go:228-242 | Subtracting what was added gives back the receiver, with no error. |
| Monies.Multiply | money.go:244-246 | The amount times the multiplier, in the same currency. Dividing by a non-zero multiplier gives back the original amount. |
| Monies.MultiplyDistributes | money.go:228-246 | In one currency, multiplying a sum equals adding the multiplied operands. |
| Monies.Round | money.go:248-250 | The amount becomes a multiple of 10^fraction, within half a step of the original. It grows in magnitude exactly when the remainder is strictly more than half a step, so 50 cents round to 0. It keeps its sign or becomes zero, and the currency is unchanged. |
| Monies.Split | money.go:256-282 | `n <= 0` gives `NegativeSplit` and no shares. Otherwise there are `n` shares in the receiver's currency, with the amounts of `SplitAmounts`, summing exactly to the amount. |
| Monies.EqualShares | money.go:262-266 | The fill loop gives `n` fresh parties, each holding the quotient in the receiver's currency. |
| Monies.AddLeftover | money.go:276-279 | The leftover loop adds `v` to each of the first `l` parties, counting `l` down, and changes nothing else. |
| Monies.Allocate | money.go:287-323 | No ratios gives `NoRatios` and no shares. Otherwise there is one share per ratio in the receiver's currency, with the amounts of `AllocateAmounts`, summing exactly to the amount. |
| Monies.SumRatios | money.go:293-296 | The loop computes the sum of the ratios. |
| Monies.BaseShares | money.go:298-308 | The loop builds the truncated base shares in the receiver's currency, and their running total. |
| Monies.HandOutLeftover | money.go:311-320 | The loop adds one unit of the leftover's sign to each of the first `abs(leftover)` parties, and changes nothing else. |
| Monies.Display | money.go:89-116 | The string built step by step is the specified display `Text.Shown` of the amount in its currency. |
| Monies.NumberText | money.go:91-106 | The padding, grouping and decimal-separator steps build exactly the specified number `Text.FormatNumber` of the magnitude. |
| Monies.GroupDigits | money.go:98-102 | The splicing loop inserts the thousands separator every three digits from the right of the integer digits, and leaves the fraction digits alone. |
| Cases.RoundCases | money_test.go:377-402 | 125, 175, 349, 351, 0, -1 and -75 cents round to 100, 200, 300, 400, 0, 0 and -100. |
| Cases.RoundThousandthsCase | money_test.go:377-402 | With three fraction digits, 12555 rounds to 13000. |
| Cases.MultiplyCases | money_test.go:356-375 | 100 times 1, 0 and 2 is 100, 0 and 200, in EUR. |
| Cases.SignCases | money_test.go:210-264 | The IsZero, IsNegative and IsPositive cases for -1, 0 and 1. |
| Cases.SplitCases | money_test.go:404-435 | 100/3 is 34, 33, 33. 100/4 is 25 each. 5/3 is 2, 2, 1. -101/4 is -26, -25, -25, -25. -2/3 is -1, -1, 0. |
| Cases.AllocateEvenCase | money_test.go:437-468 | 100 by 50:50 is 50, 50. |
| Cases.AllocateThirdsCase | money_test.go:437-468 | 100 by 30:30:30 is 34, 33, 33. |
| Cases.AllocateQuartersCase | money_test.go:437-468 | 200 by 25:25:50 is 50, 50, 100. |
| Cases.AllocateSmallCase | money_test.go:437-468 | 5 by 50:25:25 is 3, 1, 1. |
| Cases.AllocateNegativeCase | money_test.go:437-468 | -101 by 50:50 is -51, -50. |
| Cases.DisplayPoundCase | money_test.go:470-486 | 100 pence display as `£1.00`. |
| Cases.DisplayNegativePoundCase | money_test.go:477 | -100 pence display as `-£1.00`. |
| Cases.DisplaySymbolAfterCase | money_test.go:470-486 | With template `1 $`, the symbol follows the number and a space. |
| Cases.DisplayPaddedCase | money_test.go:470-486 | 10 pence display as `£0.10`: the digits are zero-padded. |
| Cases.DisplayGroupedCase | money_test.go:470-486 | 100000 pence display as `£1,000.00`: the thousands separator is inserted. |

## Left out

- Integer wrap-around: Go's int64 `add`, `subtract`, `multiply` and `allocate` wrap silently on overflow, and so does `absolute(MinInt64)`. `MoneyMath.Add`, `MoneyMath.Subtract`, `MoneyMath.Multiply`, `MoneyMath.Allocate` and their `Monies` counterparts instead require the exact result to fit an int64. `MoneyMath.Divide`, `MoneyMath.Modulus` and `MoneyMath.Allocate` do model Go's one defined overflow, MinInt64 / -1, which gives MinInt64 with remainder 0.
- MoneyMath.Absolute, Monies.Absolute: require an amount other than MinInt64. Go returns MinInt64 there, which is negative.
- Monies.Display, Text.Shown: require an amount other than MinInt64. In Go, `absolute` leaves MinInt64 negative, so its digits keep their own minus sign and the display gets a second one (`-£-92,233,720,368,547,758.08` for GBP). This case is not modelled.
- MoneyMath.Round, Monies.Round: require `RoundFits`, which asks that 10^fraction fit an int64 and that a magnitude rounded up still fit. Go wraps around in both cases. Go also wraps when `absam + 10^fraction` passes MaxInt64 although the rounded result fits; `Round` gives the intended result there, and the source's behaviour is under Findings. MinInt64 is admitted and rounded as intended; the source's sign flip there is under Findings too.
- Monies.Allocate: requires non-negative ratios with a positive sum that fits an int64, and products `amount * ratio` that fit. Go divides by zero on a zero sum, and it does not check ratio signs.
- MoneyMath.Pow10: `int64(math.Pow(10, e))` goes through floating point. The model uses the exact power of ten. The two agree for the fraction digits of real currencies.
- `AsMajorUnits` (money.go:118-124) returns a float64. Floating point is not modelled.
- The JSON and text (un)marshalling hooks (money.go:16-60, 126-136) do I/O-style encoding and are not modelled.
- `Currency()` and `Amount()` (money.go:81-87) are plain field reads: they are the datatype's `currency` and `amount` fields.
- `currency.go` is not part of this model. The registry is a map from code to descriptor, passed to `New`. Its built-in table, registration and locking are left out; only the lookup is modelled.
- Strings are sequences of characters, not UTF-8 bytes. The lengths and indices in `Display` count characters. The source's only index arithmetic is on ASCII digits, so the two agree there.
- Monies.Split and Monies.Allocate return sequences of Money values where Go returns a slice. The inline loops of `Split`, `Allocate` and `Display` are helper methods (`EqualShares`, `AddLeftover`, `SumRatios`, `BaseShares`, `HandOutLeftover`, `NumberText`, `GroupDigits`) with the same steps.
- Text.Shown: the "exactly when negative" direction needs a template and symbol that do not start with a minus sign themselves. `Text.ShownNegative` covers negative amounts for every currency.

## Findings

| source | as written | input that shows it | evidently intended | confidence | as-written member | corrected member |
|---|---|---|---|---|---|---|
| math.go:52-66 | `absolute(MinInt64)` wraps to MinInt64. Its truncated remainder by 100 is -8, which is not above 50. The negative magnitude is truncated to -9223372036854775800, and `a = -absam` makes the result positive. | `round(MinInt64, 2)`, as reached by `Money.Round` on an amount of MinInt64 in a two-digit currency | -9223372036854775800: the nearest multiple of 100, with the amount's sign | high; not executed | MoneyMath.RoundMinInt64AsWritten | MoneyMath.RoundMinInt64Corrected |
| math.go:56-58 | `absam += exp` is computed in int64 before the truncation. A magnitude within one step of MaxInt64 wraps to a negative value, even when the rounded result fits. | `round(9223372036854775799, 2)` gives -9223372036854775700, and `round(-9223372036854775799, 2)` gives 9223372036854775700 | 9223372036854775800 and its negation, which fit an int64 | high; not executed | MoneyMath.RoundNearMaxAsWritten | MoneyMath.RoundNearMaxCorrected |
