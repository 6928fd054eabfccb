# go-bps in Dafny

This project models the `bps` package of `go.mercari.io/go-bps`. The package has
one value type, `BPS`. A `BPS` is an exact rational number of *amounts*:

| unit | per amount |
|---|---|
| amount | 1 |
| percentage | 100 |
| basis point | 10,000 |
| half basis point | 20,000 |
| deci basis point | 100,000 |
| ppm | 10^6 |
| ppb | 10^9 |

The package offers:

- constructors from a count of each unit;
- integer accessors that read a value back in each unit;
- the exact rational (`Rat`);
- exact addition and division by an integer;
- equality;
- a decimal-string parser (`NewFromString`) and its panicking twin (`MustFromString`);
- a package-wide `BaseUnit` that `NewFromBaseUnit` and `BaseUnitAmounts` read. It defaults to deci basis points.

The package's implementation files are not part of this model. Its two test files are. Where those tests pin a behaviour down, the contracts below state it for all inputs and prove it. Where they do not, the model makes its own choice, and "## Left out" names each one.

Modules:

- `NumberTheory` (number_theory.dfy): Euclid's gcd and the integer facts behind lowest terms, including Euclid's lemma.
- `Rationals` (rationals.dfy): fractions with a positive denominator, `Normalize` to lowest terms, and `ReducedUnique`, which says lowest terms are unique.
- `Wrappers` (wrappers.dfy):
  - `Option`, for Go's nil `*big.Int`;
  - `Result`, for `(value, error)`;
  - `Outcome`, for a call that returns or panics.
- `Units` (units.dfy): the six units selectable as `BaseUnit` and their scales.
- `Bps` (bps.dfy): the value type, constructors, accessors, `Rat`, `Add`, `Div`, `Equal` and their algebra.
  - The model keeps each `BPS` fraction in lowest terms. So the tests' `reflect.DeepEqual` is Dafny's `==`.
  - `Equal` is proved to coincide with both `==` and equality of values.
- `Config` (config.dfy): `BaseUnit` is the field `baseUnit` of class `Settings`. Programs reassign it, as Go code reassigns the package variable. `NewFromBaseUnit` and `BaseUnitAmounts` read it.
- `Parse` (parse.dfy): the parser.
  - `Scan` splits a text into sign, whole digits and fraction digits.
  - `Render` writes a numeral back.
  - Both round trips are proved.
  - The value a numeral denotes is defined independently, digit by digit (`NumeralValue`). The parsed result is proved equal to it.
- `ConvExamples` (conv_examples.dfy) and `ConstructExamples` (construct_examples.dfy): the test tables and examples of the two test files, as lemmas and methods.
  - The `BaseUnit` examples and the thousand-fold accumulation loop are methods.
  - They reassign `baseUnit` step by step.
  - The loop carries the invariant that after i steps the sum is i/100 amounts.

## Model

| member | source | states |
|---|---|---|
| Units.Scale | bps/construct_test.go:15-40 | every unit has a positive scale that divides 10^9, so each unit is a whole number of ppb |
| Bps.NewFromScaled | bps/construct_test.go:15-40 | n units of a scale with `scale` units per amount denote exactly n/scale amounts |
| Bps.NewFromAmount | bps/construct_test.go:15 | n amounts denote exactly n |
| Bps.NewFromPercentage | bps/construct_test.go:17 | n percent denotes exactly n/100 |
| Bps.NewFromBasisPoint | bps/construct_test.go:22 | n basis points denote exactly n/10^4 |
| Bps.NewFromDeciBasisPoint | bps/construct_test.go:27 | n deci basis points denote exactly n/10^5 |
| Bps.NewFromPPM | bps/construct_test.go:32 | n ppm denote exactly n/10^6 |
| Bps.NewFromPPB | bps/conv_test.go:241-243 | n ppb denote exactly n/10^9; a nil argument gives the zero value |
| Bps.Floored | bps/conv_test.go:55-62 | reading in a unit gives floor(value * scale): fractions of a unit are dropped |
| Bps.Amounts | bps/conv_test.go:12-44 | the number of whole amounts, floor(value) |
| Bps.Percentages | bps/conv_test.go:46-82 | floor(value * 100) |
| Bps.BasisPoints | bps/conv_test.go:84-116 | floor(value * 10^4) |
| Bps.HalfBasisPoints | bps/conv_test.go:118-150 | floor(value * 2 * 10^4) |
| Bps.DeciBasisPoints | bps/conv_test.go:152-184 | floor(value * 10^5) |
| Bps.PPMs | bps/conv_test.go:186-222 | floor(value * 10^6) |
| Bps.PPBs | bps/conv_test.go:224-256 | floor(value * 10^9) |
| Bps.Rat | bps/conv_test.go:258-305 | the exact value, as a fraction in lowest terms |
| Bps.Add | bps/construct_test.go:214-218 | the sum is exact |
| Bps.Div | bps/conv_test.go:313-316 | division by a non-zero integer: the quotient's value is the value divided by the integer |
| Bps.Equal | bps/construct_test.go:12-41 | true exactly when the two values are equal, and exactly when the two BPS are identical |
| Bps.ScaledRoundTrip | bps/conv_test.go:229-240 | reading a value in the unit it was built from returns the count it was built from |
| Bps.FlooredIsLargestFit | bps/conv_test.go:55-62 | n is at most the accessor's result exactly when n units do not exceed the value: the accessor is the largest count that fits |
| Bps.FlooredCoarsen | bps/conv_test.go:191-206 | reading in a unit k times finer and dividing by k gives the reading in the coarser unit |
| Bps.AddCommutative | bps/construct_test.go:222-225 | addition does not depend on operand order |
| Bps.AddAssociative | bps/construct_test.go:222-225 | repeated addition does not depend on grouping |
| Bps.AddZero | bps/construct_test.go:222-224 | the zero value is the identity of addition |
| Bps.ScaledCancel | bps/construct_test.go:15-40 | scaling the count and the scale by the same factor builds the identical value |
| Bps.ScaledToPPB | bps/construct_test.go:15-40 | n of any unit is identical to n * (10^9 / scale) ppb |
| Bps.PPBsOfUnit | bps/construct_test.go:244-266 | n of unit u read in ppb is n * (10^9 / scale of u) |
| Rationals.Normalize | bps/conv_test.go:279-282 | gives the lowest-terms fraction with the requested value (5/10^4 becomes 1/2000) |
| Rationals.ReducedUnique | bps/conv_test.go:275-282 | two lowest-terms fractions with the same value are identical |
| Rationals.FloorOfQuotient | bps/conv_test.go:21-24 | integer division by a positive divisor is the floor of the exact quotient |
| Config.Settings.constructor | bps/conv_test.go:345-346 | at program start BaseUnit is DeciBasisPoint |
| Config.Settings.NewFromBaseUnit | bps/construct_test.go:234-277 | n of the current BaseUnit denotes n / scale(BaseUnit) |
| Config.Settings.BaseUnitAmounts | bps/conv_test.go:339-377 | floor(value * scale(BaseUnit)) |
| Config.BaseUnitRoundTrip | bps/construct_test.go:239-241 | under one BaseUnit, BaseUnitAmounts inverts NewFromBaseUnit |
| Config.BaseUnitAmountsIsNamedAccessor | bps/conv_test.go:345-366 | under each BaseUnit, BaseUnitAmounts agrees with that unit's named accessor |
| Config.BaseUnitInPPB | bps/construct_test.go:243-266 | whatever BaseUnit is, NewFromBaseUnit(n) read in ppb is n times the ppb in one unit |
| Parse.Split | bps/construct_test.go:79-83 | cutting at every '.' gives one more piece than there are '.'s; the pieces hold no '.' and join back to the text |
| Parse.Scan | bps/construct_test.go:43-98 | an accepted text is a well-formed numeral (digits only, at least one digit, one '.' at most, an optional leading '-') whose rendering is the text |
| Parse.NewFromString | bps/construct_test.go:43-114 | succeeds exactly on well-formed numerals, and then yields the numeral's value; otherwise it reports InvalidFormat |
| Parse.MustFromString | bps/construct_test.go:116-192 | panics exactly where NewFromString reports an error, and otherwise returns NewFromString's value |
| Parse.DigitsValueAppend | bps/construct_test.go:49-53 | appending digits shifts the earlier ones up by a power of ten |
| Parse.FractionValueIsQuotient | bps/construct_test.go:196-200 | fraction digits read digit by digit equal their integer value over 10^length, so no digit is lost |
| Parse.ToBPSValue | bps/construct_test.go:49-78 | the BPS built from a numeral denotes the numeral's value, sign included |
| Parse.SplitNone | bps/construct_test.go:54-58 | a text without '.' is one piece |
| Parse.SplitOnce | bps/construct_test.go:49-53 | a text with one '.' is the two pieces around it |
| Parse.ScanRender | bps/construct_test.go:49-78 | every well-formed numeral's text scans back to that numeral |
| Parse.ParseRoundTrip | bps/construct_test.go:49-78 | NewFromString of a numeral's text yields the BPS built from it, whose value is the numeral's value |
| Parse.RejectsForeignCharacter | bps/construct_test.go:84-98 | a text with any character other than a digit, '.' or a leading '-' is refused with InvalidFormat |
| Parse.RejectsSecondPoint | bps/construct_test.go:79-83 | a text with two or more '.' is refused with InvalidFormat |
| Parse.MustAgreesOnSuccess | bps/construct_test.go:122-151 | MustFromString returns b exactly when NewFromString yields b |
| ConvExamples.AmountsCases | bps/conv_test.go:17-32 | 10^9, 1,999,999,999, 2*10^9 and 999,999,999 ppb are 1, 1, 2 and 0 amounts |
| ConvExamples.PercentagesCases | bps/conv_test.go:51-70 | the percentage table, including 1,009,999,999 ppb giving 100 and 1,010,000,000 ppb giving 101 |
| ConvExamples.BasisPointsCases | bps/conv_test.go:89-104 | the basis point table and its boundary 1,000,099,999 / 1,000,100,000 ppb |
| ConvExamples.HalfBasisPointsCases | bps/conv_test.go:123-138 | the half basis point table and its boundary 1,000,049,999 / 1,000,050,000 ppb |
| ConvExamples.DeciBasisPointsCases | bps/conv_test.go:157-172 | the deci basis point table and its boundary 1,000,009,999 / 1,000,010,000 ppb |
| ConvExamples.PPMsCases | bps/conv_test.go:191-210 | the ppm table: 1,999 ppb is 1 ppm, 2,001 ppb is 2, 999 ppb is 0 |
| ConvExamples.PPBsCases | bps/conv_test.go:229-244 | the ppb table, including a nil argument reading as 0 |
| ConvExamples.PPBsInvertsNewFromPPB | bps/conv_test.go:229-240 | PPBs(NewFromPPB(n)) == n for every n |
| ConvExamples.RatCases | bps/conv_test.go:263-294 | the Rat table as identical lowest-terms fractions (5 bp is 1/2000), and the zero value's 0/1 |
| ConvExamples.DivCases | bps/conv_test.go:313-321 | 1/4 is exactly 25%; 1/3 reads as 333,333,333 ppb |
| ConvExamples.PercentagesInUnit | bps/conv_test.go:343-366 | n percent read in unit u is n * (scale(u) / 100) |
| ConvExamples.ExampleBaseUnitAmounts | bps/conv_test.go:339-377 | one value of 15%, read under each BaseUnit in turn, gives 15000, 150000000, 150000, 3000, 1500 and 15 |
| ConstructExamples.OneAmountEquality | bps/construct_test.go:12-41 | one amount is Equal to 100%, 10^4 bp, 10^5 deci bp, 10^6 ppm and 10^9 ppb |
| ConstructExamples.ParsesScaled | bps/construct_test.go:49-78 | the text of a well-formed numeral parses to its signed digits over 10^(number of fraction digits) |
| ConstructExamples.Accepts123p456 | bps/construct_test.go:49-53 | "123.456" parses to 1234560 bp |
| ConstructExamples.Accepts123 | bps/construct_test.go:54-58 | "123" parses to 1230000 bp |
| ConstructExamples.AcceptsP1234 | bps/construct_test.go:59-63 | ".1234" parses to 1234 bp |
| ConstructExamples.AcceptsMinus123p456 | bps/construct_test.go:64-68 | "-123.456" parses to -1234560 bp |
| ConstructExamples.AcceptsZeros | bps/construct_test.go:69-78 | "0.0" and ".0" both parse to zero amounts |
| ConstructExamples.NewFromStringAccepts | bps/construct_test.go:49-78 | the accepted rows of the NewFromString table |
| ConstructExamples.NewFromStringRejects | bps/construct_test.go:79-98 | "123.45.6", "0b11", "0o75" and "0xF5" are refused with InvalidFormat |
| ConstructExamples.MustFromStringCases | bps/construct_test.go:122-171 | the MustFromString table: the same values, and a panic for each refused text |
| ConstructExamples.ParsesFifteenHundredths | bps/construct_test.go:196-197 | "0.15" is 15%, and reads as 15 percent |
| ConstructExamples.ParsesDeciBasisPoints | bps/construct_test.go:199-200 | "0.02645" is 2645 deci bp, and reads as 2645 deci bp |
| ConstructExamples.OneHundredth | bps/construct_test.go:224 | MustFromString(".01") returns 1% |
| ConstructExamples.OneMillionth | bps/construct_test.go:215 | ".000001" parses to 1 ppm |
| ConstructExamples.TrillionAndOneMillionth | bps/construct_test.go:214-218 | 10^12 amounts plus 1 ppm is 10^18 + 1 ppm |
| ConstructExamples.SumOfHundredths | bps/construct_test.go:222-226 | adding ".01" count times to zero gives exactly count/100 amounts, count percent and count/100 whole amounts |
| ConstructExamples.ExampleMustFromString | bps/construct_test.go:206-232 | the example's four results: 15, 2645, 10^18 + 1 ppm under BaseUnit PPM, and 10 amounts after a thousand hundredths |
| ConstructExamples.OfDeciBasisPoints | bps/construct_test.go:240-241 | n deci basis points are 10n ppm |
| ConstructExamples.ExampleNewFromBaseUnit | bps/construct_test.go:234-277 | 15 of each BaseUnit in turn reads as 150 ppm, then 15, 15000, 750000, 1500000 and 150000000 ppb |

## Left out

- The package's implementation files are not part of this model. The contracts are those the two test files assert, stated for all inputs.
- `Float64` and its exactness flag (bps/conv_test.go:307-337) use floating point. Only `Div` itself is modelled.
- `String()` and the `fmt` output. The example at bps/construct_test.go:218 prints `a.Add(b)` with BaseUnit set to PPM. The model states the ppm count that line shows, as `BaseUnitAmounts`, not the printed text.
- Concurrent access to `BaseUnit`. `Settings` models a single-threaded program.
- Bps.Floored: for negative values the accessors floor (toward minus infinity). The tests fix rounding only for non-negative values, so this direction is a modelling choice. The accessors `Bps.Amounts` … `Bps.PPBs` and `Config.Settings.BaseUnitAmounts` inherit it.
- Bps.Amounts: returns an unbounded `int`. The int64 result type of the package, and any overflow, is not modelled. The same holds for `Config.Settings.BaseUnitAmounts` and the int64 argument of `NewFromBaseUnit`.
- Bps.Div: requires a non-zero divisor. No test divides by zero, so the model leaves that case out.
- Bps.Div: the model divides exactly, so a value keeps precision below 1 ppb; that is the model's reading, not something the tests fix. The `.333333333` expected for `NewFromAmount(1).Div(3)` at bps/conv_test.go:318-320 suggests the package may keep only whole ppb. The same reading applies to `NewFromString` with more than nine fraction digits, which the model keeps exact.
- Bps.NewFromPPM: a nil argument reads as zero. This is a modelling choice that mirrors `NewFromPPB` (bps/conv_test.go:241-243); no test passes nil to `NewFromPPM`.
- Parse.Scan: the tests do not fix the result for these texts:
  - "123." and "-.5" are accepted;
  - "", "-", "+1" and texts with spaces are refused.
  - These outcomes are the model's choice.
- A half-basis-point constructor is reached only through `NewFromBaseUnit` with BaseUnit set to HalfBasisPoint. The tests use no other.
- The test harness (`t.Parallel`, `t.Run`, `recover`) is not modelled. `reflect.DeepEqual` on results is modelled as `==` on lowest-terms values, and a recovered panic as `Outcome.Panicked`.
