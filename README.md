# nicenumbers `format` in Dafny

A model of `format` from the nicenumbers library. `format` renders an integer
amount of token units as short human-readable text: "127000" with 6 token
decimals and 2 significant figures becomes "0.13", and "999000000" with 6 token
decimals and 2 figures becomes "1k".

The library ships two revisions of `format`: the TypeScript source
(`src/index.ts`) and the compiled JavaScript (`dist/index.js`). They differ in
five places, so every operation takes a `Revision` (`Src` or `Dist`):

- Zero input. Only `Dist` answers a zero input directly, with `zeroResult` or
  a zero padded to `minDecimalPlaces`.
- No token decimals. `Src` always pushes a point. `Dist` pushes one only when
  the input has none.
- The round-up guard. `Src` tests `sigFigs === _sigFigs`. `Dist` tests
  `sigFigs >= _sigFigs && decimalPlaces >= minDecimalPlaces`.
- The trailing-zero room. `Src` counts it from the result's length. `Dist`
  counts it from the significant figures.
- The comma threshold. A point before index 5 (`Src`) or 4 (`Dist`) leaves the
  text alone.

The test table expects `Dist`'s answer for zero input ("0" with a decimal floor
of 3 and the leading zero omitted renders as ".000"). The source revision would
render something else there.

The model follows the source's structure:

- `Text` holds character helpers and the meaning of a rendered number: its
  digit value (points ignored), its decimal places and its significant figures.
- `Normaliser` strips the sign, pads the digits with zeros and splices in the
  point.
- `Rounding` holds the lookahead and the backward carry walk over the output
  buffer.
- `Selector` is the digit-selection scan: as a function (`ScanUpTo`,
  `StopIndex`, `Selection`) and as the loop method `Select`, proved equal to it.
- `Presenter` handles the leading zero, the minimum-decimals padding and the
  trailing zeros.
- `Commas` and `Symbols` are `addCommasToString` and `toSymbolNotation` with the
  `symbols` table. Each is written as a loop method proved equal to a
  specification function.
- `NiceNumbers` holds the whole pipeline: `FormatSpec` and the method `Format`,
  proved equal to it.

With no token decimals, `Src` pushes a point even when the input already has
one, and the trailing zeros then go after that second point: "12345.6" at 8
figures renders as "12345.6.0". `addCommasToString` keeps only the text between
the first two points (`Commas.SecondPointCuts`), so with commas `Src` gives
"12,345.6" where `Dist` gives "12,345.600".

Some answers of the shipped code are evidently not what its authors meant,
and the model keeps them as written, each shown by an example lemma:

- A carry that finds no digit to land on is lost. The Dist scan of ".96" at
  one figure keeps ".", "0", so "96" with 2 token decimals renders as "0.0"
  rather than "1.0" (`NiceNumbers.CarryOffThePoint`). A lone 9 rounded up as
  the first element becomes "0" rather than "10" (`Rounding.RoundUpIsCarry`).
- The sign is grouped as if it were a digit: commas turn "-123" into "-,123"
  (`Commas.SignGroupedAsDigit`).
- The sign counts towards the length that chooses a symbol: "-123" becomes
  "-.123k" (`Symbols.SignCountsAsDigit`).

The output buffer is a sequence of strings, as in the source. A round-up can
push `(parseInt(".") + 1).toString()`, which is the cell "NaN".

## Model

| member | source | states |
|---|---|---|
| Text.IndexOf | src/index.ts:123 | `indexOf` gives -1 exactly when the character is absent, otherwise its first position |
| Normaliser.PadStart | src/index.ts:108 | the padded text has length max(length, tokenDecimals) |
| Normaliser.PositionedHasPoint | src/index.ts:108-115 | the positioned digits always hold a point and stay digits and points only |
| Normaliser.PointPlacement | src/index.ts:108-111 | with tokenDecimals > 0 the point is spliced into the zero-padded body so that exactly tokenDecimals characters follow it; the result is digit text of length max(length, tokenDecimals) + 1 with the input's digit value |
| Normaliser.PaddedValue | src/index.ts:108 | `padStart` puts only zeros before the body, so the padded text keeps its digit value |
| Text.SplitAtPoint | src/index.ts:109-111 | splicing a point n characters from the end keeps the characters on both sides and the digit value |
| Normaliser.PointIsFirst | src/index.ts:110-123 | for a body without a point, the spliced point is the only one and `indexOfDecimal` finds it tokenDecimals from the end |
| Normaliser.ZeroScalePoint | dist/index.js:35-41 | with tokenDecimals 0, Src always appends a point (two points for an input with one), Dist only when there is none (always exactly one) |
| Rounding.DecisiveAheadMeaning | src/index.ts:146-158 | the lookahead rounds up exactly when some later digit above 5 is preceded only by points and fives |
| Rounding.LookAhead | src/index.ts:148-157 | the lookahead loop returns the lookahead specification |
| Rounding.Bump | src/index.ts:165 | `(parseInt(c) + 1).toString()`: a digit other than 9 gives the next digit, "9" gives "10", and a point gives the cell "NaN" |
| Rounding.RoundUpNine | src/index.ts:166-178 | rounding up a 9 pushes "0" and the backward walk yields the carry of the buffer |
| Rounding.CarryStep | src/index.ts:168-178 | one step of the walk over the cells left of the finished suffix: a point is skipped, a 9 becomes 0 (a 9 at index 0 becomes "1","0"), any other cell is bumped and the walk stops, each step matching the carry of the prefix followed by the finished suffix |
| Rounding.CarryShape | src/index.ts:168-178 | the carry grows the buffer by one cell, a leading "1", only when it overflows a run of nines from index 0, and it keeps every point in place |
| Rounding.CarryShapePast | src/index.ts:168-178 | a point or a non-leading 9 at the end passes the carry on without breaking the length and point-position facts of the prefix's carry |
| Rounding.NineAlone | src/index.ts:168-177 | walking back over a buffer holding a single 9 turns it into "1","0": value 9 becomes 10, with no decimals |
| Rounding.CarryValue | src/index.ts:168-178 | the carry adds exactly one to the buffer's digit value when some digit takes it, and leaves value 0 when it runs off a leading point |
| Rounding.RoundUpValue | src/index.ts:159-180 | rounding up the pushed digit adds one to the value of buffer plus digit, except a 9 whose carry finds no digit, which gives 0 |
| Rounding.RoundUpIsCarry | src/index.ts:164-178 | rounding up is the carry into the buffer with the digit pushed, except a lone first 9, which gives "0" and not "10" |
| Rounding.CarryKeepsDecimals | src/index.ts:168-178 | the carry changes neither the number of decimal places nor whether a point is present |
| Selector.Select | src/index.ts:128-188 | the scan loop, with its lookahead, carry and trailing-zero fill, computes the selection function for either revision |
| Selector.CountersMeaning | src/index.ts:134-142 | after i kept characters, `sigFigs` counts the digits from the first significant one, `decimalPlaces` the digits after the point, and `haveSeenDecimalPoint` says whether a point was kept |
| Selector.CountersGrow | src/index.ts:136-142 | the counters never decrease along the scan |
| Selector.StopFromMeaning | src/index.ts:130-133 | the scan keeps every character before its stop index and refuses the one at it |
| Selector.StopIndexMeaning | src/index.ts:128-188 | the selection's counters describe the kept prefix, and its buffer is the kept cells followed by the fill zeros |
| Selector.ScanDecimalsBound | src/index.ts:130-133 | with a maximum, the scan keeps at most max(maxDecimalPlaces, minDecimalPlaces) decimals |
| Selector.DistRoundsOnlyLast | dist/index.js:66-81 | in Dist no character before the last kept one is rounded up |
| Selector.DistRoundsOnDigit | dist/index.js:68-90 | in Dist the rounded-up character is always a digit, never the point |
| Selector.DistKeepsPrefix | dist/index.js:51-84 | in Dist, as long as nothing was rounded, the buffer is the input's characters one per cell |
| Selector.DistSelection | dist/index.js:51-117 | the Dist buffer is the kept prefix, with its last digit rounded up when the lookahead says so |
| Selector.DistSelectionValue | dist/index.js:51-117 | the Dist selection is worth the kept digits, plus one if rounded, times ten per fill zero, or 0 when the carry is lost |
| Selector.KeptValue | dist/index.js:51-108 | the kept Dist buffer is worth the kept digits plus one if rounded, or 0 when the carry is lost |
| Selector.DistDecimals | dist/index.js:51-117 | the joined Dist buffer has exactly the scan's decimal count and holds a point exactly when the scan saw one |
| Selector.KeptDecimals | dist/index.js:82-106 | rounding keeps the decimal places of the kept prefix |
| Selector.FillDecimals | dist/index.js:109-116 | the fill zeros before the point add no decimals |
| Selector.FillZeros | src/index.ts:183-185 | the fill loop appends exactly the number of zero cells asked for, none when the count is not positive |
| Selector.RoundedValue | dist/index.js:82-106 | rounding up the last kept digit gives character cells worth the kept digits plus one, or 0 when a 9's carry is lost |
| Selector.FillValue | src/index.ts:181-187 | each fill zero multiplies the buffer's value by ten; a lost carry stays 0 |
| Selector.SrcBumpsThePoint | src/index.ts:144-165 | on "12.7" with 2 figures and 1 decimal, Src rounds the 2 up and then bumps the point to "NaN", while Dist keeps "12.7" |
| Presenter.TrailingZeroCount | src/index.ts:208-212 | the trailing count is exactly the figure room when there is no maximum (the budget less the result's length minus one in Src, less the significant figures in Dist), and exactly the smaller of that room and the decimals the maximum still allows when there is one |
| Presenter.LeadingZeroKeeps | src/index.ts:190 | the "0" put before a leading point changes neither the decimals nor the value |
| Presenter.MinDecimalsFloor | src/index.ts:193-200 | the padded buffer has exactly max(decimalPlaces, minDecimalPlaces) decimals and holds a point when padded; its value is scaled by ten per zero added |
| Presenter.PointedKeeps | src/index.ts:195-196 | the pushed point adds a point but no decimals and no value |
| Presenter.PadZeros | src/index.ts:197-199 | each zero pushed behind a point is one more decimal and scales the value by ten |
| Presenter.DropLeadingZeroKeeps | src/index.ts:204 | dropping the "0" of "0." changes neither the decimals nor the value |
| Presenter.TrailingZerosAdd | src/index.ts:208-216 | trailing zeros are added only behind a point, one decimal each |
| Presenter.LeadingZeroPolicy | src/index.ts:190-204 | without the omission no result starts with a bare point; with it, no result starts "0." |
| Commas.AddCommasToString | src/index.ts:256-273 | the comma loop computes the grouping specification (the integer part grouped, the fraction re-attached when not empty) |
| Commas.PushGroupedDigit | src/index.ts:265-268 | one loop step unshifts the next digit from the right, and a comma after every third digit except the last |
| Commas.UngroupGrouped | src/index.ts:264-269 | removing the commas from a grouped integer part gives it back |
| Commas.GroupedCons | src/index.ts:264-269 | one more digit in front of an integer part takes a comma behind it exactly when the rest fills whole groups of three |
| Commas.GroupedLength | src/index.ts:264-269 | grouping adds one comma per full group of three after the first |
| Commas.GroupedCommaPlaces | src/index.ts:264-269 | the commas sit exactly at every fourth position counted from the right |
| Commas.GroupedNotFirst | src/index.ts:266 | a grouped integer part never starts with a comma |
| Commas.CommasOnlyAdded | src/index.ts:256-273 | on a number with a non-empty fraction, removing the commas from the result gives the input back |
| Commas.CommasOnlyInIntegerPart | src/index.ts:256-273 | commas appear only in the integer part, every fourth position from its end, and never first |
| Commas.SignGroupedAsDigit | src/index.ts:264-269 | the sign counts as a digit: "-123" is grouped as "-,123" |
| Commas.ThresholdsDiffer | dist/index.js:184-186 | "1234.5" is left alone in Src and grouped as "1,234.5" in Dist |
| Commas.SecondPointCuts | src/index.ts:256-262 | a second point and what follows it change neither the threshold test nor the grouping: `split(".")` keeps only the text between the first two points |
| Commas.PointSplit | src/index.ts:257-260 | on text with one leading integer part, `indexOf` finds its point, the part before it is the integer part and the rest is the text after it |
| Symbols.KeptLength | src/index.ts:283-292 | the reverse scan keeps everything up to the last character that is neither zero nor point |
| Symbols.FirstFit | src/index.ts:278-280 | the row used is the first, largest first, whose split length is below the input's length |
| Symbols.ToSymbolNotation | src/index.ts:275-297 | the symbol loop computes the symbol specification |
| Symbols.SymbolChoice | src/index.ts:250-254 | B is used above nine characters, M above six, k above three |
| Symbols.SplitValue | src/index.ts:281-282 | the spliced point keeps the digit value and sits n characters from the end |
| Symbols.KeptValue | src/index.ts:283-292 | the dropped tail is worth nothing, so the kept digits times a power of ten give the value back |
| Symbols.SymbolNotationValue | src/index.ts:275-297 | the symbol form of a whole number is its digits with only zeros and the point dropped from the end, and holds the point n places from the end when anything after it survives |
| Symbols.DropsZerosBeforeSplit | src/index.ts:283-292 | zeros before the spliced point are dropped too: "20000" becomes "2k" |
| Symbols.SignCountsAsDigit | src/index.ts:277-282 | the sign counts as a character: "-123" becomes "-.123k" |
| NiceNumbers.SigFigBudget | src/index.ts:124-126 | the budget is the requested figures with symbols, otherwise the larger of those and the digits before the point |
| NiceNumbers.ZeroText | dist/index.js:14-28 | a zero input gives a non-empty `zeroResult` as given, otherwise a zero with exactly `minDecimalPlaces` decimals, with a leading "0" unless omitted |
| NiceNumbers.PresentedDecimals | src/index.ts:189-216 | the presenter only adds zeros: the floor padding adds exactly the missing decimals, the trailing padding none when omitted and at most the room the maximum leaves after the scan's decimals; each zero is one decimal and scales the value by ten; a point is present exactly when the scan kept one or the floor padded; the trailing padding is exactly the trailing count when zeros are not omitted, the text holds a point and the count is positive, and 0 otherwise |
| NiceNumbers.DistRenderedDecimals | dist/index.js:118-142 | a Dist rendering meets the decimal floor, keeps the selected value and stays within the maximum when the scan met the floor |
| NiceNumbers.DistPlainDecimals | dist/index.js:14-177 | without a notation, the Dist output is an optional "-" and digit text meeting the decimal floor; a zero input gives digits worth 0, and any other input gives, after its sign, the rendering of its positioned digits |
| NiceNumbers.DistPlainValue | dist/index.js:29-177 | the value of a non-zero Dist output without a notation: the positioned digits have the input's value, and the output's digits are worth the digits the scan kept from their front, plus one if rounded up, times ten per fill zero and per zero the presenter added, or 0 when the carry is lost |
| NiceNumbers.DistRenderedValue | dist/index.js:51-142 | a Dist rendering is worth the kept digits, plus one if rounded up, times ten per fill zero and per added zero, or 0 when the carry is lost; its decimals are the kept prefix's plus the added zeros |
| NiceNumbers.DistRenderedShift | dist/index.js:119-142 | the presenter adds only zeros to the Dist selection: each is one decimal and multiplies the value by ten |
| Normaliser.PositionedValue | src/index.ts:108-115 | padding and splicing in the point keep the digit value of the unsigned input, in both revisions |
| NiceNumbers.FormatIdentity | src/index.ts:105-247 | a whole number without leading zeros comes back unchanged in both revisions when there are no token decimals, no notation, no commas, no decimal floor, a maximum other than zero and at most as many figures as digits |
| NiceNumbers.WholeNumberInput | src/index.ts:105-106 | a whole number is well formed, not negative, not zero and has no sign to strip |
| NiceNumbers.PresentsWholeNumber | src/index.ts:189-216 | the presenter gives a whole number's cells back as its text when there is no decimal floor |
| Selector.ScanWholeNumber | src/index.ts:128-143 | on a whole number followed by a point, with the budget equal to its length, the scan keeps its digits one per cell, counts every one as a figure and no decimal, and rounds nothing |
| Selector.StopsAtWholePoint | src/index.ts:130-133 | that scan stops exactly at the point after the digits |
| Selector.SelectsWholeNumber | src/index.ts:128-188 | the selection of a whole number followed by a point is its digits, with no fill zeros and no point |
| Selector.DistPointPlace | dist/index.js:51-117 | the integer part of the Dist selection keeps the input's integer-part length, plus one after a carry overflow: past the point, the joined buffer's first point sits at `indexOfDecimal` (plus one after an overflow); otherwise the buffer has no point and, with the fill zeros, exactly that length |
| Selector.KeptShape | dist/index.js:82-108 | the kept Dist buffer joins to the kept characters with a point exactly where they have one, moved on by one only when the carry overflows and puts a "1" in front |
| Selector.NineShape | dist/index.js:91-106 | rounding up a kept 9 carries back and keeps every point, moved on by the overflow's "1" |
| Selector.BumpShape | dist/index.js:88-90 | rounding up a kept digit other than 9 moves no point |
| Selector.SelectionDecimals | src/index.ts:136-142 | the selection's decimal counter is the decimal count of the kept prefix |
| Selector.SrcSelects127 | src/index.ts:128-180 | Src selects "1", "3", "NaN", "7" from "12.7" with 2 figures and 1 decimal |
| Selector.DistSelects127 | dist/index.js:51-108 | Dist selects "1", "2", ".", "7" from "12.7" with 2 figures and 1 decimal |
| NiceNumbers.SelectsPointZero | dist/index.js:51-117 | Dist selects ".", "0" from ".96" at one figure: the carry off the 9 is lost at the point |
| NiceNumbers.PresentsPointZero | dist/index.js:119-142 | that selection is presented as "0.0" |
| NiceNumbers.SignIsPrefix | src/index.ts:105-247 | without a notation the sign is only a prefix: "-x" renders as "-" before what "x" renders as |
| NiceNumbers.NegativeZeroUnsigned | dist/index.js:14-31 | in Dist "-0" renders like "0", as the zero answer |
| NiceNumbers.RoundsAtTheBudget | dist/index.js:51-117 | "127000" with 6 token decimals and 2 figures renders as "0.13" |
| NiceNumbers.CarryOffThePoint | dist/index.js:91-106 | the carry of 0.96 at one figure runs off the leading point and is lost: "96" with 2 token decimals renders as "0.0" |
| NiceNumbers.PadsPastMaximum | dist/index.js:122-142 | the trailing count uses the scan's decimals, not the padded ones: "1" with a floor of 2 and a maximum of 3 renders with five decimals |
| NiceNumbers.Format | src/index.ts:105-247 | the statements of `format` compute the pipeline specification for either revision |
| NiceNumbers.Present | src/index.ts:189-216 | the presenter's statements compute the presenter specification |
| NiceNumbers.PadMinDecimals | src/index.ts:193-200 | the push loops compute the minimum-decimals padding |
| NiceNumbers.PushZeros | src/index.ts:213-215 | the `result += "0"` loop appends exactly n zeros |

## Left out

- The `minimum` clamp is not modelled (src/index.ts:218-239, dist/index.js:143-165). It needs `parseFloat` and number comparison on floating point values.
- The `undefined` input and the `typeof`, `toString` and `toFixed` conversions are not modelled (src/index.ts:95-104). The model takes the input's text directly.
- WellFormedInput: input is an optional "-" followed by digits and points, with at most one point, as a number renders. Exponent notation and other text are not modelled.
- Normaliser.IsZeroText: the `parseFloat(...) === 0` test is a predicate on such text (some digit, every digit zero). It does not parse floats.
- `parseInt(c) + 1` is digit arithmetic on the cells the buffer can hold. "9" gives "10", and a point gives "NaN".
- `maxDecimalPlaces = Infinity` is `None`. `Infinity` minus a count stays `Infinity`, so `None` adds no cap.
- Symbols.ToSymbolNotation: its output buffer is a string rather than an array of one-character strings; joining the array gives that string.
- The type declarations in dist/index.d.ts and the options' doc comments are not modelled.
- NiceNumbers.DistRenderedDecimals: the maximum is guaranteed only when the scan already met the decimal floor. When the floor pads, the trailing count still uses the scan's decimals and can exceed the maximum; NiceNumbers.PadsPastMaximum shows this.
