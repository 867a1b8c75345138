/** The options object of `format` and the two revisions of its logic. */
module Config {
  import opened Text

  /**
    * The two revisions of `format`: the TypeScript source and the compiled
    * JavaScript, whose zero answer is the one the test table expects.
    */
  datatype Revision = Src | Dist

  /**
    * The options of `format`. `maxDecimalPlaces` is `None` where the source
    * uses `Infinity`; `zeroResult` exists only in the `Dist` revision; the
    * `minimum` clamp is not part of this model.
    */
  datatype FormatOptions = FormatOptions(
    omitLeadingZero: bool,
    tokenDecimals: nat,
    significantFigures: nat,
    omitTrailingZeroes: bool,
    useSymbols: bool,
    addCommas: bool,
    minDecimalPlaces: nat,
    maxDecimalPlaces: Option<nat>,
    zeroResult: Option<string>)

  /** The defaults the source destructures its options with. */
  const Defaults := FormatOptions(false, 18, 4, false, true, false, 0, None, None)

  /** `decimalPlaces < maxDecimalPlaces`, where no maximum means `Infinity`. */
  predicate BelowMax(decimalPlaces: nat, maxDecimalPlaces: Option<nat>)
  {
    maxDecimalPlaces.None? || decimalPlaces < maxDecimalPlaces.value
  }
}
