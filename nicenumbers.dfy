/**
  * `format`: the whole pipeline from the input text to the rendered number.
  * The Dist revision first answers a zero input on its own; otherwise the
  * sign is taken off, the digits are positioned, selected and presented,
  * the sign is put back and the notation is applied.
  */
module NiceNumbers {
  import opened Text
  import opened Config
  import opened Normaliser
  import opened Rounding
  import opened Selector
  import opened Presenter
  import opened Commas
  import opened Symbols

  /**
    * `_sigFigs`: with symbols the requested figures; without them the larger
    * of those and the number of characters before the point.
    */
  function SigFigBudget(p: string, o: FormatOptions): (n: nat)
    ensures o.useSymbols ==> n == o.significantFigures
    ensures !o.useSymbols ==> n >= o.significantFigures && n >= IndexOf(p, '.')
    ensures !o.useSymbols ==> n == o.significantFigures || n == IndexOf(p, '.')
  {
    var indexOfDecimal := IndexOf(p, '.');
    if o.useSymbols then o.significantFigures
    else if indexOfDecimal > o.significantFigures then indexOfDecimal
    else o.significantFigures
  }

  function BudgetOf(p: string, o: FormatOptions): Budget
  {
    Budget(SigFigBudget(p, o), o.minDecimalPlaces, o.maxDecimalPlaces)
  }

  /**
    * The Dist answer for a zero input: a non-empty `zeroResult` as given,
    * otherwise a zero with exactly `minDecimalPlaces` decimals, written
    * without its leading "0" when the policy omits it.
    */
  function ZeroText(o: FormatOptions): (r: string)
    ensures o.zeroResult.Some? && o.zeroResult.value != "" ==> r == o.zeroResult.value
    ensures !(o.zeroResult.Some? && o.zeroResult.value != "") ==>
      && IsDigitText(r) && Value(r) == 0
      && DecCount(r) == o.minDecimalPlaces
      && ('.' in r <==> o.minDecimalPlaces > 0)
      && |r| > 0 && (r[0] == '0' <==> !(o.omitLeadingZero && o.minDecimalPlaces > 0))
  {
    if o.zeroResult.Some? && o.zeroResult.value != "" then o.zeroResult.value
    else if o.minDecimalPlaces == 0 then "0"
    else
      var lead := if o.omitLeadingZero then "." else "0.";
      ZeroTextDecimals(lead, o.minDecimalPlaces);
      lead + Zeros(o.minDecimalPlaces)
  }

  /** `lead` is "." or "0.": the zeros after it are all decimals and the value stays 0. */
  lemma ZeroTextDecimals(lead: string, n: nat)
    requires lead == "." || lead == "0."
    ensures var r := lead + Zeros(n);
      && IsDigitText(r) && Value(r) == 0 && DecCount(r) == n && '.' in r && r[0] == lead[0]
  {
    assert lead[|lead| - 1] == '.';
    assert DecCount(lead) == 0 by {
      assert IndexOf(lead, '.') == |lead| - 1;
      assert lead[|lead|..] == "";
    }
    DecCountZeros(lead, n);
    ValueZeros(n);
    ValueAppend(lead, Zeros(n));
    ShiftedZero(n);
    assert Value(lead) == 0 by {
      assert lead[..|lead| - 1] == "" || lead[..|lead| - 1] == "0";
      assert "0"[..0] == "";
    }
  }

  /**
    * The presenter on a finished scan: the leading zero put in front of a
    * bare point, the padding to the decimal floor, the join, the "0" dropped
    * when the policy omits it, and the trailing zeros.
    */
  function Presented(sel: Scan, o: FormatOptions, rev: Revision, budget: nat): string
  {
    WithTrailingZeros(Joined(sel, o), o.omitTrailingZeroes, TrailingCount(sel, o, rev, budget))
  }

  /** The presented text before the trailing zeros: leading zero, floor padding, join, dropped "0". */
  function Joined(sel: Scan, o: FormatOptions): string
  {
    var cells := WithMinDecimals(WithLeadingZero(sel.out, o.omitLeadingZero),
                                 sel.decimalPlaces, sel.seenPoint, o.minDecimalPlaces);
    WithoutLeadingZero(Join(cells), o.omitLeadingZero)
  }

  /** `trailingZeroesNeeded` for a finished scan, counted on the joined text. */
  function TrailingCount(sel: Scan, o: FormatOptions, rev: Revision, budget: nat): int
  {
    TrailingZeroCount(rev, |Joined(sel, o)|, o.maxDecimalPlaces, sel.decimalPlaces, budget, sel.sigFigs)
  }

  /** The result before the sign: the selection of the positioned digits, presented. */
  function Rendered(p: string, o: FormatOptions, rev: Revision): string
    requires IsDigitText(p)
  {
    var b := BudgetOf(p, o);
    Presented(Selection(p, b, rev), o, rev, b.sigFigs)
  }

  /**
    * The presenter only adds zeros: given a buffer whose joined text agrees
    * with the counters, the presented text keeps the buffer's digits and
    * adds `added1` zeros to meet the decimal floor, then `added2` trailing
    * zeros, none when they are omitted and never more than the maximum
    * still allows.
    */
  lemma PresentedDecimals(sel: Scan, o: FormatOptions, rev: Revision, budget: nat) returns (added1: nat, added2: nat)
    requires AllChars(sel.out)
    requires DecCount(Join(sel.out)) == sel.decimalPlaces && ('.' in Join(sel.out) <==> sel.seenPoint)
    ensures var d, dec, min := Presented(sel, o, rev, budget), sel.decimalPlaces, o.minDecimalPlaces; added1 == (if dec < min then min - dec else 0)
    ensures var d, dec, min := Presented(sel, o, rev, budget), sel.decimalPlaces, o.minDecimalPlaces; IsDigitText(d)
    ensures var d, dec, min := Presented(sel, o, rev, budget), sel.decimalPlaces, o.minDecimalPlaces; DecCount(d) == dec + added1 + added2
    ensures var d, dec, min := Presented(sel, o, rev, budget), sel.decimalPlaces, o.minDecimalPlaces; DecCount(d) >= min
    ensures var d, dec, min := Presented(sel, o, rev, budget), sel.decimalPlaces, o.minDecimalPlaces; '.' in d <==> sel.seenPoint || dec < min
    ensures var d, dec, min := Presented(sel, o, rev, budget), sel.decimalPlaces, o.minDecimalPlaces; Value(d) == Shifted(Value(Join(sel.out)), added1 + added2)
    ensures var d, dec, min := Presented(sel, o, rev, budget), sel.decimalPlaces, o.minDecimalPlaces; o.omitTrailingZeroes ==> added2 == 0
    ensures var d, dec, min := Presented(sel, o, rev, budget), sel.decimalPlaces, o.minDecimalPlaces; o.maxDecimalPlaces.Some? && added2 > 0 ==> added2 <= o.maxDecimalPlaces.value - dec
    ensures var d, count := Presented(sel, o, rev, budget), TrailingCount(sel, o, rev, budget);
      added2 == if !o.omitTrailingZeroes && '.' in d && count > 0 then count else 0
  {
    var dec, min, omit := sel.decimalPlaces, o.minDecimalPlaces, o.omitLeadingZero;
    var led := WithLeadingZero(sel.out, omit);
    LeadingZeroKeeps(sel.out, omit);
    var cells := WithMinDecimals(led, dec, sel.seenPoint, min);
    MinDecimalsFloor(led, dec, sel.seenPoint, min);
    added1 := if dec < min then min - dec else 0;
    var joined := WithoutLeadingZero(Join(cells), omit);
    DropLeadingZeroKeeps(Join(cells), omit);
    var count := TrailingZeroCount(rev, |joined|, o.maxDecimalPlaces, dec, budget, sel.sigFigs);
    var d := WithTrailingZeros(joined, o.omitTrailingZeroes, count);
    assert d == Presented(sel, o, rev, budget);
    TrailingZerosAdd(joined, o.omitTrailingZeroes, count);
    added2 := if !o.omitTrailingZeroes && '.' in joined && count > 0 then count else 0;
    var v := Value(Join(sel.out));
    assert Value(Join(cells)) == Shifted(v, added1);
    assert Value(d) == Shifted(Value(Join(cells)), added2);
    ShiftedAdd(v, added1, added2);
  }

  /**
    * In the Dist revision the rendered digits carry the selection's digits
    * with zeros added after them only (`added1` for the floor, `added2`
    * trailing), at least `minDecimalPlaces` decimals,
    * and, once the scan itself met the floor, at most the larger of the
    * maximum and the floor.
    */
  lemma DistRenderedDecimals(p: string, o: FormatOptions) returns (added1: nat, added2: nat)
    requires IsDigitText(p)
    ensures var sel, d, min := Selection(p, BudgetOf(p, o), Dist), Rendered(p, o, Dist), o.minDecimalPlaces; AllChars(sel.out)
    ensures var sel, d, min := Selection(p, BudgetOf(p, o), Dist), Rendered(p, o, Dist), o.minDecimalPlaces; IsDigitText(d)
    ensures var sel, d, min := Selection(p, BudgetOf(p, o), Dist), Rendered(p, o, Dist), o.minDecimalPlaces; DecCount(d) == sel.decimalPlaces + added1 + added2
    ensures var sel, d, min := Selection(p, BudgetOf(p, o), Dist), Rendered(p, o, Dist), o.minDecimalPlaces; DecCount(d) >= min
    ensures var sel, d, min := Selection(p, BudgetOf(p, o), Dist), Rendered(p, o, Dist), o.minDecimalPlaces; Value(d) == Shifted(Value(Join(sel.out)), added1 + added2)
    ensures var sel, d, min := Selection(p, BudgetOf(p, o), Dist), Rendered(p, o, Dist), o.minDecimalPlaces; o.omitTrailingZeroes ==> DecCount(d) == if sel.decimalPlaces < min then min else sel.decimalPlaces
    ensures var sel, d, min := Selection(p, BudgetOf(p, o), Dist), Rendered(p, o, Dist), o.minDecimalPlaces; o.maxDecimalPlaces.Some? && min <= sel.decimalPlaces ==> DecCount(d) <= if o.maxDecimalPlaces.value < min then min else o.maxDecimalPlaces.value
  {
    var b := BudgetOf(p, o);
    var sel := Selection(p, b, Dist);
    DistDecimals(p, b);
    added1, added2 := PresentedDecimals(sel, o, Dist, b.sigFigs);
    var d, dec, min := Presented(sel, o, Dist, b.sigFigs), sel.decimalPlaces, o.minDecimalPlaces;
    assert d == Rendered(p, o, Dist);
    if o.maxDecimalPlaces.Some? && min <= dec {
      ScanDecimalsBound(p, b, Dist);
      assert added1 == 0;
    }
  }

  /** The notation applied last: symbols win over commas. */
  function Notation(s: string, o: FormatOptions, rev: Revision): string
  {
    if o.useSymbols then SymbolNotation(s)
    else if o.addCommas then WithCommas(s, rev)
    else s
  }

  /** What `format` returns for the input text and options. */
  function FormatSpec(input: string, o: FormatOptions, rev: Revision): string
    requires WellFormedInput(input)
  {
    if rev == Dist && IsZeroText(input) then ZeroText(o)
    else
      var body := Unsigned(input);
      PositionedHasPoint(body, o.tokenDecimals, rev);
      var result := Rendered(Positioned(body, o.tokenDecimals, rev), o, rev);
      Notation(if IsNegative(input) then "-" + result else result, o, rev)
  }

  // ---------------------------------------------------------------------------
  // Properties of `format`.

  /**
    * The sign is only a prefix: without a notation, a negative input renders
    * as "-" followed by what its magnitude renders as. The Dist revision's
    * zero answer is the exception, and so are the notations, which read the
    * sign as one more character.
    */
  lemma SignIsPrefix(s: string, o: FormatOptions, rev: Revision)
    requires WellFormedInput(s) && !IsNegative(s)
    requires !o.useSymbols && !o.addCommas
    requires rev == Src || !IsZeroText(s)
    ensures WellFormedInput("-" + s)
    ensures FormatSpec("-" + s, o, rev) == "-" + FormatSpec(s, o, rev)
  {
    assert ("-" + s)[1..] == s;
    assert Unsigned("-" + s) == s;
  }

  /** The Dist revision drops the sign of a zero: "-0" renders as "0" does. */
  lemma NegativeZeroUnsigned(s: string, o: FormatOptions)
    requires WellFormedInput(s) && !IsNegative(s) && IsZeroText(s)
    ensures WellFormedInput("-" + s)
    ensures FormatSpec("-" + s, o, Dist) == FormatSpec(s, o, Dist) == ZeroText(o)
  {
    assert ("-" + s)[1..] == s;
    assert Unsigned("-" + s) == s;
  }

  /**
    * Without a notation, the Dist output is an optional "-" and then digit
    * text whose decimals meet `minDecimalPlaces`. A zero input (without a
    * `zeroResult`) gives digits worth 0; any other input gives, after its
    * sign, the rendering of its positioned digits (whose worth
    * `DistPlainValue` states).
    */
  lemma DistPlainDecimals(input: string, o: FormatOptions)
    requires WellFormedInput(input) && !o.useSymbols && !o.addCommas
    ensures var r := FormatSpec(input, o, Dist); var neg := IsNegative(input) && !IsZeroText(input);
      var digits := if neg then r[1..] else r;
      && (neg ==> |r| > 0 && r[0] == '-')
      && (!(o.zeroResult.Some? && o.zeroResult.value != "") || !IsZeroText(input) ==>
            IsDigitText(digits) && DecCount(digits) >= o.minDecimalPlaces)
    ensures IsZeroText(input) && !(o.zeroResult.Some? && o.zeroResult.value != "") ==> Value(FormatSpec(input, o, Dist)) == 0
    ensures !IsZeroText(input) ==> var r := FormatSpec(input, o, Dist);
      (if IsNegative(input) then r[1..] else r) == Rendered(DistPositioned(input, o), o, Dist)
  {
    if !IsZeroText(input) {
      var body := Unsigned(input);
      PositionedHasPoint(body, o.tokenDecimals, Dist);
      var p := Positioned(body, o.tokenDecimals, Dist);
      assert p == DistPositioned(input, o);
      var added1, added2 := DistRenderedDecimals(p, o);
      var d := Rendered(p, o, Dist);
      if IsNegative(input) {
        assert ("-" + d)[1..] == d;
      }
    }
  }

  /**
    * What a Dist rendering is worth, stated on the positioned digits: the
    * digits the scan kept, plus one if the last of them was rounded up,
    * followed by the fill zeros and the zeros the presenter added; or
    * nothing at all when the carry is lost.
    */
  lemma DistRenderedValue(p: string, o: FormatOptions) returns (added1: nat, added2: nat)
    requires IsDigitText(p)
    ensures IsDigitText(Rendered(p, o, Dist))
    ensures DecCount(Rendered(p, o, Dist)) == DecCount(p[..StopIndex(p, BudgetOf(p, o), Dist)]) + added1 + added2
    ensures DistCarryLost(p, BudgetOf(p, o)) ==> Value(Rendered(p, o, Dist)) == 0
    ensures !DistCarryLost(p, BudgetOf(p, o)) ==>
      Value(Rendered(p, o, Dist)) == Shifted(Shifted(KeptWorth(p, BudgetOf(p, o)), FillWidth(p, StopIndex(p, BudgetOf(p, o), Dist))), added1 + added2)
  {
    added1, added2 := DistRenderedShift(p, o);
    RenderedWorth(p, o, added1, added2);
  }

  /** `DistRenderedValue`'s value clauses, given the presenter's shift `n`. */
  lemma RenderedWorth(p: string, o: FormatOptions, added1: nat, added2: nat)
    requires IsDigitText(p) && IsDigitText(Rendered(p, o, Dist)) && AllChars(Selection(p, BudgetOf(p, o), Dist).out)
    requires Value(Rendered(p, o, Dist)) == Shifted(Value(Join(Selection(p, BudgetOf(p, o), Dist).out)), added1 + added2)
    ensures DistCarryLost(p, BudgetOf(p, o)) ==> Value(Rendered(p, o, Dist)) == 0
    ensures !DistCarryLost(p, BudgetOf(p, o)) ==>
      Value(Rendered(p, o, Dist)) == Shifted(Shifted(KeptWorth(p, BudgetOf(p, o)), FillWidth(p, StopIndex(p, BudgetOf(p, o), Dist))), added1 + added2)
  {
    DistSelectionValue(p, BudgetOf(p, o));
    if DistCarryLost(p, BudgetOf(p, o)) {
      ZeroShift(Value(Rendered(p, o, Dist)), Value(Join(Selection(p, BudgetOf(p, o), Dist).out)), added1 + added2);
    }
  }

  /** The rendered digits are the selection's, shifted by the zeros the presenter adds. */
  lemma DistRenderedShift(p: string, o: FormatOptions) returns (added1: nat, added2: nat)
    requires IsDigitText(p)
    ensures AllChars(Selection(p, BudgetOf(p, o), Dist).out)
    ensures IsDigitText(Rendered(p, o, Dist))
    ensures DecCount(Rendered(p, o, Dist)) == DecCount(p[..StopIndex(p, BudgetOf(p, o), Dist)]) + added1 + added2
    ensures Value(Rendered(p, o, Dist)) == Shifted(Value(Join(Selection(p, BudgetOf(p, o), Dist).out)), added1 + added2)
  {
    added1, added2 := DistRenderedDecimals(p, o);
    SelectionDecimals(p, BudgetOf(p, o), Dist);
  }

  /** Zeros written after a zero value leave zero. */
  lemma ZeroShift(value: nat, selected: nat, n: nat)
    requires value == Shifted(selected, n) && selected == 0
    ensures value == 0
  {
    ShiftedZero(n);
  }

  /** The positioned digits of a Dist input (their value is the input's, by `PositionedValue`). */
  function DistPositioned(input: string, o: FormatOptions): (p: string)
    requires WellFormedInput(input)
    ensures IsDigitText(p)
  {
    PositionedHasPoint(Unsigned(input), o.tokenDecimals, Dist);
    Positioned(Unsigned(input), o.tokenDecimals, Dist)
  }

  /**
    * The value of a non-zero Dist output without a notation. After the sign,
    * its digits are the rendering of the positioned input `p`, which has the
    * input's digit value. They are worth the digits the scan kept from the
    * front of `p`, plus one if the last of them was rounded up, followed by
    * the fill zeros and the zeros the presenter added. They are worth 0 when
    * the carry is lost.
    */
  lemma DistPlainValue(input: string, o: FormatOptions) returns (added1: nat, added2: nat)
    requires WellFormedInput(input) && !o.useSymbols && !o.addCommas && !IsZeroText(input)
    ensures Value(DistPositioned(input, o)) == Value(Unsigned(input))
    ensures (if IsNegative(input) then FormatSpec(input, o, Dist)[1..] else FormatSpec(input, o, Dist))
      == Rendered(DistPositioned(input, o), o, Dist)
    ensures IsDigitText(Rendered(DistPositioned(input, o), o, Dist))
    ensures DecCount(Rendered(DistPositioned(input, o), o, Dist))
      == DecCount(DistPositioned(input, o)[..StopIndex(DistPositioned(input, o), BudgetOf(DistPositioned(input, o), o), Dist)]) + added1 + added2
    ensures DistCarryLost(DistPositioned(input, o), BudgetOf(DistPositioned(input, o), o)) ==>
      Value(Rendered(DistPositioned(input, o), o, Dist)) == 0
    ensures !DistCarryLost(DistPositioned(input, o), BudgetOf(DistPositioned(input, o), o)) ==>
      Value(Rendered(DistPositioned(input, o), o, Dist))
      == Shifted(Shifted(KeptWorth(DistPositioned(input, o), BudgetOf(DistPositioned(input, o), o)),
                         FillWidth(DistPositioned(input, o), StopIndex(DistPositioned(input, o), BudgetOf(DistPositioned(input, o), o), Dist))),
                 added1 + added2)
  {
    PositionedValue(Unsigned(input), o.tokenDecimals, Dist);
    DistPlainDecimals(input, o);
    added1, added2 := DistRenderedValue(DistPositioned(input, o), o);
  }

  /**
    * A whole number comes back as it was: with no token decimals, no
    * notation, no decimal floor, a maximum other than zero and at most as
    * many figures as it has digits, both revisions return the input itself.
    */
  lemma FormatIdentity(s: string, o: FormatOptions, rev: Revision)
    requires IsWholeNumber(s)
    requires o.tokenDecimals == 0 && o.significantFigures <= |s| && !o.useSymbols && !o.addCommas
    requires o.minDecimalPlaces == 0 && BelowMax(0, o.maxDecimalPlaces)
    ensures WellFormedInput(s)
    ensures FormatSpec(s, o, rev) == s
  {
    WholeNumberInput(s);
    var p := s + ".";
    ZeroScalePoint(s, rev);
    assert PadStart(s, 0) == s;
    assert Positioned(s, 0, rev) == p;
    IndexOfAt(p, '.', |s|);
    var b := BudgetOf(p, o);
    assert b == Budget(|s|, 0, o.maxDecimalPlaces);
    SelectsWholeNumber(s, b, rev);
    PresentsWholeNumber(s, o, rev, |s|);
  }

  /** A whole number is well-formed input, not negative and not zero. */
  lemma WholeNumberInput(s: string)
    requires IsWholeNumber(s)
    ensures WellFormedInput(s) && !IsNegative(s) && !IsZeroText(s) && Unsigned(s) == s
    ensures IsNumberText(s)
  {
    CountOfAbsent(s, '.');
  }

  /** The presenter leaves a whole number's digits alone when no floor asks for decimals. */
  lemma PresentsWholeNumber(s: string, o: FormatOptions, rev: Revision, budget: nat)
    requires IsWholeNumber(s) && o.minDecimalPlaces == 0
    ensures Presented(Scan(Cells(s), |s|, 0, false), o, rev, budget) == s
  {
    var sel := Scan(Cells(s), |s|, 0, false);
    assert WithLeadingZero(sel.out, o.omitLeadingZero) == sel.out;
    JoinCells(s);
    assert !StartsWith(s, "0.");
    assert Joined(sel, o) == s;
  }

  /** From the test table: 127000 with 6 token decimals and 2 figures rounds to "0.13". */
  lemma RoundsAtTheBudget()
    ensures WellFormedInput("127000")
    ensures FormatSpec("127000", Defaults.(tokenDecimals := 6, significantFigures := 2), Dist) == "0.13"
  {
    var o := Defaults.(tokenDecimals := 6, significantFigures := 2);
    Normalises127000();
    calc {
      FormatSpec("127000", o, Dist);
      { PositionedHasPoint("127000", 6, Dist); }
      Notation(Rendered(".127000", o, Dist), o, Dist);
      { RendersPoint13(); }
      SymbolNotation("0.13");
      { assert "0.13"[1] == '.'; }
      "0.13";
    }
  }

  /** "127000" is a positive non-zero number that six token decimals position as ".127000". */
  lemma Normalises127000()
    ensures WellFormedInput("127000")
    ensures !IsNegative("127000")
    ensures !IsZeroText("127000")
    ensures Unsigned("127000") == "127000"
    ensures Positioned("127000", 6, Dist) == ".127000"
  {
    CountOfAbsent("127000", '.');
    assert "127000"[0] == '1';
    assert PadStart("127000", 6) == "127000";
    assert "127000"[..0] == "" && "127000"[0..] == "127000";
    assert SplitAt("127000", 6) == ".127000";
  }

  /** The positioned digits ".127000" render as "0.13". */
  lemma RendersPoint13()
    ensures IsDigitText(".127000")
    ensures Rendered(".127000", Defaults.(tokenDecimals := 6, significantFigures := 2), Dist) == "0.13"
  {
    var o := Defaults.(tokenDecimals := 6, significantFigures := 2);
    var p := ".127000";
    DigitsPoint13();
    assert IndexOf(p, '.') == 0;
    var b := BudgetOf(p, o);
    assert b == Budget(2, 0, None);
    calc {
      Rendered(p, o, Dist);
      Presented(Selection(p, b, Dist), o, Dist, 2);
      { SelectsPoint13(); }
      Presented(Scan([".", "1", "3"], 2, 2, true), o, Dist, 2);
      { PresentsPoint13(); }
      "0.13";
    }
  }

  /**
    * The trailing padding counts from the scan's decimals and not from the
    * padded ones, so a floor below the maximum can push the result past it:
    * "1" with no token decimals, a floor of 2 and a maximum of 3 renders
    * with five decimals.
    */
  lemma PadsPastMaximum()
    ensures WellFormedInput("1")
    ensures var o := Defaults.(tokenDecimals := 0, useSymbols := false, minDecimalPlaces := 2, maxDecimalPlaces := Some(3));
      && FormatSpec("1", o, Dist) == "1.00000"
      && DecCount("1.00000") == 5 > o.maxDecimalPlaces.value
  {
    NormalisesOne();
    RendersPadded();
    FiveDecimals();
  }

  lemma FiveDecimals()
    ensures DecCount("1.00000") == 5
  {
    assert DecCount("1.") == 0 by { assert IndexOf("1.", '.') == 1; }
    assert "1." + Zeros(5) == "1.00000";
    DecCountZeros("1.", 5);
  }

  /** "1" is a positive non-zero number that no token decimals position as "1.". */
  lemma NormalisesOne()
    ensures WellFormedInput("1") && !IsNegative("1") && !IsZeroText("1")
    ensures Unsigned("1") == "1" && Positioned("1", 0, Dist) == "1."
  {
    CountOfAbsent("1", '.');
    assert "1"[0] == '1';
  }

  /** The positioned digits "1." scan to "1." and present as "1.00000". */
  lemma RendersPadded()
    ensures IsDigitText("1.")
    ensures Rendered("1.", Defaults.(tokenDecimals := 0, useSymbols := false, minDecimalPlaces := 2, maxDecimalPlaces := Some(3)), Dist) == "1.00000"
  {
    var o := Defaults.(tokenDecimals := 0, useSymbols := false, minDecimalPlaces := 2, maxDecimalPlaces := Some(3));
    var p := "1.";
    assert IndexOf(p, '.') == 1;
    var b := BudgetOf(p, o);
    assert b == Budget(4, 2, Some(3));
    calc {
      Rendered(p, o, Dist);
      Presented(Selection(p, b, Dist), o, Dist, 4);
      { SelectsOnePoint(); }
      Presented(Scan(["1", "."], 1, 0, true), o, Dist, 4);
      { PresentsPadded(); }
      "1.00000";
    }
  }

  /** With four figures and no point yet, "1." is taken whole. */
  lemma SelectsOnePoint()
    ensures Selection("1.", Budget(4, 2, Some(3)), Dist) == Scan(["1", "."], 1, 0, true)
  {
    var p, b := "1.", Budget(4, 2, Some(3));
    assert IndexOf(p, '.') == 1;
    assert ScanUpTo(p, b, Dist, 1) == Scan(["1"], 1, 0, false);
    assert ScanUpTo(p, b, Dist, 2) == Scan(["1", "."], 1, 0, true);
    assert StopIndex(p, b, Dist) == 2;
    assert Cells(Zeros(0)) == [];
  }

  /** The presenter pads "1." to the floor of two decimals, then adds three more trailing zeros. */
  lemma PresentsPadded()
    ensures Presented(Scan(["1", "."], 1, 0, true), Defaults.(tokenDecimals := 0, useSymbols := false, minDecimalPlaces := 2, maxDecimalPlaces := Some(3)), Dist, 4) == "1.00000"
  {
    assert Zeros(2) == "00";
    assert WithMinDecimals(["1", "."], 0, true, 2) == ["1", ".", "0", "0"];
    assert Join(["1", ".", "0", "0"]) == "1.00" by {
      assert Cells("1.00") == ["1", ".", "0", "0"];
      JoinCells("1.00");
    }
    assert TrailingZeroCount(Dist, 4, Some(3), 0, 4, 1) == 3;
    assert Zeros(3) == "000";
  }

  /**
    * A carry that runs off a leading point is dropped: 96 with 2 token
    * decimals and 1 figure is 0.96, whose 9 rounds up to 0 with nothing in
    * front to carry into, so it renders as "0.0".
    */
  lemma CarryOffThePoint()
    ensures WellFormedInput("96")
    ensures FormatSpec("96", Defaults.(tokenDecimals := 2, significantFigures := 1), Dist) == "0.0"
  {
    var o := Defaults.(tokenDecimals := 2, significantFigures := 1);
    Normalises96();
    calc {
      FormatSpec("96", o, Dist);
      { PositionedHasPoint("96", 2, Dist); }
      Notation(Rendered(".96", o, Dist), o, Dist);
      { RendersPointZero(); }
      SymbolNotation("0.0");
      { assert "0.0"[1] == '.'; }
      "0.0";
    }
  }

  /** "96" is a positive non-zero number that two token decimals position as ".96". */
  lemma Normalises96()
    ensures WellFormedInput("96")
    ensures !IsNegative("96")
    ensures !IsZeroText("96")
    ensures Unsigned("96") == "96"
    ensures Positioned("96", 2, Dist) == ".96"
  {
    CountOfAbsent("96", '.');
    assert "96"[0] == '9';
    assert PadStart("96", 2) == "96";
    assert "96"[..0] == "" && "96"[0..] == "96";
    assert SplitAt("96", 2) == ".96";
  }

  /** The positioned digits ".96" select ".0" and present as "0.0". */
  lemma RendersPointZero()
    ensures IsDigitText(".96")
    ensures Rendered(".96", Defaults.(tokenDecimals := 2, significantFigures := 1), Dist) == "0.0"
  {
    var o := Defaults.(tokenDecimals := 2, significantFigures := 1);
    var p := ".96";
    DigitsPointZero();
    assert IndexOf(p, '.') == 0;
    var b := BudgetOf(p, o);
    assert b == Budget(1, 0, None);
    calc {
      Rendered(p, o, Dist);
      Presented(Selection(p, b, Dist), o, Dist, 1);
      { SelectsPointZero(); }
      Presented(Scan([".", "0"], 1, 1, true), o, Dist, 1);
      { PresentsPointZero(); }
      "0.0";
    }
  }

  /** The scan of ".96" rounds the 9 up, and the carry runs off the leading point. */
  lemma SelectsPointZero()
    ensures Selection(".96", Budget(1, 0, None), Dist) == Scan([".", "0"], 1, 1, true)
  {
    var p, b := ".96", Budget(1, 0, None);
    assert IndexOf(p, '.') == 0;
    DigitsPointZero();
    assert DecisiveAhead(p, 2);
    assert ScanUpTo(p, b, Dist, 1) == Scan(["."], 0, 0, true);
    assert RoundUp(["."], ['9']) == [".", "0"] by {
      assert CarryInto(["."]) == ["."];
    }
    assert ScanUpTo(p, b, Dist, 2) == Scan([".", "0"], 1, 1, true);
    assert StopFrom(p, b, Dist, 2) == 2;
    assert StopFrom(p, b, Dist, 1) == 2;
    assert StopIndex(p, b, Dist) == 2;
    assert Cells(Zeros(0)) == [];
  }

  lemma DigitsPointZero()
    ensures IsDigitText(".96")
  {
  }

  /** The presenter puts the leading zero in front of ".0" and adds nothing else. */
  lemma PresentsPointZero()
    ensures Presented(Scan([".", "0"], 1, 1, true), Defaults.(tokenDecimals := 2, significantFigures := 1), Dist, 1) == "0.0"
  {
    var o := Defaults.(tokenDecimals := 2, significantFigures := 1);
    var sel := Scan([".", "0"], 1, 1, true);
    assert WithLeadingZero(sel.out, false) == ["0", ".", "0"];
    assert WithMinDecimals(["0", ".", "0"], 1, true, 0) == ["0", ".", "0"];
    assert Join(["0", ".", "0"]) == "0.0" by {
      assert Cells("0.0") == ["0", ".", "0"];
      JoinCells("0.0");
    }
    assert Joined(sel, o) == "0.0";
    assert TrailingZeroCount(Dist, 3, None, 1, 1, 1) == 0;
  }

  /** The scan of ".127000" keeps the point and two digits and rounds the second up. */
  lemma SelectsPoint13()
    ensures Selection(".127000", Budget(2, 0, None), Dist) == Scan([".", "1", "3"], 2, 2, true)
  {
    var p, b := ".127000", Budget(2, 0, None);
    assert DecisiveAhead(p, 3);
    assert ScanUpTo(p, b, Dist, 1) == Scan(["."], 0, 0, true);
    assert ScanUpTo(p, b, Dist, 2) == Scan([".", "1"], 1, 1, true);
    assert ScanUpTo(p, b, Dist, 3) == Scan([".", "1", "3"], 2, 2, true);
    assert StopFrom(p, b, Dist, 3) == 3;
    assert StopIndex(p, b, Dist) == 3;
    assert IndexOf(p, '.') == 0;
    assert Cells(Zeros(0)) == [];
  }

  lemma DigitsPoint13()
    ensures IsDigitText(".127000")
  {
  }

  /** The presenter puts the leading zero in front of ".13" and adds nothing else. */
  lemma PresentsPoint13()
    ensures Presented(Scan([".", "1", "3"], 2, 2, true), Defaults.(tokenDecimals := 6, significantFigures := 2), Dist, 2) == "0.13"
  {
    assert WithLeadingZero([".", "1", "3"], false) == ["0", ".", "1", "3"];
    assert WithMinDecimals(["0", ".", "1", "3"], 2, true, 0) == ["0", ".", "1", "3"];
    assert Join(["0", ".", "1", "3"]) == "0.13" by {
      assert Cells("0.13") == ["0", ".", "1", "3"];
      JoinCells("0.13");
    }
    assert TrailingZeroCount(Dist, 4, None, 2, 2, 2) == 0;
  }

  /**
    * `format` on text input: the zero answer, then the sign, the positioned
    * digits, the scan, the presenter's unshift and push loops and the
    * trailing `+=` loop, the sign again and the notation.
    */
  method Format(input: string, o: FormatOptions, rev: Revision) returns (r: string)
    requires WellFormedInput(input)
    ensures r == FormatSpec(input, o, rev)
  {
    if rev == Dist && IsZeroText(input) {
      if o.zeroResult.Some? && o.zeroResult.value != "" {
        return o.zeroResult.value;
      }
      if o.minDecimalPlaces == 0 {
        return "0";
      }
      return (if o.omitLeadingZero then "." else "0.") + Zeros(o.minDecimalPlaces);
    }
    var isNegative := IsNegative(input);
    var body := if isNegative then input[1..] else input;
    PositionedHasPoint(body, o.tokenDecimals, rev);
    var p := Positioned(body, o.tokenDecimals, rev);
    var indexOfDecimal := IndexOf(p, '.');
    var sigFigBudget := if o.useSymbols then o.significantFigures
      else if indexOfDecimal > o.significantFigures then indexOfDecimal
      else o.significantFigures;
    var b := Budget(sigFigBudget, o.minDecimalPlaces, o.maxDecimalPlaces);
    assert b == BudgetOf(p, o);

    var outArray, sigFigs, decimalPlaces, seenPoint := Select(p, b, rev);
    var result := Present(outArray, sigFigs, decimalPlaces, seenPoint, o, rev, sigFigBudget);
    if isNegative {
      result := "-" + result;
    }
    if o.useSymbols {
      r := ToSymbolNotation(result);
    } else if o.addCommas {
      r := AddCommasToString(result, rev);
    } else {
      r := result;
    }
  }

  /** The presenter's statements, run on the scan's buffer and counters. */
  method Present(outArray: seq<string>, sigFigs: nat, decimalPlaces: nat, seenPoint: bool,
                 o: FormatOptions, rev: Revision, sigFigBudget: nat) returns (result: string)
    ensures result == Presented(Scan(outArray, sigFigs, decimalPlaces, seenPoint), o, rev, sigFigBudget)
  {
    var cells := outArray;
    if |cells| > 0 && cells[0] == "." && !o.omitLeadingZero {
      cells := ["0"] + cells;
    }
    assert cells == WithLeadingZero(outArray, o.omitLeadingZero);
    cells := PadMinDecimals(cells, decimalPlaces, seenPoint, o.minDecimalPlaces);
    result := Join(cells);
    if o.omitLeadingZero && StartsWith(result, "0.") {
      result := result[1..];
    }
    ghost var joined := result;
    assert joined == WithoutLeadingZero(Join(cells), o.omitLeadingZero);
    ghost var count := TrailingZeroCount(rev, |joined|, o.maxDecimalPlaces, decimalPlaces, sigFigBudget, sigFigs);
    if !o.omitTrailingZeroes && IndexOf(result, '.') != -1 {
      var room := match rev
        case Src => sigFigBudget - (|result| - 1)
        case Dist => sigFigBudget - sigFigs;
      var trailingZeroesNeeded := match o.maxDecimalPlaces
        case None => room
        case Some(m) => if m - decimalPlaces < room then m - decimalPlaces else room;
      assert trailingZeroesNeeded == count;
      if trailingZeroesNeeded > 0 {
        result := PushZeros(result, trailingZeroesNeeded);
      }
    }
    assert result == WithTrailingZeros(joined, o.omitTrailingZeroes, count);
  }

  /** The push loops below the decimal floor: a point if needed, then one "0" per missing place. */
  method PadMinDecimals(outArray: seq<string>, decimalPlaces: nat, seenPoint: bool, minDecimals: nat)
    returns (cells: seq<string>)
    ensures cells == WithMinDecimals(outArray, decimalPlaces, seenPoint, minDecimals)
  {
    cells := outArray;
    if decimalPlaces < minDecimals {
      var zerosNeeded := minDecimals - decimalPlaces;
      if !seenPoint && (|cells| == 0 || cells[|cells| - 1] != ".") {
        cells := cells + ["."];
      }
      ghost var pointed := cells;
      var i := 0;
      while i < zerosNeeded
        invariant i <= zerosNeeded
        invariant cells == pointed + Cells(Zeros(i))
      {
        assert Zeros(i + 1) == Zeros(i) + "0";
        CellsAppend(Zeros(i), "0");
        cells := cells + ["0"];
        i := i + 1;
      }
    }
  }

  /** The `result += "0"` loop. */
  method PushZeros(s: string, n: nat) returns (result: string)
    ensures result == s + Zeros(n)
  {
    result := s;
    var j := 0;
    while j < n
      invariant j <= n
      invariant result == s + Zeros(j)
    {
      assert Zeros(j + 1) == Zeros(j) + "0";
      result := result + "0";
      j := j + 1;
    }
  }
}
