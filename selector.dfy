/**
  * The digit selector: one left-to-right scan over the positioned digits that
  * keeps characters while a budget holds, rounds up at the budget, and fills
  * the rest of the integer part with zeros once the budget runs out.
  */
module Selector {
  import opened Text
  import opened Config
  import opened Rounding

  /** The budgets: `_sigFigs`, `minDecimalPlaces` and `maxDecimalPlaces` (`None` is `Infinity`). */
  datatype Budget = Budget(sigFigs: nat, minDecimals: nat, maxDecimals: Option<nat>)

  /** The state threaded through the scan: the output buffer and the three counters. */
  datatype Scan = Scan(out: seq<string>, sigFigs: nat, decimalPlaces: nat, seenPoint: bool)

  const Start := Scan([], 0, 0, false)

  /** The scan keeps the next character: the minimum-decimals floor overrides the other two budgets. */
  predicate Accepting(st: Scan, b: Budget)
  {
    (st.sigFigs < b.sigFigs && BelowMax(st.decimalPlaces, b.maxDecimals)) || st.decimalPlaces < b.minDecimals
  }

  /**
    * The round-up check runs, after the counters were updated for a kept
    * character: Src tests `sigFigs === _sigFigs`, Dist tests
    * `sigFigs >= _sigFigs && decimalPlaces >= minDecimalPlaces`.
    */
  predicate RoundGuard(rev: Revision, sigFigs: nat, decimalPlaces: nat, b: Budget)
  {
    match rev
    case Src => sigFigs == b.sigFigs
    case Dist => sigFigs >= b.sigFigs && decimalPlaces >= b.minDecimals
  }

  /** The counters after character `c` is kept; the buffer is left alone. */
  function Count(st: Scan, c: char): Scan
  {
    var decimalPlaces := if c != '.' && st.seenPoint then st.decimalPlaces + 1 else st.decimalPlaces;
    var sigFigs := if c != '.' && (st.sigFigs > 0 || c != '0') then st.sigFigs + 1 else st.sigFigs;
    Scan(st.out, sigFigs, decimalPlaces, st.seenPoint || c == '.')
  }

  /** Keeping the character at index `i`: count it, then push it or its rounded-up form. */
  function Step(p: string, b: Budget, rev: Revision, i: nat, st: Scan): (st': Scan)
    requires IsDigitText(p) && i < |p| && AllCells(st.out)
    ensures AllCells(st'.out)
  {
    var c := p[i];
    var counted := Count(st, c);
    var shouldRoundUp := RoundGuard(rev, counted.sigFigs, counted.decimalPlaces, b) && DecisiveAhead(p, i + 1);
    counted.(out := if shouldRoundUp then RoundUp(st.out, [c]) else st.out + [[c]])
  }

  /** The state after keeping the first `i` characters. */
  function ScanUpTo(p: string, b: Budget, rev: Revision, i: nat): (st: Scan)
    requires IsDigitText(p) && i <= |p|
    ensures AllCells(st.out)
  {
    if i == 0 then Start else Step(p, b, rev, i - 1, ScanUpTo(p, b, rev, i - 1))
  }

  /** The first index at or after `i` where the scan stops keeping characters, or `|p|`. */
  function StopFrom(p: string, b: Budget, rev: Revision, i: nat): (k: nat)
    requires IsDigitText(p) && i <= |p|
    ensures i <= k <= |p|
    decreases |p| - i
  {
    if i == |p| then |p|
    else if !Accepting(ScanUpTo(p, b, rev, i), b) then i
    else StopFrom(p, b, rev, i + 1)
  }

  function StopIndex(p: string, b: Budget, rev: Revision): (k: nat)
    requires IsDigitText(p)
    ensures k <= |p|
  {
    StopFrom(p, b, rev, 0)
  }

  /**
    * How many "0" elements fill the integer part when the scan stops at `k`:
    * `indexOfDecimal - k` when positive and the scan stopped early, else none.
    */
  function FillWidth(p: string, k: nat): nat
  {
    if k < |p| && IndexOf(p, '.') > k then IndexOf(p, '.') - k else 0
  }

  /** What the scan leaves behind: the kept characters, then zeros up to the point if it stopped early. */
  function Selection(p: string, b: Budget, rev: Revision): (st: Scan)
    requires IsDigitText(p)
  {
    var k := StopIndex(p, b, rev);
    var st := ScanUpTo(p, b, rev, k);
    st.(out := st.out + Cells(Zeros(FillWidth(p, k))))
  }

  /** The scan loop of `format`, with its lookahead and its carry walk. */
  method Select(p: string, b: Budget, rev: Revision)
    returns (out: seq<string>, sigFigs: nat, decimalPlaces: nat, seenPoint: bool)
    requires IsDigitText(p)
    ensures Scan(out, sigFigs, decimalPlaces, seenPoint) == Selection(p, b, rev)
  {
    out, sigFigs, decimalPlaces, seenPoint := [], 0, 0, false;
    var indexOfDecimal := IndexOf(p, '.');
    var i := 0;
    while i < |p|
      invariant i <= |p|
      invariant Scan(out, sigFigs, decimalPlaces, seenPoint) == ScanUpTo(p, b, rev, i)
      invariant StopIndex(p, b, rev) == StopFrom(p, b, rev, i)
    {
      var c := p[i];
      ghost var st := ScanUpTo(p, b, rev, i);
      if (sigFigs < b.sigFigs && BelowMax(decimalPlaces, b.maxDecimals)) || decimalPlaces < b.minDecimals {
        if c != '.' {
          if seenPoint { decimalPlaces := decimalPlaces + 1; }
          if sigFigs > 0 || c != '0' { sigFigs := sigFigs + 1; }
        }
        if c == '.' { seenPoint := true; }
        assert Scan(out, sigFigs, decimalPlaces, seenPoint) == Count(st, c);
        var shouldRoundUp := false;
        var guard := match rev
          case Src => sigFigs == b.sigFigs
          case Dist => sigFigs >= b.sigFigs && decimalPlaces >= b.minDecimals;
        if guard {
          shouldRoundUp := LookAhead(p, i);
        }
        if !shouldRoundUp {
          out := out + [[c]];
        } else if c != '9' {
          out := out + [Bump([c])];
        } else {
          out := RoundUpNine(out);
        }
        assert Scan(out, sigFigs, decimalPlaces, seenPoint) == Step(p, b, rev, i, st) == ScanUpTo(p, b, rev, i + 1);
      } else {
        var trailingZeros := indexOfDecimal - i;
        assert (if trailingZeros > 0 then trailingZeros else 0) == FillWidth(p, i);
        out := FillZeros(out, trailingZeros);
        assert !Accepting(ScanUpTo(p, b, rev, i), b);
        assert StopIndex(p, b, rev) == i;
        return;
      }
      i := i + 1;
    }
    assert Cells(Zeros(0)) == [];
  }

  /** The loop that pushes `trailingZeros` "0" elements once the budget runs out; none when it is not positive. */
  method FillZeros(out: seq<string>, trailingZeros: int) returns (r: seq<string>)
    ensures r == out + Cells(Zeros(if trailingZeros > 0 then trailingZeros else 0))
  {
    r := out;
    var j := 0;
    while j < trailingZeros
      invariant 0 <= j && (if trailingZeros > 0 then j <= trailingZeros else j == 0)
      invariant r == out + Cells(Zeros(j))
    {
      r := r + ["0"];
      j := j + 1;
    }
  }

  // ---------------------------------------------------------------------------
  // A whole number with enough figures passes through the scan unchanged.

  /** A whole number with a non-zero first digit: digits only, none of them a point. */
  predicate IsWholeNumber(s: string)
  {
    IsDigitText(s) && '.' !in s && s != [] && s[0] != '0'
  }

  /**
    * On a whole number followed by its point, with a figure budget of exactly
    * its length and no decimal floor, the scan keeps each digit as it is: the
    * figures count every digit, and the lookahead at the last one sees only
    * the point, so nothing is rounded.
    */
  lemma {:induction false} ScanWholeNumber(s: string, b: Budget, rev: Revision, i: nat)
    requires IsWholeNumber(s) && b.sigFigs == |s| && b.minDecimals == 0 && i <= |s|
    ensures IsDigitText(s + ".")
    ensures ScanUpTo(s + ".", b, rev, i) == Scan(Cells(s[..i]), i, 0, false)
    decreases i
  {
    WholeWithPoint(s);
    if i > 0 {
      ScanWholeNumber(s, b, rev, i - 1);
      assert (s + ".")[i - 1] == s[i - 1] != '.';
      if i == |s| {
        WholeAheadIsPoint(s);
      }
      assert s[..i] == s[..i - 1] + [s[i - 1]];
      CellsAppend(s[..i - 1], [s[i - 1]]);
    }
  }

  /** A whole number followed by its point is digit text. */
  lemma WholeWithPoint(s: string)
    requires IsWholeNumber(s)
    ensures IsDigitText(s + ".")
  {
    assert forall k :: 0 <= k < |s| ==> (s + ".")[k] == s[k];
  }

  /** After the last digit of a whole number the lookahead sees only the point. */
  lemma WholeAheadIsPoint(s: string)
    requires IsWholeNumber(s)
    ensures IsDigitText(s + ".")
    ensures !DecisiveAhead(s + ".", |s|)
  {
    WholeWithPoint(s);
    assert (s + ".")[|s|] == '.';
  }

  /** The scan keeps every digit and stops at the point, which it refuses. */
  lemma {:induction false} StopsAtWholePoint(s: string, b: Budget, rev: Revision, i: nat)
    requires IsWholeNumber(s) && b.sigFigs == |s| && b.minDecimals == 0 && BelowMax(0, b.maxDecimals)
    requires i <= |s|
    ensures IsDigitText(s + ".")
    ensures StopFrom(s + ".", b, rev, i) == |s|
    decreases |s| - i
  {
    ScanWholeNumber(s, b, rev, i);
    if i < |s| {
      StopsAtWholePoint(s, b, rev, i + 1);
    }
  }

  /**
    * The selection of a whole number followed by its point, with a figure
    * budget of its length, no floor and a maximum other than zero: the
    * digits themselves, no fill, no decimals and no point.
    */
  lemma SelectsWholeNumber(s: string, b: Budget, rev: Revision)
    requires IsWholeNumber(s) && b.sigFigs == |s| && b.minDecimals == 0 && BelowMax(0, b.maxDecimals)
    ensures IsDigitText(s + ".")
    ensures Selection(s + ".", b, rev) == Scan(Cells(s), |s|, 0, false)
  {
    var p := s + ".";
    StopsAtWholePoint(s, b, rev, 0);
    ScanWholeNumber(s, b, rev, |s|);
    assert s[..|s|] == s;
    IndexOfAt(p, '.', |s|);
    assert FillWidth(p, |s|) == 0;
    assert Cells(Zeros(0)) == [];
  }

  // ---------------------------------------------------------------------------
  // The counters, stated without the scan.

  /**
    * The scan's counters after `i` kept characters: `sigFigs` counts the
    * characters from the first significant one on, `decimalPlaces` those after
    * the first point, and neither counts a point.
    */
  lemma {:induction false} CountersMeaning(p: string, b: Budget, rev: Revision, i: nat)
    requires IsDigitText(p) && i <= |p|
    ensures var st := ScanUpTo(p, b, rev, i);
      st.sigFigs == SigCount(p[..i]) && st.decimalPlaces == DecCount(p[..i]) && st.seenPoint == ('.' in p[..i])
  {
    if i > 0 {
      CountersMeaning(p, b, rev, i - 1);
      assert p[..i] == p[..i - 1] + [p[i - 1]];
      SigCountAppend(p[..i - 1], p[i - 1]);
      DecCountAppend(p[..i - 1], p[i - 1]);
    }
  }

  /** The selection's decimal count is that of the kept prefix. */
  lemma SelectionDecimals(p: string, b: Budget, rev: Revision)
    requires IsDigitText(p)
    ensures Selection(p, b, rev).decimalPlaces == DecCount(p[..StopIndex(p, b, rev)])
  {
    CountersMeaning(p, b, rev, StopIndex(p, b, rev));
  }

  /** The counters never decrease as the scan goes on. */
  lemma {:induction false} CountersGrow(p: string, b: Budget, rev: Revision, i: nat, j: nat)
    requires IsDigitText(p) && i <= j <= |p|
    ensures var st, st' := ScanUpTo(p, b, rev, i), ScanUpTo(p, b, rev, j);
      st.sigFigs <= st'.sigFigs && st.decimalPlaces <= st'.decimalPlaces && (st.seenPoint ==> st'.seenPoint)
    decreases j
  {
    if i < j {
      CountersGrow(p, b, rev, i, j - 1);
    }
  }

  // ---------------------------------------------------------------------------
  // Where the scan stops.

  lemma {:induction false} StopFromMeaning(p: string, b: Budget, rev: Revision, i: nat)
    requires IsDigitText(p) && i <= |p|
    ensures var k := StopFrom(p, b, rev, i);
      && (forall j :: i <= j < k ==> Accepting(ScanUpTo(p, b, rev, j), b))
      && (k < |p| ==> !Accepting(ScanUpTo(p, b, rev, k), b))
    decreases |p| - i
  {
    if i < |p| && Accepting(ScanUpTo(p, b, rev, i), b) {
      StopFromMeaning(p, b, rev, i + 1);
    }
  }

  /**
    * The scan keeps every character before the stop index and rejects the one
    * at it; the selection then carries that prefix's counts and, if the scan
    * stopped early, the zeros that fill the integer part up to the point.
    */
  lemma StopIndexMeaning(p: string, b: Budget, rev: Revision)
    requires IsDigitText(p)
    ensures var k := StopIndex(p, b, rev); var sel := Selection(p, b, rev);
      && (forall j :: 0 <= j < k ==> Accepting(ScanUpTo(p, b, rev, j), b))
      && (k < |p| ==> !Accepting(ScanUpTo(p, b, rev, k), b))
      && sel.sigFigs == SigCount(p[..k]) && sel.decimalPlaces == DecCount(p[..k])
      && sel.out == ScanUpTo(p, b, rev, k).out + Cells(Zeros(FillWidth(p, k)))
  {
    StopFromMeaning(p, b, rev, 0);
    CountersMeaning(p, b, rev, StopIndex(p, b, rev));
  }

  // ---------------------------------------------------------------------------
  // Rounding in the Dist revision.

  /** The scan rounds up right after keeping index `i`. */
  predicate RoundsAt(p: string, b: Budget, rev: Revision, i: nat)
    requires IsDigitText(p) && i < |p|
  {
    var st := ScanUpTo(p, b, rev, i + 1);
    RoundGuard(rev, st.sigFigs, st.decimalPlaces, b) && DecisiveAhead(p, i + 1)
  }

  /** The Dist guard is a rejection of the next index, so only the last kept index can round. */
  lemma DistRoundsOnlyLast(p: string, b: Budget, i: nat)
    requires IsDigitText(p) && i + 1 < StopIndex(p, b, Dist)
    ensures !RoundsAt(p, b, Dist, i)
  {
    StopIndexMeaning(p, b, Dist);
    assert Accepting(ScanUpTo(p, b, Dist, i + 1), b);
  }

  /** The last kept index rounds only if it holds a digit: a point changes no counter. */
  lemma DistRoundsOnDigit(p: string, b: Budget)
    requires IsDigitText(p) && StopIndex(p, b, Dist) > 0
    ensures var k := StopIndex(p, b, Dist); RoundsAt(p, b, Dist, k - 1) ==> IsDigit(p[k - 1])
  {
    var k := StopIndex(p, b, Dist);
    StopIndexMeaning(p, b, Dist);
    assert Accepting(ScanUpTo(p, b, Dist, k - 1), b);
  }

  /** Without a round-up so far, the Dist buffer is the kept characters themselves. */
  lemma {:induction false} DistKeepsPrefix(p: string, b: Budget, i: nat)
    requires IsDigitText(p) && i <= |p|
    requires forall j :: 0 <= j < i ==> !RoundsAt(p, b, Dist, j)
    ensures ScanUpTo(p, b, Dist, i).out == Cells(p[..i])
  {
    if i > 0 {
      DistKeepsPrefix(p, b, i - 1);
      assert !RoundsAt(p, b, Dist, i - 1);
      assert Cells(p[..i]) == Cells(p[..i - 1]) + [[p[i - 1]]];
    }
  }

  /**
    * The Dist selection in closed form: at most one round-up, on the last kept
    * character, which is a digit; the buffer is the kept characters, with that
    * last one rounded up if the lookahead says so.
    */
  lemma DistSelection(p: string, b: Budget)
    requires IsDigitText(p)
    ensures var k := StopIndex(p, b, Dist); var rounds := k > 0 && RoundsAt(p, b, Dist, k - 1);
      && (forall i: nat :: i + 1 < k ==> !RoundsAt(p, b, Dist, i))
      && (rounds ==> IsDigit(p[k - 1]))
      && ScanUpTo(p, b, Dist, k).out == (if rounds then RoundUp(Cells(p[..k - 1]), [p[k - 1]]) else Cells(p[..k]))
  {
    var k := StopIndex(p, b, Dist);
    forall i: nat | i + 1 < k ensures !RoundsAt(p, b, Dist, i) {
      DistRoundsOnlyLast(p, b, i);
    }
    if k > 0 {
      DistRoundsOnDigit(p, b);
      DistKeepsPrefix(p, b, k - 1);
      if !RoundsAt(p, b, Dist, k - 1) {
        DistKeepsPrefix(p, b, k);
      }
    }
  }

  /** The scan, stopped at `k`, rounded up the last character it kept. */
  predicate RoundsLast(p: string, b: Budget, rev: Revision, k: nat)
    requires IsDigitText(p) && k <= |p|
  {
    k > 0 && RoundsAt(p, b, rev, k - 1)
  }

  /** Rounding up the character before `k` carries out of a 9 and finds no digit to land on. */
  predicate CarryLost(p: string, k: nat)
    requires k <= |p|
  {
    k > 0 && p[k - 1] == '9' && !CarryKept(Cells(p[..k - 1]))
  }

  /**
    * What the Dist selection is worth, points ignored: the kept characters,
    * plus one if the last of them was rounded up, followed by the zeros that
    * fill the integer part. The one exception is a carry that finds no digit
    * to land on (it runs off a leading point, or the kept 9 is the first
    * element), which leaves only zeros.
    */
  lemma DistSelectionValue(p: string, b: Budget)
    requires IsDigitText(p)
    ensures AllChars(Selection(p, b, Dist).out)
    ensures DistCarryLost(p, b) ==> Value(Join(Selection(p, b, Dist).out)) == 0
    ensures !DistCarryLost(p, b) ==>
      Value(Join(Selection(p, b, Dist).out)) == Shifted(KeptWorth(p, b), FillWidth(p, StopIndex(p, b, Dist)))
  {
    KeptValue(p, b, StopIndex(p, b, Dist));
    FillValue(ScanUpTo(p, b, Dist, StopIndex(p, b, Dist)).out, FillWidth(p, StopIndex(p, b, Dist)),
      DistCarryLost(p, b), KeptWorth(p, b));
  }

  /** The Dist scan rounded up its last kept character and the carry found no digit. */
  predicate DistCarryLost(p: string, b: Budget)
    requires IsDigitText(p)
  {
    RoundsLast(p, b, Dist, StopIndex(p, b, Dist)) && CarryLost(p, StopIndex(p, b, Dist))
  }

  /** The kept characters' digit value, plus one when the Dist scan rounded the last of them up. */
  function KeptWorth(p: string, b: Budget): nat
    requires IsDigitText(p)
  {
    Value(p[..StopIndex(p, b, Dist)]) + (if RoundsLast(p, b, Dist, StopIndex(p, b, Dist)) then 1 else 0)
  }

  /** Zeros pushed after a buffer shift its digit value; a zero value stays zero. */
  lemma FillValue(kept: seq<string>, z: nat, lost: bool, w: nat)
    requires AllChars(kept)
    requires lost ==> Value(Join(kept)) == 0
    requires !lost ==> Value(Join(kept)) == w
    ensures AllChars(kept + Cells(Zeros(z)))
    ensures lost ==> Value(Join(kept + Cells(Zeros(z)))) == 0
    ensures !lost ==> Value(Join(kept + Cells(Zeros(z)))) == Shifted(w, z)
  {
    var zs := Zeros(z);
    var filled := kept + Cells(zs);
    assert AllChars(filled) by {
      forall k | 0 <= k < |filled| ensures |filled[k]| == 1 && (IsDigit(filled[k][0]) || filled[k][0] == '.') {
        if k >= |kept| { assert filled[k] == [zs[k - |kept|]]; }
      }
    }
    ValueZeros(z);
    ValueAppend(Join(kept), zs);
    calc {
      Value(Join(filled));
      { JoinAppend(kept, Cells(zs)); JoinCells(zs); }
      Value(Join(kept) + zs);
      Shifted(Value(Join(kept)), z);
    }
    if lost {
      ShiftedZero(z);
    }
  }

  /** The digit value of the Dist buffer at the stop index. */
  lemma KeptValue(p: string, b: Budget, k: nat)
    requires IsDigitText(p) && k == StopIndex(p, b, Dist)
    ensures AllChars(ScanUpTo(p, b, Dist, k).out)
    ensures RoundsLast(p, b, Dist, k) && CarryLost(p, k) ==> Value(Join(ScanUpTo(p, b, Dist, k).out)) == 0
    ensures !(RoundsLast(p, b, Dist, k) && CarryLost(p, k)) ==>
      Value(Join(ScanUpTo(p, b, Dist, k).out)) == Value(p[..k]) + (if RoundsLast(p, b, Dist, k) then 1 else 0)
  {
    DistSelection(p, b);
    if RoundsLast(p, b, Dist, k) {
      assert p[..k] == p[..k - 1] + [p[k - 1]];
      RoundedValue(p[..k - 1], p[k - 1]);
    } else {
      CellsAllChars(p[..k]);
      JoinCells(p[..k]);
    }
  }

  /** Rounding up the digit `c` kept after `x` adds one to the value of `x` followed by `c`, unless the carry is lost. */
  lemma RoundedValue(x: string, c: char)
    requires IsDigitText(x) && IsDigit(c)
    ensures AllChars(RoundUp(Cells(x), [c]))
    ensures c == '9' && !CarryKept(Cells(x)) ==> Value(Join(RoundUp(Cells(x), [c]))) == 0
    ensures !(c == '9' && !CarryKept(Cells(x))) ==> Value(Join(RoundUp(Cells(x), [c]))) == Value(x + [c]) + 1
  {
    var init := Cells(x);
    CellsAllChars(x);
    JoinCells(x);
    RoundUpValue(init, [c]);
    assert Join(init + [[c]]) == x + [c] by {
      JoinAppend(init, [[c]]);
      JoinOne([c]);
    }
  }

  // ---------------------------------------------------------------------------
  // Decimal places of the selection.

  /** With a maximum, the scan keeps at most `max(maxDecimals, minDecimals)` decimals. */
  lemma ScanDecimalsBound(p: string, b: Budget, rev: Revision)
    requires IsDigitText(p) && b.maxDecimals.Some?
    ensures var m := b.maxDecimals.value;
      Selection(p, b, rev).decimalPlaces <= if m < b.minDecimals then b.minDecimals else m
  {
    var k := StopIndex(p, b, rev);
    StopIndexMeaning(p, b, rev);
    if k > 0 {
      assert Accepting(ScanUpTo(p, b, rev, k - 1), b);
      assert ScanUpTo(p, b, rev, k).decimalPlaces <= ScanUpTo(p, b, rev, k - 1).decimalPlaces + 1;
    }
  }

  /**
    * In the Dist revision the joined buffer agrees with the counters: it has
    * `decimalPlaces` decimals and holds a point exactly when one was scanned.
    */
  lemma DistDecimals(p: string, b: Budget)
    requires IsDigitText(p)
    ensures var sel := Selection(p, b, Dist);
      && AllChars(sel.out)
      && DecCount(Join(sel.out)) == sel.decimalPlaces
      && ('.' in Join(sel.out) <==> sel.seenPoint)
  {
    var k := StopIndex(p, b, Dist);
    StopIndexMeaning(p, b, Dist);
    CountersMeaning(p, b, Dist, k);
    KeptDecimals(p, b, k);
    var z := FillWidth(p, k);
    if z > 0 {
      var d := IndexOf(p, '.');
      assert p[..k] == p[..d][..k];
    }
    FillDecimals(ScanUpTo(p, b, Dist, k).out, p[..k], z);
  }

  /** The Dist buffer at the stop index has the decimals of the characters kept. */
  lemma KeptDecimals(p: string, b: Budget, k: nat)
    requires IsDigitText(p) && k == StopIndex(p, b, Dist)
    ensures AllChars(ScanUpTo(p, b, Dist, k).out)
    ensures DecCount(Join(ScanUpTo(p, b, Dist, k).out)) == DecCount(p[..k])
    ensures '.' in Join(ScanUpTo(p, b, Dist, k).out) <==> '.' in p[..k]
  {
    DistSelection(p, b);
    if RoundsLast(p, b, Dist, k) {
      RoundedKeptDecimals(p, k, ScanUpTo(p, b, Dist, k).out);
    } else {
      CellsAllChars(p[..k]);
      JoinCells(p[..k]);
    }
  }

  /** `KeptDecimals` when the last kept digit was rounded up. */
  lemma RoundedKeptDecimals(p: string, k: nat, out: seq<string>)
    requires IsDigitText(p) && 0 < k <= |p| && IsDigit(p[k - 1])
    requires out == RoundUp(Cells(p[..k - 1]), [p[k - 1]])
    ensures AllChars(out)
    ensures DecCount(Join(out)) == DecCount(p[..k])
    ensures '.' in Join(out) <==> '.' in p[..k]
  {
    assert p[..k] == p[..k - 1] + [p[k - 1]];
    RoundedDecimals(p[..k - 1], p[k - 1]);
  }

  /** Rounding up the digit `c` kept after `x` leaves the decimals of `x` followed by `c`. */
  lemma RoundedDecimals(x: string, c: char)
    requires IsDigitText(x) && IsDigit(c)
    ensures var r := RoundUp(Cells(x), [c]);
      && AllChars(r)
      && DecCount(Join(r)) == DecCount(x + [c])
      && ('.' in Join(r) <==> '.' in x + [c])
  {
    var init := Cells(x);
    JoinCells(x);
    if c != '9' {
      var up := Bump([c]);
      assert up == [up[0]];
      JoinAppend(init, [up]);
      JoinOne(up);
      AppendAlike(x, x, up[0], c);
    } else {
      var carried := CarryInto(init);
      CarryKeepsDecimals(init);
      JoinAppend(carried, ["0"]);
      JoinOne("0");
      AppendAlike(Join(carried), x, '0', c);
    }
  }

  /** Zeros filling an integer part, which has no point, add no decimals. */
  lemma FillDecimals(kept: seq<string>, x: string, z: nat)
    requires AllChars(kept) && DecCount(Join(kept)) == DecCount(x) && ('.' in Join(kept) <==> '.' in x)
    requires z > 0 ==> '.' !in x
    ensures var r := kept + Cells(Zeros(z));
      AllChars(r) && DecCount(Join(r)) == DecCount(x) && ('.' in Join(r) <==> '.' in x)
  {
    var r := kept + Cells(Zeros(z));
    JoinAppend(kept, Cells(Zeros(z)));
    JoinCells(Zeros(z));
    var j := Join(kept);
    assert Join(r) == j + Zeros(z);
    DecCountZeros(j, z);
    assert j + Zeros(0) == j;
    if z > 0 {
      assert DecCount(j) == 0;
    }
  }

  /**
    * The Src guard can fire again on the point once the figures are spent
    * and only the decimal floor keeps the scan going: on "12.7" with two
    * figures and one decimal the 2 is rounded to 3 and then the point is
    * bumped to "NaN". The Dist guard waits for the floor and keeps "12.7".
    */
  lemma SrcBumpsThePoint()
    ensures Selection("12.7", Budget(2, 1, None), Src) == Scan(["1", "3", "NaN", "7"], 3, 1, true)
    ensures Selection("12.7", Budget(2, 1, None), Dist) == Scan(["1", "2", ".", "7"], 3, 1, true)
  {
    SrcSelects127();
    DistSelects127();
  }

  lemma SrcSelects127()
    ensures Selection("12.7", Budget(2, 1, None), Src) == Scan(["1", "3", "NaN", "7"], 3, 1, true)
  {
    var p, b := "12.7", Budget(2, 1, None);
    assert IndexOf(p, '.') == 2;
    assert DecisiveAhead(p, 2) && DecisiveAhead(p, 3) && !DecisiveAhead(p, 4);
    assert ScanUpTo(p, b, Src, 1) == Scan(["1"], 1, 0, false);
    assert ScanUpTo(p, b, Src, 2) == Scan(["1", "3"], 2, 0, false);
    assert ScanUpTo(p, b, Src, 3) == Scan(["1", "3", "NaN"], 2, 0, true);
    assert ScanUpTo(p, b, Src, 4) == Scan(["1", "3", "NaN", "7"], 3, 1, true);
    assert StopIndex(p, b, Src) == 4;
    assert Cells(Zeros(0)) == [];
  }

  lemma DistSelects127()
    ensures Selection("12.7", Budget(2, 1, None), Dist) == Scan(["1", "2", ".", "7"], 3, 1, true)
  {
    var p, b := "12.7", Budget(2, 1, None);
    assert IndexOf(p, '.') == 2;
    assert ScanUpTo(p, b, Dist, 1) == Scan(["1"], 1, 0, false);
    assert ScanUpTo(p, b, Dist, 2) == Scan(["1", "2"], 2, 0, false);
    assert ScanUpTo(p, b, Dist, 3) == Scan(["1", "2", "."], 2, 0, true);
    assert !DecisiveAhead(p, 4);
    assert ScanUpTo(p, b, Dist, 4) == Scan(["1", "2", ".", "7"], 3, 1, true);
    assert StopIndex(p, b, Dist) == 4;
    assert Cells(Zeros(0)) == [];
  }

  // ---------------------------------------------------------------------------
  // Where the point lands in the Dist selection.

  /** One when the Dist scan's carry runs past index 0 and puts a "1" in front, else zero. */
  function CarryShift(p: string, b: Budget): nat
    requires IsDigitText(p)
  {
    var k := StopIndex(p, b, Dist);
    if RoundsLast(p, b, Dist, k) && p[k - 1] == '9' && Overflows(Cells(p[..k - 1])) then 1 else 0
  }

  /**
    * `t` is `s` with `shift` characters put in front, none of them a point,
    * and every other position a point exactly where `s` has one.
    */
  predicate PointsShifted(t: string, s: string, shift: nat)
  {
    && |t| == |s| + shift
    && (forall i :: 0 <= i < shift ==> t[i] != '.')
    && (forall i :: 0 <= i < |s| ==> (s[i] == '.' <==> t[i + shift] == '.'))
  }

  /**
    * The integer part of the Dist selection keeps the input's length, plus
    * one after a carry overflow. When the scan stopped past the point, the
    * joined buffer has its point at `indexOfDecimal`, moved on by the "1" an
    * overflow puts in front. When it stopped at or before the point, the fill
    * zeros bring the joined buffer, which then has no point, to that length.
    */
  lemma DistPointPlace(p: string, b: Budget)
    requires IsDigitText(p) && '.' in p
    ensures StopIndex(p, b, Dist) > IndexOf(p, '.') ==> '.' in Join(Selection(p, b, Dist).out)
    ensures StopIndex(p, b, Dist) > IndexOf(p, '.') ==>
      IndexOf(Join(Selection(p, b, Dist).out), '.') == IndexOf(p, '.') + CarryShift(p, b)
    ensures StopIndex(p, b, Dist) <= IndexOf(p, '.') ==> '.' !in Join(Selection(p, b, Dist).out)
    ensures StopIndex(p, b, Dist) <= IndexOf(p, '.') ==>
      |Join(Selection(p, b, Dist).out)| == IndexOf(p, '.') + CarryShift(p, b)
  {
    var k, d, shift := StopIndex(p, b, Dist), IndexOf(p, '.'), CarryShift(p, b);
    var kept := ScanUpTo(p, b, Dist, k).out;
    KeptShape(p, b);
    StopIndexMeaning(p, b, Dist);
    JoinAppend(kept, Cells(Zeros(FillWidth(p, k))));
    JoinCells(Zeros(FillWidth(p, k)));
    var t := Join(kept);
    if k > d {
      assert Join(Selection(p, b, Dist).out) == t;
      PointAfterShift(t, p[..k], shift, d);
    } else {
      assert Join(Selection(p, b, Dist).out) == t + Zeros(d - k);
      NoPointAfterShift(t, p[..k], shift, Zeros(d - k));
    }
  }

  /** The first point of `s` at `d` is the first point of `t`, at `d + shift`. */
  lemma PointAfterShift(t: string, s: string, shift: nat, d: nat)
    requires PointsShifted(t, s, shift)
    requires d < |s| && s[d] == '.' && '.' !in s[..d]
    ensures '.' in t && IndexOf(t, '.') == d + shift
  {
    forall i | 0 <= i < d + shift ensures t[i] != '.' {
      if i >= shift {
        assert s[i - shift] == s[..d][i - shift];
      }
    }
    IndexOfAt(t, '.', d + shift);
  }

  /** Text shifted from a point-free `s`, followed by zeros, has no point. */
  lemma NoPointAfterShift(t: string, s: string, shift: nat, z: string)
    requires PointsShifted(t, s, shift) && '.' !in s
    requires forall i :: 0 <= i < |z| ==> z[i] == '0'
    ensures '.' !in t + z
  {
    forall i | 0 <= i < |t + z| ensures (t + z)[i] != '.' {
      if shift <= i < |t| {
        assert s[i - shift] != '.';
      }
    }
  }

  /** The kept Dist buffer joins to the kept characters, shifted by an overflow's "1". */
  lemma KeptShape(p: string, b: Budget)
    requires IsDigitText(p)
    ensures PointsShifted(Join(ScanUpTo(p, b, Dist, StopIndex(p, b, Dist)).out), p[..StopIndex(p, b, Dist)], CarryShift(p, b))
  {
    var k := StopIndex(p, b, Dist);
    DistSelection(p, b);
    if RoundsLast(p, b, Dist, k) {
      RoundedShape(p, k, ScanUpTo(p, b, Dist, k).out);
    } else {
      JoinCells(p[..k]);
    }
  }

  /** `KeptShape` when the last kept digit was rounded up. */
  lemma RoundedShape(p: string, k: nat, out: seq<string>)
    requires IsDigitText(p) && 0 < k <= |p| && IsDigit(p[k - 1])
    requires AllCells(Cells(p[..k - 1]))
    requires out == RoundUp(Cells(p[..k - 1]), [p[k - 1]])
    ensures PointsShifted(Join(out), p[..k], if p[k - 1] == '9' && Overflows(Cells(p[..k - 1])) then 1 else 0)
  {
    assert p[..k] == p[..k - 1] + [p[k - 1]];
    if p[k - 1] == '9' {
      NineShape(p[..k - 1]);
    } else {
      BumpShape(p[..k - 1], p[k - 1]);
    }
  }

  /** Rounding up a kept digit other than 9 changes no point. */
  lemma BumpShape(x: string, c: char)
    requires IsDigitText(x) && IsDigit(c) && c != '9'
    ensures AllCells(Cells(x))
    ensures PointsShifted(Join(RoundUp(Cells(x), [c])), x + [c], 0)
  {
    CellsAllChars(x);
    var up := Bump([c]);
    assert up == [up[0]];
    JoinAppend(Cells(x), [up]);
    JoinOne(up);
    JoinCells(x);
  }

  /** Rounding up a kept 9 carries back; the points stay, moved on by the overflow's "1". */
  lemma NineShape(x: string)
    requires IsDigitText(x)
    ensures AllCells(Cells(x))
    ensures PointsShifted(Join(RoundUp(Cells(x), "9")), x + "9", if Overflows(Cells(x)) then 1 else 0)
  {
    CellsAllChars(x);
    var cells := Cells(x);
    var shift := if Overflows(cells) then 1 else 0;
    CarryShape(cells);
    CarryKeepsDecimals(cells);
    CarryPoints(x, CarryInto(cells), shift);
    PushedZero(x, CarryInto(cells), shift);
    CellsToText(CarryInto(cells) + ["0"], x + "9", shift);
  }

  /** The carry's point facts, stated on the characters of `x`. */
  lemma CarryPoints(x: string, c: seq<string>, shift: nat)
    requires |c| == |x| + shift
    requires forall k :: 0 <= k < |Cells(x)| ==> (Cells(x)[k] == "." <==> c[k + shift] == ".")
    ensures forall i :: 0 <= i < |x| ==> (x[i] == '.' <==> c[i + shift] == ".")
  {
    forall i | 0 <= i < |x| ensures x[i] == '.' <==> c[i + shift] == "." {
      assert Cells(x)[i] == [x[i]];
    }
  }

  /** Pushing "0" after the carried buffer of `x` lines it up with `x` followed by the 9. */
  lemma PushedZero(x: string, c: seq<string>, shift: nat)
    requires AllChars(c) && |c| == |x| + shift && shift <= 1
    requires shift == 1 ==> c[0] == "1"
    requires forall i :: 0 <= i < |x| ==> (x[i] == '.' <==> c[i + shift] == ".")
    ensures AllChars(c + ["0"]) && |c + ["0"]| == |x + "9"| + shift
    ensures forall i :: 0 <= i < shift ==> (c + ["0"])[i] != "."
    ensures forall i :: 0 <= i < |x + "9"| ==> ((x + "9")[i] == '.' <==> (c + ["0"])[i + shift] == ".")
  {
    var r := c + ["0"];
    assert forall i :: 0 <= i < |c| ==> r[i] == c[i];
  }

  /** A buffer of single characters whose point cells sit `shift` after those of `s`. */
  lemma CellsToText(r: seq<string>, s: string, shift: nat)
    requires AllChars(r) && |r| == |s| + shift
    requires forall i :: 0 <= i < shift ==> r[i] != "."
    requires forall i :: 0 <= i < |s| ==> (s[i] == '.' <==> r[i + shift] == ".")
    ensures PointsShifted(Join(r), s, shift)
  {
    JoinChars(r);
    forall i | 0 <= i < |r| ensures Join(r)[i] == '.' <==> r[i] == "." {
      assert r[i] == [r[i][0]];
    }
  }
}
