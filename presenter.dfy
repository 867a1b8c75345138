/**
  * The presenter: the leading-zero policy, the minimum-decimals padding of
  * the buffer, and the trailing-zero padding of the joined result.
  */
module Presenter {
  import opened Text
  import opened Config

  /** A buffer that starts with the point gets a "0" in front, unless the policy omits it. */
  function WithLeadingZero(out: seq<string>, omitLeadingZero: bool): seq<string>
  {
    if |out| > 0 && out[0] == "." && !omitLeadingZero then ["0"] + out else out
  }

  /**
    * Below the decimal floor: a point if none was scanned and the buffer does
    * not already end in one, then one "0" per missing decimal place.
    */
  function WithMinDecimals(out: seq<string>, decimalPlaces: nat, seenPoint: bool, minDecimals: nat): seq<string>
  {
    if decimalPlaces < minDecimals then Pointed(out, seenPoint) + Cells(Zeros(minDecimals - decimalPlaces))
    else out
  }

  /** The point the padding pushes when none was scanned and the buffer does not end in one. */
  function Pointed(out: seq<string>, seenPoint: bool): seq<string>
  {
    if !seenPoint && (|out| == 0 || out[|out| - 1] != ".") then out + ["."] else out
  }

  /** With the leading zero omitted, a joined result that starts "0." loses its "0". */
  function WithoutLeadingZero(s: string, omitLeadingZero: bool): string
  {
    if omitLeadingZero && StartsWith(s, "0.") then s[1..] else s
  }

  /**
    * The room the figure budget leaves for trailing zeros: counted from the
    * result's length in Src and from the significant figures in Dist.
    */
  function FigureRoom(rev: Revision, resultLength: nat, budget: nat, sigFigs: nat): int
  {
    match rev
    case Src => budget - (resultLength - 1)
    case Dist => budget - sigFigs
  }

  /**
    * `trailingZeroesNeeded`: the smaller of the figure room and the decimals
    * still allowed; `Infinity` minus anything is no cap, so without a maximum
    * it is the figure room itself. The ensures only pin the formula down; what
    * the count does to the text (one decimal and a factor of ten per zero,
    * added only behind a point) is `TrailingZerosAdd` and, for the whole
    * presenter, `added2` in `NiceNumbers.PresentedDecimals`.
    */
  function TrailingZeroCount(rev: Revision, resultLength: nat, maxDecimals: Option<nat>,
                             decimalPlaces: nat, budget: nat, sigFigs: nat): (count: int)
    ensures rev == Src ==> count <= budget - (resultLength - 1)
    ensures rev == Dist ==> count <= budget - sigFigs
    ensures maxDecimals.Some? ==> count <= maxDecimals.value - decimalPlaces
    ensures maxDecimals.None? ==> count == FigureRoom(rev, resultLength, budget, sigFigs)
    ensures maxDecimals.Some? ==> count == var cap, room := maxDecimals.value - decimalPlaces, FigureRoom(rev, resultLength, budget, sigFigs);
      if cap < room then cap else room
  {
    var room := FigureRoom(rev, resultLength, budget, sigFigs);
    match maxDecimals
    case None => room
    case Some(m) => if m - decimalPlaces < room then m - decimalPlaces else room
  }

  /** The trailing zeros are added only to a result that holds a point, and only if not omitted. */
  function WithTrailingZeros(s: string, omitTrailingZeroes: bool, count: int): string
  {
    if !omitTrailingZeroes && '.' in s && count > 0 then s + Zeros(count) else s
  }

  // ---------------------------------------------------------------------------
  // What each step does to the decimals and the digit value.

  /** A prepended "0" before a point changes neither the decimals nor the digit value. */
  lemma LeadingZeroKeeps(out: seq<string>, omitLeadingZero: bool)
    requires AllChars(out)
    ensures var r := WithLeadingZero(out, omitLeadingZero);
      && AllChars(r)
      && DecCount(Join(r)) == DecCount(Join(out))
      && ('.' in Join(r) <==> '.' in Join(out))
      && Value(Join(r)) == Value(Join(out))
  {
    var r := WithLeadingZero(out, omitLeadingZero);
    if r != out {
      JoinAppend(["0"], out);
      JoinOne("0");
      assert Join(r) == ['0'] + Join(out);
      DecCountPrepend('0', Join(out));
      ValueAppend("0", Join(out));
      assert Value("0") == 0 by { assert "0"[..0] == ""; }
      ShiftedZero(NonPointCount(Join(out)));
    }
  }

  /**
    * The padded buffer meets the decimal floor: when the buffer's joined
    * text has `decimalPlaces` decimals and holds a point exactly when one was
    * scanned, the padded text has `max(decimalPlaces, minDecimals)` decimals,
    * holds a point whenever it was padded, and has the same digit value
    * shifted by the zeros added.
    */
  lemma MinDecimalsFloor(out: seq<string>, decimalPlaces: nat, seenPoint: bool, minDecimals: nat)
    requires AllChars(out)
    requires DecCount(Join(out)) == decimalPlaces && (seenPoint <==> '.' in Join(out))
    ensures AllChars(WithMinDecimals(out, decimalPlaces, seenPoint, minDecimals))
    ensures var r := Join(WithMinDecimals(out, decimalPlaces, seenPoint, minDecimals));
      DecCount(r) == if decimalPlaces < minDecimals then minDecimals else decimalPlaces
    ensures var r := Join(WithMinDecimals(out, decimalPlaces, seenPoint, minDecimals));
      '.' in r <==> seenPoint || decimalPlaces < minDecimals
    ensures decimalPlaces < minDecimals ==>
      Value(Join(WithMinDecimals(out, decimalPlaces, seenPoint, minDecimals))) == Shifted(Value(Join(out)), minDecimals - decimalPlaces)
    ensures decimalPlaces >= minDecimals ==>
      Value(Join(WithMinDecimals(out, decimalPlaces, seenPoint, minDecimals))) == Value(Join(out))
  {
    if decimalPlaces < minDecimals {
      var n := minDecimals - decimalPlaces;
      var r := WithMinDecimals(out, decimalPlaces, seenPoint, minDecimals);
      assert r == Pointed(out, seenPoint) + Cells(Zeros(n));
      PaddedFloor(out, decimalPlaces, seenPoint, n);
      var jr, jo := Join(r), Join(out);
      assert Value(jr) == Shifted(Value(jo), n);
    } else {
      assert WithMinDecimals(out, decimalPlaces, seenPoint, minDecimals) == out;
    }
  }

  /** The padding itself: a point if needed, then `n` zeros, which are all decimals. */
  lemma PaddedFloor(out: seq<string>, decimalPlaces: nat, seenPoint: bool, n: nat)
    requires AllChars(out)
    requires DecCount(Join(out)) == decimalPlaces && (seenPoint <==> '.' in Join(out))
    ensures var r := Pointed(out, seenPoint) + Cells(Zeros(n));
      && AllChars(r) && '.' in Join(r) && DecCount(Join(r)) == decimalPlaces + n
      && Value(Join(r)) == Shifted(Value(Join(out)), n)
  {
    var p := Pointed(out, seenPoint);
    PointedKeeps(out, decimalPlaces, seenPoint);
    PadZeros(p, n);
  }

  /** The pushed point adds no decimals and no digit value, and leaves a point in the text. */
  lemma PointedKeeps(out: seq<string>, decimalPlaces: nat, seenPoint: bool)
    requires AllChars(out)
    requires DecCount(Join(out)) == decimalPlaces && (seenPoint <==> '.' in Join(out))
    ensures var p := Pointed(out, seenPoint);
      && AllChars(p) && '.' in Join(p) && DecCount(Join(p)) == decimalPlaces && Value(Join(p)) == Value(Join(out))
  {
    var p := Pointed(out, seenPoint);
    if !seenPoint {
      assert decimalPlaces == 0 by { assert '.' !in Join(out); }
      JoinAppend(out, ["."]);
      JoinOne(".");
      JoinChars(out);
      assert |out| > 0 ==> Join(out)[|out| - 1] == out[|out| - 1][0];
      assert p == out + ["."];
      PushPointValue(out);
      assert Join(p) == Join(out) + ".";
      assert Join(p)[|Join(out)|] == '.';
      DecCountAppend(Join(out), '.');
    }
  }

  /** Zero cells pushed behind a point are decimals one for one and scale the digit value. */
  lemma PadZeros(p: seq<string>, n: nat)
    requires AllChars(p) && '.' in Join(p)
    ensures var r := p + Cells(Zeros(n));
      && AllChars(r) && '.' in Join(r) && DecCount(Join(r)) == DecCount(Join(p)) + n
      && Value(Join(r)) == Shifted(Value(Join(p)), n)
  {
    var z := Zeros(n);
    var r := p + Cells(z);
    var j := Join(p);
    assert AllChars(r) by {
      forall k | 0 <= k < |r| ensures |r[k]| == 1 && (IsDigit(r[k][0]) || r[k][0] == '.') {
        if k >= |p| { assert r[k] == [z[k - |p|]]; }
      }
    }
    JoinAppend(p, Cells(z));
    JoinCells(z);
    assert Join(r) == j + z;
    DecCountZeros(j, n);
    ValueZeros(n);
    ValueAppend(j, z);
    assert Value(j + z) == Shifted(Value(j), n);
    assert (j + z)[IndexOf(j, '.')] == '.';
  }

  /** Dropping the leading "0" of "0." changes neither the decimals nor the digit value. */
  lemma DropLeadingZeroKeeps(s: string, omitLeadingZero: bool)
    requires IsDigitText(s)
    ensures var r := WithoutLeadingZero(s, omitLeadingZero);
      && IsDigitText(r) && DecCount(r) == DecCount(s) && ('.' in r <==> '.' in s) && Value(r) == Value(s)
  {
    var r := WithoutLeadingZero(s, omitLeadingZero);
    if r != s {
      assert s == ['0'] + r;
      DecCountPrepend('0', r);
      ValueAppend("0", r);
      assert Value("0") == 0 by { assert "0"[..0] == ""; }
      ShiftedZero(NonPointCount(r));
    }
  }

  /** The trailing padding adds decimals one for one, and only behind a point. */
  lemma TrailingZerosAdd(s: string, omitTrailingZeroes: bool, count: int)
    requires IsDigitText(s)
    ensures var r := WithTrailingZeros(s, omitTrailingZeroes, count);
      var added := if !omitTrailingZeroes && '.' in s && count > 0 then count else 0;
      && IsDigitText(r) && DecCount(r) == DecCount(s) + added && ('.' in r <==> '.' in s)
      && Value(r) == Shifted(Value(s), added)
  {
    var added := if !omitTrailingZeroes && '.' in s && count > 0 then count else 0;
    DecCountZeros(s, added);
    ValueZeros(added);
    ValueAppend(s, Zeros(added));
    assert s + Zeros(0) == s;
    if '.' in s {
      assert (s + Zeros(added))[IndexOf(s, '.')] == '.';
    }
  }

  /**
    * The leading-zero policy on the final text: without the omission a
    * buffer that started with the point now starts "0."; with it, no result
    * starts "0." and a leading point stays bare.
    */
  lemma LeadingZeroPolicy(out: seq<string>, omitLeadingZero: bool)
    requires AllCells(out)
    ensures !omitLeadingZero ==> !StartsWith(WithoutLeadingZero(Join(WithLeadingZero(out, omitLeadingZero)), omitLeadingZero), ".")
    ensures omitLeadingZero ==> !StartsWith(WithoutLeadingZero(Join(WithLeadingZero(out, omitLeadingZero)), omitLeadingZero), "0.")
  {
    var r := WithLeadingZero(out, omitLeadingZero);
    var s := WithoutLeadingZero(Join(r), omitLeadingZero);
    if |r| > 0 {
      var rest := r[1..];
      assert r == [r[0]] + rest;
      JoinAppend([r[0]], rest);
      JoinOne(r[0]);
      assert Join(r) == r[0] + Join(rest);
      if !omitLeadingZero {
        assert s == Join(r);
        assert |r[0]| > 0 && s[0] == r[0][0];
        if out != [] && out[0] == "." {
          assert r[0] == "0";
        } else {
          assert r[0] == out[0];
        }
      } else if StartsWith(Join(r), "0.") {
        assert s[0] == '.';
      }
    } else {
      assert Join(r) == "";
    }
  }
}
