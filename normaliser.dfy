/**
  * The normaliser: strips the sign, left-pads the digits with zeros and
  * splices in the decimal point that the digit selector relies on.
  */
module Normaliser {
  import opened Text
  import opened Config

  /** The text this model accepts as input: digits with at most one point, as a number renders. */
  predicate IsNumberText(s: string) { IsDigitText(s) && CountOf(s, '.') <= 1 }

  /** `_inputString.startsWith("-")`. */
  predicate IsNegative(s: string) { |s| > 0 && s[0] == '-' }

  /** The input with one leading `-` removed. */
  function Unsigned(s: string): string { if IsNegative(s) then s[1..] else s }

  predicate WellFormedInput(s: string) { IsNumberText(Unsigned(s)) }

  /**
    * `parseFloat(_inputString) === 0` in the Dist revision, on number text:
    * there is a digit and every digit is zero ("-0", "0.", ".00"; not "" or ".").
    */
  predicate IsZeroText(s: string)
  {
    var u := Unsigned(s);
    (exists i :: 0 <= i < |u| && IsDigit(u[i])) && forall i :: 0 <= i < |u| ==> u[i] == '0' || u[i] == '.'
  }

  /** `s.padStart(n, "0")`. */
  function PadStart(s: string, n: nat): (r: string)
    ensures |r| == if |s| < n then n else |s|
  {
    if |s| < n then Zeros(n - |s|) + s else s
  }

  /**
    * The positioned digits: the padded text with a point spliced in so that
    * `tokenDecimals` characters follow it; with `tokenDecimals` 0 a point is
    * pushed at the end, in the Dist revision only if there is none yet.
    */
  function Positioned(body: string, tokenDecimals: nat, rev: Revision): (p: string)
  {
    var padded := PadStart(body, tokenDecimals);
    if tokenDecimals != 0 then SplitAt(padded, tokenDecimals)
    else if rev == Src || '.' !in padded then padded + "."
    else padded
  }

  /** The positioned digits always hold a point and stay over the digit alphabet. */
  lemma PositionedHasPoint(body: string, tokenDecimals: nat, rev: Revision)
    requires IsDigitText(body)
    ensures var p := Positioned(body, tokenDecimals, rev);
      '.' in p && IsDigitText(p) && IndexOf(p, '.') >= 0
  {
    var padded := PadStart(body, tokenDecimals);
    PaddedValue(body, tokenDecimals);
    var p := Positioned(body, tokenDecimals, rev);
    if tokenDecimals != 0 {
      SplitAtPoint(padded, tokenDecimals);
      assert p[|padded| - tokenDecimals] == '.';
    } else if rev == Src || '.' !in padded {
      assert p == padded + ".";
      assert p[|padded|] == '.';
    } else {
      assert p == padded;
    }
  }

  /**
    * With a positive scale the point is spliced into the padded body so that
    * exactly `tokenDecimals` characters follow it (`SplitAtPoint` says that
    * deleting it gives the padded body back), and the digit value is the
    * body's.
    */
  lemma PointPlacement(body: string, tokenDecimals: nat, rev: Revision)
    requires IsDigitText(body) && tokenDecimals > 0
    ensures Positioned(body, tokenDecimals, rev) == SplitAt(PadStart(body, tokenDecimals), tokenDecimals)
    ensures |Positioned(body, tokenDecimals, rev)| == (if |body| < tokenDecimals then tokenDecimals else |body|) + 1
    ensures Positioned(body, tokenDecimals, rev)[|Positioned(body, tokenDecimals, rev)| - tokenDecimals - 1] == '.'
    ensures IsDigitText(Positioned(body, tokenDecimals, rev))
    ensures Value(Positioned(body, tokenDecimals, rev)) == Value(body)
  {
    var padded := PadStart(body, tokenDecimals);
    PaddedValue(body, tokenDecimals);
    SplitAtPoint(padded, tokenDecimals);
  }

  /** Positioning keeps the digit value at every scale: padding adds leading zeros, and points are not digits. */
  lemma PositionedValue(body: string, tokenDecimals: nat, rev: Revision)
    requires IsDigitText(body)
    ensures IsDigitText(Positioned(body, tokenDecimals, rev))
    ensures Value(Positioned(body, tokenDecimals, rev)) == Value(body)
  {
    PositionedHasPoint(body, tokenDecimals, rev);
    if tokenDecimals > 0 {
      PointPlacement(body, tokenDecimals, rev);
    } else {
      assert PadStart(body, 0) == body;
      ValueIgnoresPoint(body, "");
      assert body + "." + "" == body + "." && body + "" == body;
    }
  }

  /** The padding is zeros written before the body, so it keeps the digit value. */
  lemma PaddedValue(body: string, n: nat)
    requires IsDigitText(body)
    ensures var padded := PadStart(body, n);
      && padded == Zeros(|padded| - |body|) + body
      && IsDigitText(padded) && Value(padded) == Value(body)
  {
    var padded := PadStart(body, n);
    var z := Zeros(|padded| - |body|);
    assert padded == z + body;
    ValueZeros(|z|);
    ValueAppend(z, body);
    ShiftedZero(NonPointCount(body));
  }

  /** For body text without a point, the spliced-in point is the first one, `tokenDecimals` from the end. */
  lemma PointIsFirst(body: string, tokenDecimals: nat, rev: Revision)
    requires IsDigitText(body) && '.' !in body && tokenDecimals > 0
    ensures IndexOf(Positioned(body, tokenDecimals, rev), '.') == |Positioned(body, tokenDecimals, rev)| - tokenDecimals - 1
    ensures CountOf(Positioned(body, tokenDecimals, rev), '.') == 1
  {
    var padded := PadStart(body, tokenDecimals);
    var cut := |padded| - tokenDecimals;
    var x, y := padded[..cut], padded[cut..];
    assert Positioned(body, tokenDecimals, rev) == x + "." + y;
    assert '.' !in padded by {
      if |body| < tokenDecimals {
        var z := Zeros(tokenDecimals - |body|);
        assert '.' !in z;
        assert padded == z + body;
      }
    }
    assert '.' !in x && '.' !in y by {
      assert x + y == padded;
    }
    SoleOccurrence(x, '.', y);
  }

  /**
    * With scale 0, the Src revision always pushes a point; the Dist revision
    * pushes one only if the text has none, so a number text keeps exactly one.
    */
  lemma ZeroScalePoint(body: string, rev: Revision)
    requires IsNumberText(body)
    ensures rev == Src ==> Positioned(body, 0, rev) == body + "."
    ensures rev == Dist ==> Positioned(body, 0, rev) == (if '.' in body then body else body + ".")
    ensures rev == Dist ==> CountOf(Positioned(body, 0, rev), '.') == 1
    ensures rev == Src && '.' in body ==> CountOf(Positioned(body, 0, rev), '.') == 2
  {
    CountOfAbsent(body, '.');
    CountOfAppend(body, ".", '.');
    assert CountOf(".", '.') == 1 by { assert "."[..0] == ""; }
  }
}
