/** Characters, strings and the string-array buffer that `format` builds its result in. */
module Text {

  datatype Option<+T> = None | Some(value: T)

  predicate IsDigit(c: char) { '0' <= c <= '9' }

  /** `parseInt` of a one-character digit string. */
  function DigitValue(c: char): (d: nat)
    requires IsDigit(c)
    ensures d < 10
  {
    c as int - '0' as int
  }

  function DigitChar(d: nat): (c: char)
    requires d < 10
    ensures IsDigit(c) && DigitValue(c) == d
  {
    ('0' as int + d) as char
  }

  /** A string of `n` zero characters (`new Array(n).fill("0").join("")`). */
  function Zeros(n: nat): (z: string)
    ensures |z| == n
    ensures forall i :: 0 <= i < n ==> z[i] == '0'
  {
    seq(n, _ => '0')
  }

  /** JavaScript's `indexOf` on a single character: the first position, or -1. */
  function IndexOf(s: string, c: char): (r: int)
    ensures -1 <= r < |s|
    ensures r == -1 <==> c !in s
    ensures r >= 0 ==> s[r] == c && c !in s[..r]
  {
    if |s| == 0 then -1
    else if s[0] == c then 0
    else
      var k := IndexOf(s[1..], c);
      assert s[1..][..k + 1] == s[1..k + 2] by { if k >= 0 { assert s[1..k + 2] == s[1..][..k + 1]; } }
      if k == -1 then -1 else k + 1
  }

  function CountOf(s: string, c: char): nat
  {
    if s == [] then 0 else CountOf(s[..|s| - 1], c) + (if s[|s| - 1] == c then 1 else 0)
  }

  predicate StartsWith(s: string, prefix: string) { |prefix| <= |s| && s[..|prefix|] == prefix }

  /** The number of characters of `s` that are not a decimal point. */
  function NonPointCount(s: string): nat
  {
    if s == [] then 0 else NonPointCount(s[..|s| - 1]) + (if s[|s| - 1] != '.' then 1 else 0)
  }

  /** A string made only of digits and decimal points. */
  predicate IsDigitText(s: string) { forall i :: 0 <= i < |s| ==> IsDigit(s[i]) || s[i] == '.' }

  // ---------------------------------------------------------------------------
  // The output buffer. `format` collects its result in a JavaScript `string[]`
  // whose elements are one-character strings, except that `parseInt(".") + 1`
  // renders as the three-character element "NaN". `join("")` concatenates.

  /** An element the buffer can hold: one digit, a point, or "NaN". */
  predicate IsCell(cell: string)
  {
    (|cell| == 1 && (IsDigit(cell[0]) || cell[0] == '.')) || cell == "NaN"
  }

  /** An element that is one digit. */
  predicate IsDigitCell(cell: string) { |cell| == 1 && IsDigit(cell[0]) }

  predicate AllCells(cells: seq<string>) { forall k :: 0 <= k < |cells| ==> IsCell(cells[k]) }

  /** Every element is one digit or one point: no "NaN". */
  predicate AllChars(cells: seq<string>) { forall k :: 0 <= k < |cells| ==> |cells[k]| == 1 && (IsDigit(cells[k][0]) || cells[k][0] == '.') }

  /** A non-empty sequence is its front followed by its last element. */
  lemma SplitLast<T>(s: seq<T>)
    requires s != []
    ensures s == s[..|s| - 1] + [s[|s| - 1]]
  {
  }

  /** `array.join("")`. */
  function Join(cells: seq<string>): (s: string)
    ensures AllChars(cells) ==> IsDigitText(s)
  {
    if cells == [] then "" else Join(cells[..|cells| - 1]) + cells[|cells| - 1]
  }

  /** `string.split("")`: one element per character. */
  function Cells(s: string): (cells: seq<string>)
    ensures |cells| == |s|
    ensures forall k :: 0 <= k < |s| ==> cells[k] == [s[k]]
  {
    seq(|s|, k requires 0 <= k < |s| => [s[k]])
  }

  /** Digit text split into one-character elements is a buffer without "NaN". */
  lemma CellsAllChars(s: string)
    requires IsDigitText(s)
    ensures AllChars(Cells(s))
  {
    var cells := Cells(s);
    forall k | 0 <= k < |cells| ensures |cells[k]| == 1 && (IsDigit(cells[k][0]) || cells[k][0] == '.') {
      assert cells[k] == [s[k]];
    }
  }

  lemma {:induction false} JoinAppend(a: seq<string>, b: seq<string>)
    ensures Join(a + b) == Join(a) + Join(b)
    decreases |b|
  {
    if b == [] {
      assert a + b == a;
    } else {
      var b' := b[..|b| - 1];
      assert (a + b)[..|a + b| - 1] == a + b';
      JoinAppend(a, b');
    }
  }

  lemma {:induction false} JoinCells(s: string)
    ensures Join(Cells(s)) == s
    decreases |s|
  {
    if s != [] {
      var s' := s[..|s| - 1];
      assert Cells(s)[..|s| - 1] == Cells(s');
      JoinCells(s');
      assert s == s' + [s[|s| - 1]];
    }
  }

  lemma CellsAppend(a: string, b: string)
    ensures Cells(a + b) == Cells(a) + Cells(b)
  {
  }

  /** A buffer without "NaN" joins to one character per element. */
  lemma {:induction false} JoinChars(cells: seq<string>)
    requires AllChars(cells)
    ensures |Join(cells)| == |cells|
    ensures forall k :: 0 <= k < |cells| ==> Join(cells)[k] == cells[k][0]
    ensures Cells(Join(cells)) == cells
    decreases |cells|
  {
    if cells != [] {
      var init := cells[..|cells| - 1];
      JoinChars(init);
      assert cells[|cells| - 1] == [cells[|cells| - 1][0]];
    }
  }

  lemma NonPointCountAppend(a: string, b: string)
    ensures NonPointCount(a + b) == NonPointCount(a) + NonPointCount(b)
    decreases |b|
  {
    if b != [] {
      assert (a + b)[..|a + b| - 1] == a + b[..|b| - 1];
      NonPointCountAppend(a, b[..|b| - 1]);
    } else {
      assert a + b == a;
    }
  }

  lemma CountOfAppend(a: string, b: string, c: char)
    ensures CountOf(a + b, c) == CountOf(a, c) + CountOf(b, c)
    decreases |b|
  {
    if b != [] {
      assert (a + b)[..|a + b| - 1] == a + b[..|b| - 1];
      CountOfAppend(a, b[..|b| - 1], c);
    } else {
      assert a + b == a;
    }
  }

  lemma CountOfAbsent(s: string, c: char)
    ensures c !in s <==> CountOf(s, c) == 0
    decreases |s|
  {
    if s != [] {
      CountOfAbsent(s[..|s| - 1], c);
      assert s == s[..|s| - 1] + [s[|s| - 1]];
    }
  }

  // ---------------------------------------------------------------------------
  // Significant figures and decimal places of a rendered number.

  /** The index of the first character that is neither `0` nor a point, or `|s|`. */
  function FirstSignificant(s: string): (f: nat)
    ensures f <= |s|
    ensures f < |s| ==> s[f] != '0' && s[f] != '.'
    ensures forall q :: 0 <= q < f ==> s[q] == '0' || s[q] == '.'
  {
    if s == [] then 0
    else if s[0] == '0' || s[0] == '.' then 1 + FirstSignificant(s[1..])
    else 0
  }

  /** The significant figures of `s`: its non-point characters from the first significant one on. */
  function SigCount(s: string): nat
  {
    NonPointCount(s[FirstSignificant(s)..])
  }

  /** The decimal places of `s`: its non-point characters after the first point. */
  function DecCount(s: string): nat
  {
    if '.' in s then NonPointCount(s[IndexOf(s, '.') + 1..]) else 0
  }

  /** A position holding `c` with no `c` before it is the one `IndexOf` finds. */
  lemma IndexOfAt(s: string, c: char, i: nat)
    requires i < |s| && s[i] == c && c !in s[..i]
    ensures IndexOf(s, c) == i
  {
    assert c in s;
  }

  /** A single `c` between text without `c` is the first and the only one. */
  lemma SoleOccurrence(x: string, c: char, y: string)
    requires c !in x && c !in y
    ensures IndexOf(x + [c] + y, c) == |x|
    ensures CountOf(x + [c] + y, c) == 1
  {
    var t := x + [c] + y;
    assert t[..|x|] == x;
    IndexOfAt(t, c, |x|);
    CountOfAbsent(x, c);
    CountOfAbsent(y, c);
    CountOfAppend(x + [c], y, c);
    CountOfAppend(x, [c], c);
    assert CountOf([c], c) == 1 by { assert [c][..0] == []; }
  }

  lemma IndexOfAppend(s: string, c: char, x: char)
    ensures x in s ==> IndexOf(s + [c], x) == IndexOf(s, x)
    ensures x !in s && c == x ==> IndexOf(s + [c], x) == |s|
  {
    var t := s + [c];
    if x in s {
      var r := IndexOf(s, x);
      assert t[r] == x && t[..r] == s[..r];
    } else if c == x {
      assert t[|s|] == x && t[..|s|] == s;
    }
  }

  lemma {:induction false} FirstSignificantAppend(s: string, c: char)
    ensures FirstSignificant(s + [c]) ==
      if FirstSignificant(s) < |s| || (c != '0' && c != '.') then FirstSignificant(s) else |s| + 1
    decreases |s|
  {
    if s != [] {
      assert (s + [c])[1..] == s[1..] + [c];
      FirstSignificantAppend(s[1..], c);
    }
  }

  lemma NonPointCountFirst(t: string)
    requires |t| > 0 && t[0] != '.'
    ensures NonPointCount(t) >= 1
  {
    NonPointCountAppend([t[0]], t[1..]);
    assert [t[0]] + t[1..] == t;
    assert [t[0]][..0] == [];
  }

  /** Appending a character moves the significant-figure count exactly as the scan's counter moves. */
  lemma SigCountAppend(s: string, c: char)
    ensures SigCount(s + [c]) == SigCount(s) + (if c != '.' && (SigCount(s) > 0 || c != '0') then 1 else 0)
  {
    var f := FirstSignificant(s);
    FirstSignificantAppend(s, c);
    if f < |s| {
      NonPointCountFirst(s[f..]);
      assert (s + [c])[f..] == s[f..] + [c];
      NonPointCountAppend(s[f..], [c]);
    } else if c != '0' && c != '.' {
      assert (s + [c])[f..] == [c];
    }
  }

  /** Appending a character moves the decimal-place count exactly as the scan's counter moves. */
  lemma DecCountAppend(s: string, c: char)
    ensures DecCount(s + [c]) == DecCount(s) + (if c != '.' && '.' in s then 1 else 0)
  {
    IndexOfAppend(s, c, '.');
    if '.' in s {
      var r := IndexOf(s, '.');
      assert (s + [c])[r + 1..] == s[r + 1..] + [c];
      NonPointCountAppend(s[r + 1..], [c]);
    } else if c == '.' {
      assert (s + [c])[|s| + 1..] == [];
    }
  }

  /** A character in front that is not a point changes neither the decimals nor the presence of a point. */
  lemma DecCountPrepend(c: char, s: string)
    requires c != '.'
    ensures DecCount([c] + s) == DecCount(s)
    ensures '.' in [c] + s <==> '.' in s
  {
    var t := [c] + s;
    assert t[1..] == s;
    if '.' in s {
      var r := IndexOf(s, '.');
      assert t[r + 1] == '.' && t[..r + 1] == [c] + s[..r];
      assert IndexOf(t, '.') == r + 1;
      assert t[r + 2..] == s[r + 1..];
    }
  }

  /** Zeros after a point are decimals; without a point they are not. */
  lemma {:induction false} DecCountZeros(s: string, n: nat)
    ensures '.' in s ==> DecCount(s + Zeros(n)) == DecCount(s) + n
    ensures '.' !in s ==> DecCount(s + Zeros(n)) == 0 && '.' !in s + Zeros(n)
    decreases n
  {
    if n == 0 {
      assert s + Zeros(n) == s;
      if '.' !in s {
        assert DecCount(s) == 0;
      }
    } else {
      DecCountZeros(s, n - 1);
      assert s + Zeros(n) == (s + Zeros(n - 1)) + ['0'];
      DecCountAppend(s + Zeros(n - 1), '0');
      if '.' in s {
        assert '.' in s + Zeros(n - 1) by { assert (s + Zeros(n - 1))[IndexOf(s, '.')] == '.'; }
      }
    }
  }

  // ---------------------------------------------------------------------------
  // The number a digit string denotes once its points are ignored. `format`
  // never computes it; the model uses it to state what rounding does.

  /** A digit value with `n` zeros written after it: `v` times ten to the `n`. */
  function Shifted(v: nat, n: nat): nat
  {
    if n == 0 then v else 10 * Shifted(v, n - 1)
  }

  /** Writing `a` zeros and then `b` more is writing `a + b` zeros. */
  lemma {:induction false} ShiftedAdd(v: nat, a: nat, b: nat)
    ensures Shifted(Shifted(v, a), b) == Shifted(v, a + b)
    decreases b
  {
    if b > 0 {
      ShiftedAdd(v, a, b - 1);
    }
  }

  /** Shifting distributes over a sum. */
  lemma {:induction false} ShiftedSum(v: nat, w: nat, n: nat)
    ensures Shifted(v + w, n) == Shifted(v, n) + Shifted(w, n)
    decreases n
  {
    if n > 0 {
      ShiftedSum(v, w, n - 1);
    }
  }

  /** Zeros written after nothing are worth nothing. */
  lemma {:induction false} ShiftedZero(n: nat)
    ensures Shifted(0, n) == 0
    decreases n
  {
    if n > 0 {
      ShiftedZero(n - 1);
    }
  }

  function Value(s: string): nat
    requires IsDigitText(s)
  {
    if s == [] then 0
    else
      var c := s[|s| - 1];
      if c == '.' then Value(s[..|s| - 1]) else 10 * Value(s[..|s| - 1]) + DigitValue(c)
  }

  lemma {:induction false} ValueAppend(a: string, b: string)
    requires IsDigitText(a) && IsDigitText(b)
    ensures IsDigitText(a + b)
    ensures Value(a + b) == Shifted(Value(a), NonPointCount(b)) + Value(b)
    decreases |b|
  {
    assert IsDigitText(a + b);
    if b == [] {
      assert a + b == a;
    } else {
      var b' := b[..|b| - 1];
      var c := b[|b| - 1];
      assert (a + b)[..|a + b| - 1] == a + b';
      assert (a + b)[|a + b| - 1] == c;
      ValueAppend(a, b');
      if c != '.' {
        assert NonPointCount(b) == NonPointCount(b') + 1;
      } else {
        assert NonPointCount(b) == NonPointCount(b');
      }
    }
  }

  lemma {:induction false} ValueZeros(n: nat)
    ensures IsDigitText(Zeros(n)) && Value(Zeros(n)) == 0 && NonPointCount(Zeros(n)) == n
  {
    if n > 0 {
      assert Zeros(n)[..n - 1] == Zeros(n - 1);
      ValueZeros(n - 1);
    }
  }

  /** Digit value ignores where a point stands. */
  lemma ValueIgnoresPoint(x: string, y: string)
    requires IsDigitText(x) && IsDigitText(y)
    ensures IsDigitText(x + "." + y) && Value(x + "." + y) == Value(x + y)
  {
    var py := "." + y;
    assert IsDigitText(py);
    ValueAppend(".", y);
    NonPointCountAppend(".", y);
    assert "."[..0] == "";
    assert Value(".") == 0 && NonPointCount(".") == 0;
    ShiftedZero(NonPointCount(y));
    assert Value(py) == Value(y) && NonPointCount(py) == NonPointCount(y);
    ValueAppend(x, py);
    ValueAppend(x, y);
    assert x + "." + y == x + py;
  }

  /** `splice(n * -1, 0, ".")` on the characters of `s`: a point with `n` characters after it. */
  function SplitAt(s: string, n: nat): string
    requires n <= |s|
  {
    s[..|s| - n] + "." + s[|s| - n..]
  }

  /**
    * The spliced point sits `n` characters from the end; deleting it gives
    * `s` back, so digit text stays digit text with the same digit value.
    */
  lemma SplitAtPoint(s: string, n: nat)
    requires n <= |s| && IsDigitText(s)
    ensures |SplitAt(s, n)| == |s| + 1 && SplitAt(s, n)[|s| - n] == '.'
    ensures SplitAt(s, n)[..|s| - n] == s[..|s| - n] && SplitAt(s, n)[|s| - n + 1..] == s[|s| - n..]
    ensures SplitAt(s, n)[..|s| - n] + SplitAt(s, n)[|s| - n + 1..] == s
    ensures IsDigitText(SplitAt(s, n)) && Value(SplitAt(s, n)) == Value(s)
  {
    var cut := |s| - n;
    var x, y := s[..cut], s[cut..];
    var t := SplitAt(s, n);
    assert t == x + "." + y;
    assert t[..cut] == x;
    assert t[cut + 1..] == y;
    assert x + y == s;
    ValueIgnoresPoint(x, y);
  }

  lemma JoinOne(x: string)
    ensures Join([x]) == x
  {
    var none: seq<string> := [];
    assert [x][..0] == none;
  }

  /** Pushing a point onto a buffer leaves its digit value alone. */
  lemma PushPointValue(cells: seq<string>)
    requires AllChars(cells)
    ensures AllChars(cells + ["."]) && Value(Join(cells + ["."])) == Value(Join(cells))
  {
    var s := Join(cells + ["."]);
    assert (cells + ["."])[..|cells|] == cells;
    assert s == Join(cells) + ".";
    assert s[..|s| - 1] == Join(cells);
  }

  /** Pushing a digit onto a buffer shifts its digit value by one place. */
  lemma PushDigitValue(cells: seq<string>, c: string)
    requires AllChars(cells) && IsDigitCell(c)
    ensures AllChars(cells + [c]) && Value(Join(cells + [c])) == 10 * Value(Join(cells)) + DigitValue(c[0])
  {
    var s := Join(cells + [c]);
    assert (cells + [c])[..|cells|] == cells;
    assert s == Join(cells) + c;
    assert c == [c[0]];
    assert s[..|s| - 1] == Join(cells);
  }
}
