/**
  * Rounding in the digit selector: the lookahead that decides whether to
  * round up, and the backward carry through the output buffer.
  */
module Rounding {
  import opened Text

  /** `parseInt(char) > 5`; a non-digit parses to NaN, which is not above 5. */
  predicate AboveFive(c: char) { IsDigit(c) && DigitValue(c) > 5 }

  /**
    * The lookahead from index `from`: points and fives are skipped and the
    * first other character decides; running off the end means no round-up.
    */
  function DecisiveAhead(p: string, from: nat): bool
    decreases |p| - from
  {
    if from >= |p| then false
    else if p[from] == '.' || p[from] == '5' then DecisiveAhead(p, from + 1)
    else AboveFive(p[from])
  }

  /** The lookahead rounds up exactly when, after a run of points and fives, a digit above 5 follows. */
  lemma {:induction false} DecisiveAheadMeaning(p: string, from: nat)
    ensures DecisiveAhead(p, from) <==>
      exists r :: from <= r < |p| && AboveFive(p[r]) && forall q :: from <= q < r ==> p[q] == '.' || p[q] == '5'
    decreases |p| - from
  {
    if from < |p| {
      DecisiveAheadMeaning(p, from + 1);
      if p[from] != '.' && p[from] != '5' {
        if DecisiveAhead(p, from) {
          assert AboveFive(p[from]);
        } else {
          forall r | from <= r < |p| && AboveFive(p[r])
            ensures exists q :: from <= q < r && p[q] != '.' && p[q] != '5'
          {
            assert r != from;
          }
        }
      } else if DecisiveAhead(p, from) {
        var r :| from + 1 <= r < |p| && AboveFive(p[r]) && forall q :: from + 1 <= q < r ==> p[q] == '.' || p[q] == '5';
        assert forall q :: from <= q < r ==> p[q] == '.' || p[q] == '5';
      }
    }
  }

  /** The lookahead loop that starts after index `i`. */
  method LookAhead(p: string, i: nat) returns (shouldRoundUp: bool)
    ensures shouldRoundUp == DecisiveAhead(p, i + 1)
  {
    shouldRoundUp := false;
    var r := i + 1;
    while r < |p|
      invariant i + 1 <= r
      invariant DecisiveAhead(p, i + 1) == DecisiveAhead(p, r)
      decreases |p| - r
    {
      var c := p[r];
      if c != '.' && c != '5' {
        shouldRoundUp := AboveFive(c);
        return;
      }
      r := r + 1;
    }
  }

  /** `(parseInt(cell) + 1).toString()` on an element of the buffer; a point gives "NaN". */
  function Bump(cell: string): (r: string)
    requires IsCell(cell)
    ensures cell != "9" ==> IsCell(r)
    ensures IsDigitCell(cell) && cell != "9" ==> IsDigitCell(r) && DigitValue(r[0]) == DigitValue(cell[0]) + 1
    ensures cell == "9" ==> r == "10"
    ensures !IsDigitCell(cell) ==> r == "NaN"
  {
    if IsDigitCell(cell) then
      if cell[0] == '9' then "10" else [DigitChar(DigitValue(cell[0]) + 1)]
    else "NaN"
  }

  /**
    * The backward carry walk over the buffer: points are skipped, nines
    * become zeros, the first other element is bumped. A `1` is put in front
    * only when the walk turns a nine at index 0 into a zero; a walk that runs
    * out on a leading point, or finds nothing at all, drops the carry.
    */
  function CarryInto(cells: seq<string>): (r: seq<string>)
    requires AllCells(cells)
    ensures AllCells(r)
    decreases |cells|
  {
    if cells == [] then []
    else
      var init, last := cells[..|cells| - 1], cells[|cells| - 1];
      if last == "." then CarryInto(init) + ["."]
      else if last == "9" then (if init == [] then ["1", "0"] else CarryInto(init) + ["0"])
      else init + [Bump(last)]
  }

  /** What the scan pushes for the element `c` when the lookahead says round up. */
  function RoundUp(out: seq<string>, c: string): (r: seq<string>)
    requires AllCells(out) && IsCell(c)
    ensures AllCells(r)
  {
    if c != "9" then out + [Bump(c)] else CarryInto(out) + ["0"]
  }

  /**
    * The carry loop run when a 9 rounds up: push "0", then walk back from the
    * element before it, writing in place and putting a "1" in front when the
    * walk turns a 9 at index 0 into a 0.
    */
  method RoundUpNine(out: seq<string>) returns (r: seq<string>)
    requires AllCells(out)
    ensures r == CarryInto(out) + ["0"]
  {
    r := out + ["0"];
    var j := |r| - 2;
    ghost var done: seq<string> := ["0"];
    assert out[..j + 1] == out;
    while j >= 0
      invariant -1 <= j < |out|
      invariant r == out[..j + 1] + done
      invariant CarryInto(out) + ["0"] == CarryInto(out[..j + 1]) + done
      decreases j + 1
    {
      CarryStep(out, j, done);
      assert r[j] == out[j];
      if r[j] == "." {
        done := ["."] + done;
      } else if r[j] == "9" {
        r := r[j := "0"];
        done := ["0"] + done;
        if j == 0 {
          r := ["1"] + r;
          done := ["1"] + done;
        }
      } else {
        r := r[j := Bump(r[j])];
        break;
      }
      j := j - 1;
    }
  }

  /**
    * One step of the carry walk, read off the element at index `j` with the
    * finished part `done` after it: a point is passed over, a 9 becomes a 0
    * (and a 9 at index 0 gets a "1" in front), any other element is bumped.
    */
  lemma CarryStep(out: seq<string>, j: nat, done: seq<string>)
    requires AllCells(out) && j < |out|
    ensures out[..j + 1] + done == out[..j] + ([out[j]] + done)
    ensures (out[..j + 1] + done)[j := "0"] == out[..j] + (["0"] + done)
    ensures out[j] != "9" ==> (out[..j + 1] + done)[j := Bump(out[j])] == out[..j] + [Bump(out[j])] + done
    ensures out[j] == "." ==> CarryInto(out[..j + 1]) + done == CarryInto(out[..j]) + (["."] + done)
    ensures out[j] == "9" && j > 0 ==> CarryInto(out[..j + 1]) + done == CarryInto(out[..j]) + (["0"] + done)
    ensures out[j] == "9" && j == 0 ==> CarryInto(out[..j + 1]) + done == ["1"] + (["0"] + done)
    ensures out[j] != "." && out[j] != "9" ==> CarryInto(out[..j + 1]) + done == out[..j] + [Bump(out[j])] + done
  {
    var front := out[..j];
    assert out[..j + 1] == front + [out[j]];
    assert out[..j + 1][..j] == front;
  }

  /** The carry reaches a digit it can keep: a non-9 digit, or a 9 at index 0. */
  predicate CarryKept(cells: seq<string>)
  {
    exists q :: 0 <= q < |cells| && IsDigitCell(cells[q]) && (cells[q] != "9" || q == 0)
  }

  /** The carry runs past index 0: index 0 is a 9 and everything else is a 9 or a point. */
  predicate Overflows(cells: seq<string>)
  {
    |cells| > 0 && cells[0] == "9" && forall k :: 0 <= k < |cells| ==> cells[k] == "9" || cells[k] == "."
  }

  /**
    * The buffer grows by one exactly on overflow, and then starts with "1";
    * every point keeps its place (shifted by the new front element).
    */
  lemma {:induction false} CarryShape(cells: seq<string>)
    requires AllCells(cells)
    ensures AllCells(CarryInto(cells))
    ensures |CarryInto(cells)| == |cells| + if Overflows(cells) then 1 else 0
    ensures Overflows(cells) ==> CarryInto(cells)[0] == "1"
    ensures var r, shift := CarryInto(cells), if Overflows(cells) then 1 else 0;
      forall k :: 0 <= k < |cells| ==> (cells[k] == "." <==> r[k + shift] == ".")
    decreases |cells|
  {
    if cells != [] {
      var init, last := cells[..|cells| - 1], cells[|cells| - 1];
      assert AllCells(init);
      if last == "." || (last == "9" && init != []) {
        CarryShape(init);
        CarryShapePast(cells);
      } else if last == "9" {
        assert cells == ["9"];
        assert Overflows(cells);
      } else {
        assert !Overflows(cells);
        assert Bump(last) != ".";
        assert CarryInto(cells) == init + [Bump(last)];
      }
    }
  }

  /** The shape of the walk past a final point or nine, from its shape on the rest. */
  lemma CarryShapePast(cells: seq<string>)
    requires AllCells(cells) && |cells| > 0
    requires var last := cells[|cells| - 1]; last == "." || (last == "9" && |cells| > 1)
    requires var init := cells[..|cells| - 1]; var c, shift := CarryInto(init), if Overflows(init) then 1 else 0;
      && |c| == |init| + shift
      && (Overflows(init) ==> c[0] == "1")
      && forall k :: 0 <= k < |init| ==> (init[k] == "." <==> c[k + shift] == ".")
    ensures |CarryInto(cells)| == |cells| + if Overflows(cells) then 1 else 0
    ensures Overflows(cells) ==> CarryInto(cells)[0] == "1"
    ensures var r, shift := CarryInto(cells), if Overflows(cells) then 1 else 0;
      forall k :: 0 <= k < |cells| ==> (cells[k] == "." <==> r[k + shift] == ".")
  {
    var init, last := cells[..|cells| - 1], cells[|cells| - 1];
    assert AllCells(init);
    var c := CarryInto(init);
    var d := if last == "." then "." else "0";
    var r := CarryInto(cells);
    assert r == c + [d];
    assert Overflows(cells) <==> Overflows(init) by {
      if Overflows(init) {
        forall k | 0 <= k < |cells| ensures cells[k] == "9" || cells[k] == "." {
          if k < |init| { assert cells[k] == init[k]; }
        }
      }
      if Overflows(cells) {
        assert init != [] by { assert cells[0] == "9"; }
        forall k | 0 <= k < |init| ensures init[k] == "9" || init[k] == "." {
          assert init[k] == cells[k];
        }
      }
    }
    var shift := if Overflows(cells) then 1 else 0;
    forall k | 0 <= k < |cells| ensures cells[k] == "." <==> r[k + shift] == "." {
      if k < |init| {
        assert cells[k] == init[k];
        assert r[k + shift] == c[k + shift];
      } else {
        assert r[k + shift] == d;
      }
    }
  }

  /**
    * Rounding up adds one to the digit value of the buffer when the carry is
    * kept; when it is dropped every digit has become 0.
    */
  lemma {:induction false} CarryValue(cells: seq<string>)
    requires AllChars(cells)
    ensures AllChars(CarryInto(cells))
    ensures CarryKept(cells) ==> Value(Join(CarryInto(cells))) == Value(Join(cells)) + 1
    ensures !CarryKept(cells) ==> Value(Join(CarryInto(cells))) == 0
    decreases |cells|
  {
    if cells != [] {
      var init, last := cells[..|cells| - 1], cells[|cells| - 1];
      assert AllChars(init);
      SplitLast(cells);
      if last == "." {
        CarryValue(init);
        PushPointValue(init);
        PushPointValue(CarryInto(init));
        KeptSkipsLast(cells);
      } else if last == "9" {
        if init == [] {
          NineAlone();
          assert CarryKept(cells) by { assert IsDigitCell(cells[0]); }
        } else {
          PushDigitValue(init, "9");
          KeptSkipsLast(cells);
          CarryValue(init);
          PushDigitValue(CarryInto(init), "0");
        }
      } else {
        BumpLastValue(cells);
      }
    }
  }

  /** A lone 9 carries into a new front "1": "9" becomes "10". */
  lemma NineAlone()
    ensures CarryInto(["9"]) == ["1", "0"]
    ensures Join(["9"]) == "9"
    ensures Join(["1", "0"]) == "10"
    ensures AllChars(["1", "0"])
    ensures Value("9") == 9
    ensures Value("10") == 10
    ensures DecCount("9") == 0
    ensures DecCount("10") == 0
  {
    JoinOne("9");
    JoinAppend(["1"], ["0"]);
    JoinOne("1");
    JoinOne("0");
    assert ["1"] + ["0"] == ["1", "0"];
    assert "10"[..1] == "1";
    assert "1"[..0] == "";
  }

  /** A last digit other than 9 takes the carry itself. */
  lemma BumpLastValue(cells: seq<string>)
    requires AllChars(cells) && cells != []
    requires cells[|cells| - 1] != "." && cells[|cells| - 1] != "9"
    ensures AllChars(CarryInto(cells)) && CarryKept(cells)
    ensures Value(Join(CarryInto(cells))) == Value(Join(cells)) + 1
  {
    var init, last := cells[..|cells| - 1], cells[|cells| - 1];
    assert AllChars(init);
    SplitLast(cells);
    assert CarryKept(cells) by { assert IsDigitCell(cells[|cells| - 1]); }
    var b := Bump(last);
    assert b == [DigitChar(DigitValue(last[0]) + 1)];
    PushDigitValue(init, last);
    PushDigitValue(init, b);
  }

  /** A final point, or a final nine that is not at index 0, does not decide whether the carry is kept. */
  lemma KeptSkipsLast(cells: seq<string>)
    requires |cells| > 1 || (|cells| == 1 && cells[0] == ".")
    requires cells[|cells| - 1] == "." || cells[|cells| - 1] == "9"
    ensures CarryKept(cells) <==> CarryKept(cells[..|cells| - 1])
  {
    var init := cells[..|cells| - 1];
    if CarryKept(cells) {
      var q :| 0 <= q < |cells| && IsDigitCell(cells[q]) && (cells[q] != "9" || q == 0);
      assert q < |init|;
      assert init[q] == cells[q];
    }
    if CarryKept(init) {
      var q :| 0 <= q < |init| && IsDigitCell(init[q]) && (init[q] != "9" || q == 0);
      assert cells[q] == init[q];
    }
  }

  /**
    * Rounding a digit up adds one to the digit value of the buffer it ends,
    * except when a 9 rounds and its carry is dropped; then every digit is 0.
    */
  lemma RoundUpValue(out: seq<string>, c: string)
    requires AllChars(out) && IsDigitCell(c)
    ensures AllChars(RoundUp(out, c)) && AllChars(out + [c])
    ensures c != "9" || CarryKept(out) ==> Value(Join(RoundUp(out, c))) == Value(Join(out + [c])) + 1
    ensures c == "9" && !CarryKept(out) ==> Value(Join(RoundUp(out, c))) == 0
  {
    PushDigitValue(out, c);
    if c != "9" {
      var b := Bump(c);
      PushDigitValue(out, b);
    } else {
      CarryValue(out);
      PushDigitValue(CarryInto(out), "0");
    }
  }

  /**
    * The scan's round-up is the carry walk over the buffer with the new digit
    * pushed, except for a 9 that is the buffer's first element: the walk then
    * never runs and the carry is dropped.
    */
  lemma RoundUpIsCarry(out: seq<string>, c: string)
    requires AllCells(out) && IsDigitCell(c)
    ensures out != [] || c != "9" ==> RoundUp(out, c) == CarryInto(out + [c])
    ensures out == [] && c == "9" ==> RoundUp(out, c) == ["0"] && CarryInto(out + [c]) == ["1", "0"]
  {
    assert (out + [c])[..|out|] == out;
  }

  /**
    * The carry walk keeps the decimals: the points stay where they are and
    * every digit behind the first one is replaced by a digit.
    */
  lemma {:induction false} CarryKeepsDecimals(cells: seq<string>)
    requires AllChars(cells)
    ensures AllChars(CarryInto(cells))
    ensures DecCount(Join(CarryInto(cells))) == DecCount(Join(cells))
    ensures '.' in Join(CarryInto(cells)) <==> '.' in Join(cells)
    decreases |cells|
  {
    if cells != [] {
      var init, last := cells[..|cells| - 1], cells[|cells| - 1];
      assert AllChars(init);
      SplitLast(cells);
      if last == "." || (last == "9" && init != []) {
        CarryKeepsDecimals(init);
        CarryPastKeepsDecimals(cells);
      } else if last == "9" {
        NineAlone();
      } else {
        BumpKeepsDecimals(cells);
      }
    }
  }

  /** A point or a nine at the end, passed over by the walk, keeps the decimals the walk kept before it. */
  lemma CarryPastKeepsDecimals(cells: seq<string>)
    requires AllChars(cells) && |cells| > 0
    requires var last := cells[|cells| - 1]; last == "." || (last == "9" && |cells| > 1)
    requires var init := cells[..|cells| - 1];
      && AllChars(CarryInto(init))
      && DecCount(Join(CarryInto(init))) == DecCount(Join(init))
      && ('.' in Join(CarryInto(init)) <==> '.' in Join(init))
    ensures AllChars(CarryInto(cells))
    ensures DecCount(Join(CarryInto(cells))) == DecCount(Join(cells))
    ensures '.' in Join(CarryInto(cells)) <==> '.' in Join(cells)
  {
    var init, last := cells[..|cells| - 1], cells[|cells| - 1];
    assert AllChars(init);
    SplitLast(cells);
    assert last == [last[0]];
    var j := Join(init);
    assert Join(cells) == j + last by { JoinAppend(init, [last]); JoinOne(last); }
    var c := CarryInto(init);
    var d := if last == "." then "." else "0";
    var r := CarryInto(cells);
    assert r == c + [d];
    assert AllChars(r) by {
      forall k | 0 <= k < |r| ensures |r[k]| == 1 && (IsDigit(r[k][0]) || r[k][0] == '.') {
        if k < |c| { assert r[k] == c[k]; }
      }
    }
    assert Join(r) == Join(c) + d by { JoinAppend(c, [d]); JoinOne(d); }
    AppendAlike(Join(c), j, d[0], last[0]);
  }

  /** A last digit other than 9, bumped, stays one digit: the decimals do not change. */
  lemma BumpKeepsDecimals(cells: seq<string>)
    requires AllChars(cells) && cells != []
    requires cells[|cells| - 1] != "." && cells[|cells| - 1] != "9"
    ensures AllChars(CarryInto(cells))
    ensures DecCount(Join(CarryInto(cells))) == DecCount(Join(cells))
    ensures '.' in Join(CarryInto(cells)) <==> '.' in Join(cells)
  {
    var init, last := cells[..|cells| - 1], cells[|cells| - 1];
    assert AllChars(init);
    SplitLast(cells);
    assert last == [last[0]];
    var j := Join(init);
    assert Join(cells) == j + last by { JoinAppend(init, [last]); JoinOne(last); }
    assert IsDigitCell(last);
    var b := Bump(last);
    assert |b| == 1 && IsDigit(b[0]);
    assert b == [b[0]];
    var r := CarryInto(cells);
    assert r == init + [b];
    assert AllChars(r) by {
      forall k | 0 <= k < |r| ensures |r[k]| == 1 && (IsDigit(r[k][0]) || r[k][0] == '.') {
        if k < |init| { assert r[k] == init[k]; }
      }
    }
    assert Join(r) == j + b by { JoinAppend(init, [b]); JoinOne(b); }
    AppendAlike(j, j, b[0], last[0]);
  }

  /** Two texts alike in decimals stay alike when each gets a character of the same kind. */
  lemma AppendAlike(x: string, y: string, c: char, d: char)
    requires DecCount(x) == DecCount(y) && ('.' in x <==> '.' in y)
    requires (c == '.') == (d == '.')
    ensures DecCount(x + [c]) == DecCount(y + [d]) && ('.' in x + [c] <==> '.' in y + [d])
  {
    DecCountAppend(x, c);
    DecCountAppend(y, d);
  }
}
