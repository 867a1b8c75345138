/** `addCommasToString`: the integer part grouped in threes from the right. */
module Commas {
  import opened Text
  import opened Config

  /** A point at an index below this leaves the text alone: 5 in Src, 4 in Dist. */
  function PointThreshold(rev: Revision): nat
  {
    match rev
    case Src => 5
    case Dist => 4
  }

  /** The text of a whole number with a comma between groups of three, counted from the right. */
  function Grouped(t: string): string
    decreases |t|
  {
    if |t| <= 3 then t else Grouped(t[..|t| - 3]) + "," + t[|t| - 3..]
  }

  /** `s.split(".")[0]`: the text before the first point. */
  function BeforePoint(s: string): string
  {
    if '.' in s then s[..IndexOf(s, '.')] else s
  }

  /** `s.split(".")[1]`: the text between the first and the second point; empty without a point. */
  function AfterPoint(s: string): string
  {
    if '.' in s then BeforePoint(s[IndexOf(s, '.') + 1..]) else ""
  }

  /** The text is returned as it is: an early point, or no point and fewer than four characters. */
  predicate LeftAlone(s: string, rev: Revision)
  {
    var d := IndexOf(s, '.');
    (d != -1 && d < PointThreshold(rev)) || (d == -1 && |s| < 4)
  }

  /** What `addCommasToString` returns: the fraction is re-attached only when it is not empty. */
  function WithCommas(s: string, rev: Revision): string
  {
    if LeftAlone(s, rev) then s
    else Grouped(BeforePoint(s)) + (if AfterPoint(s) != "" then "." + AfterPoint(s) else "")
  }

  /**
    * The loop of `addCommasToString`: it walks the integer part from the
    * right, unshifting one character per step (the first step unshifts
    * `beforeDecimalArray[length]`, which is undefined and joins as nothing)
    * and a comma after every third character except the last.
    */
  method AddCommasToString(input: string, rev: Revision) returns (r: string)
    ensures r == WithCommas(input, rev)
  {
    var indexOfDecimal := IndexOf(input, '.');
    if indexOfDecimal != -1 && indexOfDecimal < PointThreshold(rev) {
      return input;
    }
    if indexOfDecimal == -1 && |input| < 4 {
      return input;
    }
    var beforeDecimal, afterDecimal := BeforePoint(input), AfterPoint(input);
    var n := |beforeDecimal|;
    // The first pass unshifts `beforeDecimalArray[n]`, which is undefined and joins as nothing.
    var output: seq<string> := [""];
    JoinOne("");
    assert GroupedSuffix(beforeDecimal, 0) == "" by {
      assert beforeDecimal[n..] == "";
    }
    var i := 1;
    while i <= n
      invariant 1 <= i <= n + 1
      invariant Join(output) == GroupedSuffix(beforeDecimal, i - 1)
    {
      PushGroupedDigit(beforeDecimal, i, output);
      output := [[beforeDecimal[n - i]]] + output;
      if i != n && i % 3 == 0 {
        output := [","] + output;
      }
      i := i + 1;
    }
    assert Join(output) == Grouped(beforeDecimal) by {
      assert beforeDecimal[0..] == beforeDecimal;
      assert Mark(false) + Grouped(beforeDecimal) == Grouped(beforeDecimal);
    }
    assert !LeftAlone(input, rev);
    r := Join(output) + (if afterDecimal != "" then "." + afterDecimal else "");
  }

  /** The last `k` characters of `t` grouped, with the comma that separates them from the rest, if any. */
  function GroupedSuffix(t: string, k: nat): string
    requires k <= |t|
  {
    Mark(0 < k < |t| && k % 3 == 0) + Grouped(t[|t| - k..])
  }

  /** A comma where one is due, else nothing. */
  function Mark(due: bool): string
  {
    if due then "," else ""
  }

  lemma GroupedSuffixStep(t: string, i: nat)
    requires 1 <= i <= |t|
    ensures GroupedSuffix(t, i) == Mark(i < |t| && i % 3 == 0) + ([t[|t| - i]] + GroupedSuffix(t, i - 1))
  {
    var n := |t|;
    var c, u := t[n - i], t[n - i + 1..];
    assert t[n - i..] == [c] + u;
    assert t[n - (i - 1)..] == u;
    GroupedConsAssoc(c, u);
  }

  lemma GroupedConsAssoc(c: char, u: string)
    ensures Grouped([c] + u) == [c] + (Mark(|u| > 0 && |u| % 3 == 0) + Grouped(u))
  {
    GroupedCons(c, u);
    assert FullGroups(|u|) == (|u| > 0 && |u| % 3 == 0);
  }

  /** `n` characters make whole groups of three, at least one. */
  predicate FullGroups(n: nat) { n > 0 && n % 3 == 0 }

  /** One pass of the loop: unshift the next digit from the right, then a comma if a group is full. */
  lemma PushGroupedDigit(t: string, i: nat, output: seq<string>)
    requires 1 <= i <= |t| && Join(output) == GroupedSuffix(t, i - 1)
    ensures var pushed := [[t[|t| - i]]] + output;
      Join(if i != |t| && i % 3 == 0 then [","] + pushed else pushed) == GroupedSuffix(t, i)
  {
    var pushed := [[t[|t| - i]]] + output;
    JoinPrepend([t[|t| - i]], output);
    GroupedSuffixStep(t, i);
    if i != |t| && i % 3 == 0 {
      JoinPrepend(",", pushed);
    } else {
      assert Mark(false) + Join(pushed) == Join(pushed);
    }
  }

  lemma JoinPrepend(x: string, cells: seq<string>)
    ensures Join([x] + cells) == x + Join(cells)
  {
    JoinAppend([x], cells);
    JoinOne(x);
  }

  /** Putting one more character in front of a whole number adds a comma exactly when a group of three was full. */
  lemma {:induction false} GroupedCons(c: char, u: string)
    ensures Grouped([c] + u) == [c] + Mark(FullGroups(|u|)) + Grouped(u)
    decreases |u|
  {
    if |u| <= 3 {
      GroupedConsShort(c, u);
    } else {
      var u', tail := u[..|u| - 3], u[|u| - 3..];
      assert u == u' + tail;
      GroupedCons(c, u');
      GroupedConsLong(c, u', tail);
    }
  }

  lemma GroupedConsShort(c: char, u: string)
    requires |u| <= 3
    ensures Grouped([c] + u) == [c] + Mark(FullGroups(|u|)) + Grouped(u)
  {
    if |u| < 3 {
      GroupedConsFew(c, u);
    } else {
      GroupedThreeMore(c, u);
    }
  }

  lemma GroupedConsFew(c: char, u: string)
    requires |u| < 3
    ensures Grouped([c] + u) == [c] + Mark(FullGroups(|u|)) + Grouped(u)
  {
    NotFull(|u|);
    GroupedFew([c] + u);
    GroupedFew(u);
    assert [c] + "" + u == [c] + u;
  }

  /** A number of at most three digits takes no comma. */
  lemma GroupedFew(t: string)
    requires |t| <= 3
    ensures Grouped(t) == t
  {
  }

  lemma NotFull(n: nat)
    requires n < 3
    ensures Mark(FullGroups(n)) == ""
  {
  }

  lemma GroupedThreeMore(c: char, u: string)
    requires |u| == 3
    ensures Grouped([c] + u) == [c] + "," + u
  {
    var t := [c] + u;
    assert t[..|t| - 3] == [c];
    assert t[|t| - 3..] == u;
  }

  /** The step of `GroupedCons` past the last group of three. */
  lemma GroupedConsLong(c: char, u': string, tail: string)
    requires |u'| > 0 && |tail| == 3
    requires Grouped([c] + u') == [c] + Mark(FullGroups(|u'|)) + Grouped(u')
    ensures Grouped([c] + (u' + tail)) == [c] + Mark(FullGroups(|u'| + 3)) + Grouped(u' + tail)
  {
    ThreeMore(|u'|);
    GroupedSnocCons(c, u', tail);
    GroupedSnoc(u', tail);
    AppendComma([c] + Mark(FullGroups(|u'|)), Grouped(u'), tail);
  }

  lemma GroupedSnocCons(c: char, u': string, tail: string)
    requires |tail| == 3
    ensures Grouped([c] + (u' + tail)) == Grouped([c] + u') + "," + tail
  {
    assert [c] + (u' + tail) == ([c] + u') + tail;
    GroupedSnoc([c] + u', tail);
  }

  lemma AppendComma(x: string, g: string, tail: string)
    ensures x + g + "," + tail == x + (g + "," + tail)
  {
  }

  lemma ThreeMore(n: nat)
    requires n > 0
    ensures FullGroups(n + 3) == FullGroups(n)
  {
  }

  /** Three more characters at the end of a number of more than three digits make one more group. */
  lemma GroupedSnoc(x: string, tail: string)
    requires |x| > 0 && |tail| == 3
    ensures Grouped(x + tail) == Grouped(x) + "," + tail
  {
    var t := x + tail;
    assert t[..|t| - 3] == x;
    assert t[|t| - 3..] == tail;
  }

  /** The text with every comma deleted. */
  function Uncomma(s: string): (r: string)
    ensures ',' !in r
  {
    if s == [] then "" else Uncomma(s[..|s| - 1]) + (if s[|s| - 1] == ',' then "" else [s[|s| - 1]])
  }

  lemma {:induction false} UncommaAppend(a: string, b: string)
    ensures Uncomma(a + b) == Uncomma(a) + Uncomma(b)
    decreases |b|
  {
    if b == [] {
      assert a + b == a;
    } else {
      assert (a + b)[..|a + b| - 1] == a + b[..|b| - 1];
      UncommaAppend(a, b[..|b| - 1]);
    }
  }

  lemma {:induction false} UncommaAbsent(s: string)
    requires ',' !in s
    ensures Uncomma(s) == s
    decreases |s|
  {
    if s != [] {
      UncommaAbsent(s[..|s| - 1]);
      assert s == s[..|s| - 1] + [s[|s| - 1]];
    }
  }

  /** Deleting the commas from a grouped number gives the number back. */
  lemma {:induction false} UngroupGrouped(t: string)
    requires ',' !in t
    ensures Uncomma(Grouped(t)) == t
    decreases |t|
  {
    if |t| <= 3 {
      UncommaAbsent(t);
    } else {
      var head, tail := t[..|t| - 3], t[|t| - 3..];
      var gh := Grouped(head);
      assert Grouped(t) == gh + "," + tail;
      assert head + tail == t;
      assert ',' !in head && ',' !in tail;
      UngroupGrouped(head);
      UncommaJoined(gh, tail);
    }
  }

  /** Deleting the commas around a comma-joined group. */
  lemma UncommaJoined(g: string, tail: string)
    requires ',' !in tail
    ensures Uncomma(g + "," + tail) == Uncomma(g) + tail
  {
    UncommaAppend(g + ",", tail);
    UncommaAppend(g, ",");
    UncommaAbsent(tail);
    UncommaOne();
  }

  lemma UncommaOne()
    ensures Uncomma(",") == ""
  {
    assert ","[..0] == "";
  }

  /** A grouped number of `n` digits has one comma per full group of three after the first digit. */
  lemma {:induction false} GroupedLength(t: string)
    ensures |t| > 0 ==> |Grouped(t)| == |t| + (|t| - 1) / 3
    ensures |t| == 0 ==> Grouped(t) == ""
    decreases |t|
  {
    if |t| > 3 {
      GroupedLength(t[..|t| - 3]);
    }
  }

  /** A grouped number never starts with a comma: its length is never a multiple of four. */
  lemma GroupedLengthMod(t: string)
    requires |t| > 0
    ensures |Grouped(t)| % 4 != 0
  {
    GroupedLength(t);
    var a, r := (|t| - 1) / 3, (|t| - 1) % 3;
    assert |t| == 3 * a + r + 1;
    assert |Grouped(t)| == 4 * a + r + 1;
  }

  /** Where the commas of a grouped number stand: at the positions a multiple of four from the end. */
  lemma {:induction false} GroupedCommaPlaces(t: string)
    requires ',' !in t
    ensures forall q :: 0 <= q < |Grouped(t)| ==> (Grouped(t)[q] == ',' <==> (|Grouped(t)| - q) % 4 == 0)
    decreases |t|
  {
    var g := Grouped(t);
    if |t| <= 3 {
      forall q | 0 <= q < |g| ensures g[q] != ',' && (|g| - q) % 4 != 0 {
        assert g[q] == t[q];
      }
    } else {
      var head, tail := t[..|t| - 3], t[|t| - 3..];
      var g' := Grouped(head);
      GroupedCommaPlaces(head);
      assert g == g' + "," + tail;
      assert |g| == |g'| + 4;
      forall q | 0 <= q < |g| ensures g[q] == ',' <==> (|g| - q) % 4 == 0 {
        if q < |g'| {
          assert g[q] == g'[q];
          var x := |g'| - q;
          assert g'[q] == ',' <==> x % 4 == 0;
          assert |g| - q == x + 4;
          assert (x + 4) % 4 == x % 4;
        } else if q > |g'| {
          var j := q - |g'| - 1;
          assert g[q] == tail[j] == t[|t| - 3 + j];
          assert g[q] != ',';
          assert 0 < |g| - q < 4;
        } else {
          assert g[q] == ',';
          assert |g| - q == 4;
        }
      }
    }
  }

  /** The first comma of a grouped number is never at its start. */
  lemma GroupedNotFirst(t: string)
    requires ',' !in t && |t| > 0
    ensures Grouped(t)[0] != ','
  {
    GroupedLength(t);
    GroupedLengthMod(t);
    GroupedCommaPlaces(t);
  }

  /**
    * `addCommasToString` only adds commas: deleting them gives the input
    * back whenever the input has no point or a non-empty fraction, and at most
    * one point.
    */
  lemma CommasOnlyAdded(s: string, rev: Revision)
    requires ',' !in s && CountOf(s, '.') <= 1
    requires '.' in s ==> IndexOf(s, '.') < |s| - 1
    ensures Uncomma(WithCommas(s, rev)) == s
  {
    if !LeftAlone(s, rev) {
      var before := BeforePoint(s);
      var g := Grouped(before);
      CommaFreeBefore(s);
      UngroupGrouped(before);
      if '.' in s {
        var rest := OnlyPoint(s);
        assert AfterPoint(s) == rest;
        assert WithCommas(s, rev) == g + ("." + rest);
        assert ',' !in rest;
        UncommaFraction(g, before, rest);
      } else {
        assert WithCommas(s, rev) == g + "";
        assert g + "" == g;
      }
    } else {
      UncommaAbsent(s);
    }
  }

  /** The integer part of comma-free text is comma-free. */
  lemma CommaFreeBefore(s: string)
    requires ',' !in s
    ensures ',' !in BeforePoint(s)
  {
    if '.' in s {
      var before := BeforePoint(s);
      assert forall q :: 0 <= q < |before| ==> before[q] == s[q];
    }
  }

  lemma UncommaFraction(g: string, before: string, rest: string)
    requires Uncomma(g) == before && ',' !in rest
    ensures Uncomma(g + ("." + rest)) == before + "." + rest
  {
    UncommaAppend(g, "." + rest);
    UncommaAbsent("." + rest);
  }

  /** Text with exactly one point splits around it into a point-free head and tail. */
  lemma OnlyPoint(s: string) returns (rest: string)
    requires '.' in s && CountOf(s, '.') <= 1
    ensures rest == s[IndexOf(s, '.') + 1..] && '.' !in rest
    ensures s == BeforePoint(s) + "." + rest
  {
    var d := IndexOf(s, '.');
    rest := s[d + 1..];
    assert s == s[..d] + "." + rest;
    CountOfAppend(s[..d] + ".", rest, '.');
    CountOfAppend(s[..d], ".", '.');
    CountOfAbsent(s[..d], '.');
    assert CountOf(".", '.') == 1 by { assert "."[..0] == ""; }
    CountOfAbsent(rest, '.');
  }

  /**
    * A grouped result holds commas only in its integer part, at the
    * positions a multiple of four before the point (or the end), and never first.
    */
  lemma CommasOnlyInIntegerPart(s: string, rev: Revision)
    requires ',' !in s && !LeftAlone(s, rev)
    ensures var r, g := WithCommas(s, rev), Grouped(BeforePoint(s)); g <= r
    ensures var r, g := WithCommas(s, rev), Grouped(BeforePoint(s)); forall q :: |g| <= q < |r| ==> r[q] != ','
    ensures var r, g := WithCommas(s, rev), Grouped(BeforePoint(s)); forall q :: 0 <= q < |g| ==> (r[q] == ',' <==> (|g| - q) % 4 == 0)
    ensures var r := WithCommas(s, rev); |r| > 0 ==> r[0] != ','
  {
    var before := BeforePoint(s);
    var g := Grouped(before);
    var r := WithCommas(s, rev);
    CommaFreeBefore(s);
    GroupedCommaPlaces(before);
    var after := AfterPoint(s);
    if after != "" {
      var d := IndexOf(s, '.');
      assert forall q :: 0 <= q < |after| ==> after[q] == s[d + 1 + q];
      assert r == g + "." + after;
      forall q | |g| <= q < |r| ensures r[q] != ',' {
        if q > |g| {
          assert r[q] == after[q - |g| - 1];
        }
      }
    } else {
      assert r == g;
    }
    assert |before| > 0;
    GroupedNotFirst(before);
  }

  /** A sign counts as a digit of the integer part: "-123" (a negative three-digit result) becomes "-,123". */
  lemma SignGroupedAsDigit(rev: Revision)
    ensures WithCommas("-123", rev) == "-,123"
  {
    assert '.' !in "-123";
    assert Grouped("-123") == "-,123" by { assert "-123"[..1] == "-" && "-123"[1..] == "123"; }
  }

  /** The thresholds differ: "1234.5" is left alone in Src and grouped as "1,234.5" in Dist. */
  lemma ThresholdsDiffer()
    ensures WithCommas("1234.5", Src) == "1234.5"
    ensures WithCommas("1234.5", Dist) == "1,234.5"
  {
    Parts1234();
    assert Grouped("1234") == "1,234" by { assert "1234"[..1] == "1" && "1234"[1..] == "234"; }
  }

  /**
    * `split(".")` keeps only the text between the first two points: a second
    * point (Src pushes one at zero token decimals when the input already has
    * one) cuts off everything from it on, and the text is grouped as if it
    * ended there.
    */
  lemma SecondPointCuts(x: string, y: string, z: string, rev: Revision)
    requires '.' !in x && '.' !in y
    ensures LeftAlone(x + "." + y + "." + z, rev) == LeftAlone(x + "." + y, rev)
    ensures !LeftAlone(x + "." + y, rev) ==> WithCommas(x + "." + y + "." + z, rev) == WithCommas(x + "." + y, rev)
  {
    var w := y + "." + z;
    assert x + "." + y + "." + z == x + "." + w;
    PointSplit(x, w);
    PointSplit(x, y);
    PointSplit(y, z);
  }

  /** The first point of `x.w`, when `x` has none, is at `|x|`: `x` before it and `w` after it. */
  lemma PointSplit(x: string, w: string)
    requires '.' !in x
    ensures IndexOf(x + "." + w, '.') == |x|
    ensures BeforePoint(x + "." + w) == x
    ensures (x + "." + w)[|x| + 1..] == w
  {
    var s := x + "." + w;
    assert s[..|x|] == x;
    assert s[|x|] == '.';
    IndexOfAt(s, '.', |x|);
  }

  lemma Parts1234()
    ensures BeforePoint("1234.5") == "1234"
    ensures AfterPoint("1234.5") == "5"
  {
    var s := "1234.5";
    assert IndexOf(s, '.') == 4;
    assert s[5..] == "5" && IndexOf("5", '.') == -1;
  }
}
