/** `toSymbolNotation` and its `symbols` table: k, M and B for long whole numbers. */
module Symbols {
  import opened Text

  /** One row of the `symbols` table: split off `n` characters, then append `symbol`. */
  datatype Symbol = Symbol(n: nat, symbol: string)

  /** The `symbols` table, largest first. */
  const SymbolTable: seq<Symbol> := [Symbol(9, "B"), Symbol(6, "M"), Symbol(3, "k")]

  /** A character the reverse scan drops while it has seen nothing else. */
  predicate Droppable(c: char) { c == '0' || c == '.' }

  /** The length of `s` without its trailing run of zeros and points. */
  function KeptLength(s: string): (k: nat)
    ensures k <= |s|
    ensures k > 0 ==> !Droppable(s[k - 1])
    ensures forall q :: k <= q < |s| ==> Droppable(s[q])
  {
    if s == [] then 0
    else if Droppable(s[|s| - 1]) then KeptLength(s[..|s| - 1])
    else |s|
  }

  /** The first row at or after `from` whose `n` is below `len`, or the table size if none is. */
  function FirstFit(len: nat, from: nat): (i: nat)
    requires from <= |SymbolTable|
    ensures from <= i <= |SymbolTable|
    ensures i < |SymbolTable| ==> len > SymbolTable[i].n
    ensures forall q :: from <= q < i ==> len <= SymbolTable[q].n
    decreases |SymbolTable| - from
  {
    if from == |SymbolTable| then from
    else if len > SymbolTable[from].n then from
    else FirstFit(len, from + 1)
  }

  /** What `toSymbolNotation` returns. */
  function SymbolNotation(s: string): string
  {
    if '.' in s || |s| <= 3 then s
    else
      var i := FirstFit(|s|, 0);
      if i == |SymbolTable| then s
      else
        var t := SplitAt(s, SymbolTable[i].n);
        t[..KeptLength(t)] + SymbolTable[i].symbol
  }

  /**
    * `toSymbolNotation`: the first row that fits splices in a point, a
    * reverse scan keeps everything from the last character that is neither
    * a zero nor a point, and the symbol is appended.
    */
  method ToSymbolNotation(input: string) returns (r: string)
    ensures r == SymbolNotation(input)
  {
    var indexOfDecimal := IndexOf(input, '.');
    if indexOfDecimal != -1 || |input| <= 3 {
      return input;
    }
    var i := 0;
    while i < |SymbolTable|
      invariant 0 <= i <= |SymbolTable|
      invariant FirstFit(|input|, 0) == FirstFit(|input|, i)
    {
      var entry := SymbolTable[i];
      if |input| <= entry.n {
        i := i + 1;
        continue;
      }
      var inputArray := SplitAt(input, entry.n);
      var onlyZerosSoFar := true;
      var outArray: string := [];
      var j := |inputArray| - 1;
      while j >= 0
        invariant -1 <= j < |inputArray|
        invariant onlyZerosSoFar <==> j + 1 >= KeptLength(inputArray)
        invariant outArray == if onlyZerosSoFar then [] else inputArray[j + 1..KeptLength(inputArray)]
      {
        var c := inputArray[j];
        if onlyZerosSoFar && (c == '0' || c == '.') {
          j := j - 1;
          continue;
        }
        onlyZerosSoFar := false;
        outArray := [c] + outArray;
        j := j - 1;
      }
      assert outArray == inputArray[..KeptLength(inputArray)];
      return outArray + entry.symbol;
    }
    return input;
  }

  /** Which row is used: B above nine characters, M above six, k above three. */
  lemma SymbolChoice(len: nat)
    requires len > 3
    ensures var i := FirstFit(len, 0);
      && i < |SymbolTable|
      && (len > 9 ==> i == 0)
      && (6 < len <= 9 ==> i == 1)
      && (3 < len <= 6 ==> i == 2)
  {
  }

  lemma {:induction false} ValueOfDroppable(s: string)
    requires forall q :: 0 <= q < |s| ==> Droppable(s[q])
    ensures IsDigitText(s) && Value(s) == 0
    decreases |s|
  {
    if s != [] {
      ValueOfDroppable(s[..|s| - 1]);
    }
  }

  /** Splicing the point into a whole number keeps its digit value and puts the point `n` from the end. */
  lemma SplitValue(s: string, n: nat)
    requires IsDigitText(s) && '.' !in s && n <= |s|
    ensures var t := SplitAt(s, n);
      && IsDigitText(t) && Value(t) == Value(s)
      && t[|s| - n] == '.' && '.' !in t[..|s| - n]
  {
    SplitAtPoint(s, n);
    assert '.' !in s[..|s| - n];
  }

  /** Dropping a trailing run of zeros and points divides the digit value by a power of ten. */
  lemma KeptValue(t: string)
    requires IsDigitText(t)
    ensures var k := KeptLength(t);
      IsDigitText(t[..k]) && IsDigitText(t[k..]) && Shifted(Value(t[..k]), NonPointCount(t[k..])) == Value(t)
  {
    var k := KeptLength(t);
    assert t == t[..k] + t[k..];
    ValueOfDroppable(t[k..]);
    ValueAppend(t[..k], t[k..]);
  }

  /**
    * What the symbol form of a whole number means: the kept text is the
    * number with only zeros and the spliced point dropped from its end, so
    * its digits times a power of ten give the number back, and it holds the
    * point `n` places from the number's end when anything after it survives.
    */
  lemma SymbolNotationValue(s: string)
    requires IsDigitText(s) && '.' !in s && |s| > 3
    ensures var i := FirstFit(|s|, 0); var n := SymbolTable[i].n;
      var t := SplitAt(s, n); var k := KeptLength(t); var body := t[..k];
      && SymbolNotation(s) == body + SymbolTable[i].symbol
      && IsDigitText(body) && IsDigitText(t[k..])
      && Shifted(Value(body), NonPointCount(t[k..])) == Value(s)
      && (k > |s| - n ==> body[|s| - n] == '.' && '.' !in body[..|s| - n])
      && (k <= |s| - n ==> '.' !in body)
  {
    SymbolChoice(|s|);
    var i := FirstFit(|s|, 0);
    var n := SymbolTable[i].n;
    var t := SplitAt(s, n);
    var k := KeptLength(t);
    SplitValue(s, n);
    KeptValue(t);
    var body := t[..k];
    assert SymbolNotation(s) == body + SymbolTable[i].symbol;
    PrefixPoint(t, |s| - n, k);
  }

  /** A prefix of `t` holds `t`'s first point exactly when it reaches past it. */
  lemma PrefixPoint(t: string, m: nat, k: nat)
    requires m < |t| && k <= |t| && t[m] == '.' && '.' !in t[..m]
    ensures k > m ==> t[..k][m] == '.' && '.' !in t[..k][..m]
    ensures k <= m ==> '.' !in t[..k]
  {
    if k > m {
      assert t[..k][..m] == t[..m];
    } else {
      assert t[..k] == t[..m][..k];
    }
  }

  /** The trailing zeros left of the spliced point are dropped too: "20000" becomes "2k". */
  lemma DropsZerosBeforeSplit()
    ensures SymbolNotation("20000") == "2k"
  {
    assert SplitAt("20000", 3) == "20.000";
    assert KeptLength("2") == 1;
    assert KeptLength("20") == 1 by { assert "20"[..1] == "2"; }
    assert KeptLength("20.") == 1 by { assert "20."[..2] == "20"; }
    assert KeptLength("20.0") == 1 by { assert "20.0"[..3] == "20."; }
    assert KeptLength("20.00") == 1 by { assert "20.00"[..4] == "20.0"; }
    assert KeptLength("20.000") == 1 by { assert "20.000"[..5] == "20.00"; }
  }

  /** A sign counts as a character: "-123" (a negative three-digit result) becomes "-.123k". */
  lemma SignCountsAsDigit()
    ensures SymbolNotation("-123") == "-.123k"
  {
    assert SplitAt("-123", 3) == "-.123";
    assert KeptLength("-.123") == 5;
  }
}
