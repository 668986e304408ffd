/** The output side: formatValue builds one line of output, genRange converts every value
    of an inclusive range. The lemmas here read the lines back. */
module Output {
  import opened Numerals
  import opened Decimal
  import opened Decode
  import opened Encode
  import opened Classify

  /** formatValue, with the simpleOutF and addF flags as parameters. */
  function FormatValue(arVal: int, romVal: string, outType: NumType, simple: bool, additive: bool): (line: string)
    ensures outType == Roman && simple ==> line == romVal
    ensures outType == Roman && !simple ==>
      line == FormatInt(arVal) + " = " + romVal + (if additive then "\t (add)" else "")
    ensures outType == Arabic && simple ==> line == FormatInt(arVal)
    ensures outType == Arabic && !simple ==> line == romVal + " = " + FormatInt(arVal)
    ensures outType == UnDef ==> line == "NA"
  {
    match outType
    case Roman =>
      if simple then romVal
      else
        var line := FormatInt(arVal) + " = " + romVal;
        if additive then line + "\t (add)" else line
    case Arabic =>
      if simple then FormatInt(arVal) else romVal + " = " + FormatInt(arVal)
    case UnDef => "NA"
  }

  /** genRange, with the startF, endF, addF and simpleOutF flags as parameters: one line
      per value from start to end inclusive, in ascending order. */
  method GenRange(start: int, end: int, simple: bool, additive: bool) returns (outVals: seq<string>)
    requires start <= end ==> end < 0x1_0000
    ensures |outVals| == if start <= end then end - start + 1 else 0
    ensures forall j :: 0 <= j < |outVals| ==>
      outVals[j] == FormatValue(start + j, RomanOf(start + j, additive), Roman, simple, additive)
    ensures simple ==> forall j :: 0 <= j < |outVals| && 0 < start + j ==> Decoded(outVals[j]) == Ok(start + j)
  {
    outVals := [];
    var i := start;
    while i <= end
      invariant start <= i <= if start <= end then end + 1 else start
      invariant |outVals| == i - start
      invariant forall j :: 0 <= j < |outVals| ==>
        outVals[j] == FormatValue(start + j, RomanOf(start + j, additive), Roman, simple, additive)
    {
      var r := ArabicToRoman(i, additive);
      var appendStr := FormatValue(i, r, Roman, simple, additive);
      outVals := outVals + [appendStr];
      i := i + 1;
    }
    if simple {
      SimpleLinesDecode(outVals, start, additive);
    }
  }

  /** Simple-mode lines for consecutive values from start each decode to their value. */
  lemma SimpleLinesDecode(lines: seq<string>, start: int, additive: bool)
    requires lines == [] || start + |lines| <= 0x1_0000
    requires forall j :: 0 <= j < |lines| ==>
      lines[j] == FormatValue(start + j, RomanOf(start + j, additive), Roman, true, additive)
    ensures forall j :: 0 <= j < |lines| && 0 < start + j ==> Decoded(lines[j]) == Ok(start + j)
  {
    forall j | 0 <= j < |lines| && 0 < start + j
      ensures Decoded(lines[j]) == Ok(start + j)
    {
      EncodeThenDecode(start + j, additive);
    }
  }

  /** The characters that separate fields of an output line. */
  predicate IsSpace(c: char)
  {
    c == ' ' || c == '\t'
  }

  predicate NoSpace(s: string)
  {
    forall i :: 0 <= i < |s| ==> !IsSpace(s[i])
  }

  /** The longest prefix of s without a space or a tab. */
  function Word(s: string): (w: string)
    ensures |w| <= |s|
    ensures s != [] && !IsSpace(s[0]) ==> w != []
  {
    if s == [] || IsSpace(s[0]) then [] else [s[0]] + Word(s[1..])
  }

  /** The fields of s: its maximal runs of characters other than space and tab, in order. */
  function Words(s: string): seq<string>
    decreases |s|
  {
    if s == [] then []
    else if IsSpace(s[0]) then Words(s[1..])
    else
      var w := Word(s);
      [w] + Words(s[|w|..])
  }

  /** A field ends where a space or tab, or the end of the line, follows it. */
  lemma {:induction false} WordOf(a: string, t: string)
    requires a != [] && NoSpace(a) && (t == [] || IsSpace(t[0]))
    ensures Word(a + t) == a
    decreases |a|
  {
    assert (a + t)[1..] == a[1..] + t;
    if |a| > 1 {
      WordOf(a[1..], t);
    }
  }

  /** Reading the fields of a field followed by a separator or nothing. */
  lemma WordsAfter(a: string, t: string)
    requires a != [] && NoSpace(a) && (t == [] || IsSpace(t[0]))
    ensures Words(a + t) == [a] + Words(t)
  {
    WordOf(a, t);
    assert (a + t)[|a|..] == t;
  }

  /** A leading separator is skipped. */
  lemma WordsSkip(c: char, t: string)
    requires IsSpace(c)
    ensures Words([c] + t) == Words(t)
  {
    assert ([c] + t)[1..] == t;
  }

  /** Reading the fields of a separator, a field b and a tail that starts with a
      separator or is empty. */
  lemma WordsSpaced(sp: char, b: string, t: string)
    requires IsSpace(sp)
    requires b != [] && NoSpace(b) && (t == [] || IsSpace(t[0]))
    ensures Words([sp] + (b + t)) == [b] + Words(t)
  {
    WordsSkip(sp, b + t);
    WordsAfter(b, t);
  }

  /** Reading the fields of a one-character field, a separator, a field b and a tail that
      starts with a separator or is empty. */
  lemma WordsMarked(eq: char, sp: char, b: string, t: string)
    requires IsSpace(sp) && !IsSpace(eq)
    requires b != [] && NoSpace(b) && (t == [] || IsSpace(t[0]))
    ensures Words([eq] + ([sp] + (b + t))) == [[eq], b] + Words(t)
  {
    var u := [sp] + (b + t);
    assert Words(u) == [b] + Words(t) by {
      WordsSpaced(sp, b, t);
    }
    assert Words([eq] + u) == [[eq]] + Words(u) by {
      WordsAfter([eq], u);
    }
    ConsFields([eq], [b], Words(t));
  }

  /** Reading the fields of a separator, a one-character field, a separator, b and a tail
      that starts with a separator or is empty. */
  lemma WordsSeparated(sp: char, eq: char, b: string, t: string)
    requires IsSpace(sp) && !IsSpace(eq)
    requires b != [] && NoSpace(b) && (t == [] || IsSpace(t[0]))
    ensures Words([sp, eq, sp] + b + t) == [[eq], b] + Words(t)
  {
    SplitSeparator(sp, eq, b, t);
    WordsSkip(sp, [eq] + ([sp] + (b + t)));
    WordsMarked(eq, sp, b, t);
  }

  /** Taking a three-character separator apart. */
  lemma SplitSeparator(sp: char, eq: char, b: string, t: string)
    ensures [sp, eq, sp] + b + t == [sp] + ([eq] + ([sp] + (b + t)))
  {
  }

  /** Regrouping a concatenation of four strings. */
  lemma Regroup(f: string, e: string, r: string, t: string)
    ensures f + e + r + t == f + (e + r + t)
  {
  }

  /** Regrouping fields read one after another. */
  lemma ConsFields(a: string, b: seq<string>, w: seq<string>)
    ensures [a] + (b + w) == [a] + b + w
  {
  }

  /** A decimal spelling holds no separator. */
  lemma FormatIntNoSpace(n: int)
    requires 0 <= n
    ensures FormatInt(n) != [] && NoSpace(FormatInt(n))
  {
    var s := FormatInt(n);
    forall i | 0 <= i < |s| ensures !IsSpace(s[i]) {
      assert IsDigit(s[i]);
    }
  }

  /** The spelling of a positive amount is a non-empty run of Roman letters, so it is
      classified as Roman and holds no separator. */
  lemma RomanOfLetters(n: int, additive: bool)
    requires 0 < n < 0x1_0000
    ensures RomanPattern(RomanOf(n, additive))
    ensures WhichNumeralType(RomanOf(n, additive)) == Roman
    ensures NoSpace(RomanOf(n, additive))
  {
    var s := RomanOf(n, additive);
    EncodeThenDecode(n, additive);
    DecodesIffRomanChars(s);
    assert Decoded("") == Ok(0);
    forall i | 0 <= i < |s| ensures !IsSpace(s[i]) {
      assert IsRomanChar(s[i]);
    }
  }

  /** The fields of a field f, a one-character field between separators, a field r, and
      a tail that starts with a separator or is empty. */
  lemma WordsOfTriple(f: string, sp: char, eq: char, r: string, t: string)
    requires IsSpace(sp) && !IsSpace(eq)
    requires f != [] && NoSpace(f) && r != [] && NoSpace(r) && (t == [] || IsSpace(t[0]))
    ensures Words(f + [sp, eq, sp] + r + t) == [f, [eq], r] + Words(t)
  {
    var e := [sp, eq, sp];
    assert Words(e + r + t) == [[eq], r] + Words(t) by {
      WordsSeparated(sp, eq, r, t);
    }
    assert Words(f + e + r + t) == [f] + Words(e + r + t) by {
      Regroup(f, e, r, t);
      assert (e + r + t)[0] == sp;
      WordsAfter(f, e + r + t);
    }
    ConsFields(f, [[eq], r], Words(t));
  }

  /** The fields of "f = r" followed by a separator or nothing. */
  lemma WordsOfEquation(f: string, r: string, t: string)
    requires f != [] && NoSpace(f) && r != [] && NoSpace(r) && (t == [] || IsSpace(t[0]))
    ensures Words(f + " = " + r + t) == [f, "=", r] + Words(t)
  {
    WordsOfTriple(f, ' ', '=', r, t);
  }

  /** The additive marker is one field. */
  lemma AddMarkWords()
    ensures Words("\t (add)") == ["(add)"]
  {
    WordsAfter("(add)", "");
    assert "(add)" + "" == "(add)";
    assert " (add)"[1..] == "(add)";
    assert Words(" (add)") == ["(add)"];
    assert "\t (add)"[1..] == " (add)";
  }

  /** The fields of a verbose line of Roman output. */
  lemma RomanVerboseWords(n: int, r: string, additive: bool)
    requires 0 <= n && r != [] && NoSpace(r)
    ensures Words(FormatValue(n, r, Roman, false, additive)) ==
      [FormatInt(n), "=", r] + (if additive then ["(add)"] else [])
  {
    FormatIntNoSpace(n);
    if additive {
      WordsOfEquation(FormatInt(n), r, "\t (add)");
      AddMarkWords();
    } else {
      WordsOfEquation(FormatInt(n), r, "");
      assert FormatInt(n) + " = " + r + "" == FormatInt(n) + " = " + r;
    }
  }

  /** A line of Roman output reads back: in simple mode it is a Roman numeral for n; in
      verbose mode its fields are n in decimal, "=", the numeral, and "(add)" exactly when
      additive mode is on. */
  lemma RomanLineReadsBack(n: int, simple: bool, additive: bool)
    requires 1 <= n <= 4000
    ensures simple ==>
      var line := FormatValue(n, RomanOf(n, additive), Roman, simple, additive);
      WhichNumeralType(line) == Roman && Decoded(line) == Ok(n)
    ensures !simple ==>
      var line := FormatValue(n, RomanOf(n, additive), Roman, simple, additive);
      && Words(line) == [FormatInt(n), "=", RomanOf(n, additive)] + (if additive then ["(add)"] else [])
      && MakeInt64(Words(line)[0]) == Ok(n)
      && Decoded(Words(line)[2]) == Ok(n)
  {
    if simple {
      RomanSimpleLine(n, additive);
    } else {
      RomanVerboseLine(n, additive);
    }
  }

  /** A simple line of Roman output is the numeral itself. */
  lemma RomanSimpleLine(n: int, additive: bool)
    requires 1 <= n <= 4000
    ensures var line := FormatValue(n, RomanOf(n, additive), Roman, true, additive);
      WhichNumeralType(line) == Roman && Decoded(line) == Ok(n)
  {
    RomanOfLetters(n, additive);
    EncodeThenDecode(n, additive);
  }

  /** A verbose line of Roman output: n in decimal, "=", the numeral, and the marker. */
  lemma RomanVerboseLine(n: int, additive: bool)
    requires 1 <= n <= 4000
    ensures var line := FormatValue(n, RomanOf(n, additive), Roman, false, additive);
      && Words(line) == [FormatInt(n), "=", RomanOf(n, additive)] + (if additive then ["(add)"] else [])
      && MakeInt64(Words(line)[0]) == Ok(n)
      && Decoded(Words(line)[2]) == Ok(n)
  {
    RomanOfLetters(n, additive);
    EncodeThenDecode(n, additive);
    FormattedConverts(n);
    RomanVerboseWords(n, RomanOf(n, additive), additive);
  }

  /** A line of Arabic output reads back: in simple mode it is the decoded value in
      decimal; in verbose mode its fields are the numeral, "=", and that value. */
  lemma ArabicLineReadsBack(s: string, simple: bool, additive: bool)
    requires WhichNumeralType(s) == Roman
    requires Decoded(s).Ok? && Decoded(s).value <= Int64Max
    ensures var v := Decoded(s).value;
      var line := FormatValue(v, s, Arabic, simple, additive);
      if simple then ParseInt64(line) == Some(v)
      else Words(line) == [s, "=", FormatInt(v)] && ParseInt64(Words(line)[2]) == Some(v)
  {
    var v := Decoded(s).value;
    ParseFormatted(v);
    if !simple {
      FormatIntNoSpace(v);
      forall i | 0 <= i < |s| ensures !IsSpace(s[i]) {
        assert IsRomanChar(s[i]);
      }
      WordsOfEquation(s, FormatInt(v), "");
      assert s + " = " + FormatInt(v) + "" == s + " = " + FormatInt(v);
    }
  }
}
