/** The sample invocations of the usage text and the range limits stated at the top of
    the program, as facts about the model. */
module Usage {
  import opened Numerals
  import opened Decimal
  import opened Decode
  import opened Encode
  import opened Classify
  import opened Output
  import opened Notation

  // The standard numerals of the sample amounts, evaluated on their own so that each
  // sample below needs only one step from the closed form.

  lemma Standard1965()
    ensures Standard(1965, false) == "MCMLXV"
  {
  }

  lemma Standard1965Additive()
    ensures Standard(1965, true) == "MDCCCCLXV"
  {
  }

  lemma StandardOne()
    ensures Standard(1, false) == "I" && Standard(1, true) == "I"
  {
  }

  lemma Standard4000()
    ensures Standard(4000, false) == "MMMM" && Standard(4000, true) == "MMMM"
  {
  }

  lemma StandardFour()
    ensures Standard(4, false) == "IV" && Standard(4, true) == "IIII"
  {
  }

  lemma StandardRange()
    ensures Standard(100, false) == "C" && Standard(101, false) == "CI" && Standard(102, false) == "CII"
  {
  }

  /** 1965 in subtractive notation. */
  lemma Subtractive1965()
    ensures RomanOf(1965, false) == "MCMLXV"
  {
    Standard1965();
    RomanOfIsStandard(1965, false);
  }

  /** 1965 in additive notation. */
  lemma Additive1965()
    ensures RomanOf(1965, true) == "MDCCCCLXV"
  {
    Standard1965Additive();
    RomanOfIsStandard(1965, true);
  }

  /** `roman 1965` reads its argument as 1965. */
  lemma Sample1965()
    ensures WhichNumeralType("1965") == Arabic && MakeInt64("1965") == Ok(1965)
  {
    assert FormatInt(1965) == "1965";
    FormattedConverts(1965);
  }

  /** ... and prints "1965 = MCMLXV". */
  lemma Sample1965Line()
    ensures FormatValue(1965, RomanOf(1965, false), Roman, false, false) == "1965 = MCMLXV"
  {
    Subtractive1965();
    Line1965();
  }

  /** `roman MCMLXV` reads its argument as 1965 ... */
  lemma SampleMCMLXV()
    ensures WhichNumeralType("MCMLXV") == Roman && Decoded("MCMLXV") == Ok(1965)
  {
    Subtractive1965();
    EncodeThenDecode(1965, false);
  }

  /** ... and prints "MCMLXV = 1965". */
  lemma SampleMCMLXVLine()
    ensures Decoded("MCMLXV").Ok?
    ensures FormatValue(Decoded("MCMLXV").value, "MCMLXV", Arabic, false, false) == "MCMLXV = 1965"
  {
    SampleMCMLXV();
    LineMCMLXV();
  }

  /** `roman -a=true 1965` prints "1965 = MDCCCCLXV" with the additive marker. */
  lemma Sample1965AdditiveLine()
    ensures FormatValue(1965, RomanOf(1965, true), Roman, false, true) == "1965 = MDCCCCLXV\t (add)"
  {
    Additive1965();
    Line1965Additive();
  }

  /** `roman MDCCCCLXV` reads the additive spelling back. */
  lemma SampleMDCCCCLXV()
    ensures WhichNumeralType("MDCCCCLXV") == Roman && Decoded("MDCCCCLXV") == Ok(1965)
  {
    Additive1965();
    EncodeThenDecode(1965, true);
  }

  /** The ends of the range 1..4000: 1 is "I" and 4000 is "MMMM" in either notation. */
  lemma RangeEnds()
    ensures RomanOf(1, false) == "I" && RomanOf(1, true) == "I"
    ensures RomanOf(4000, false) == "MMMM" && RomanOf(4000, true) == "MMMM"
  {
    StandardOne();
    Standard4000();
    RomanOfIsStandard(1, false);
    RomanOfIsStandard(1, true);
    RomanOfIsStandard(4000, false);
    RomanOfIsStandard(4000, true);
  }

  /** Just outside the range, makeInt64 stops with the matching error. "4001" reaches it,
      being classified Arabic; "0" is classified as neither numeral type, so the program
      stops before makeInt64 ever sees it. */
  lemma OutOfRange()
    ensures WhichNumeralType("4001") == Arabic && MakeInt64("4001") == Err(GreaterThan4000(4001))
    ensures WhichNumeralType("0") == UnDef && MakeInt64("0") == Err(LessThan1(0))
  {
    ParseDigits("4001");
    assert "4001"[..3] == "400" && "400"[..2] == "40" && "40"[..1] == "4";
    ParseDigits("0");
    assert DigitsValue("0") == 0;
    assert "0"[0] == '0' && !IsRomanChar("0"[0]);
  }

  /** 4 is "IV" in subtractive notation and "IIII" in additive notation. */
  lemma SampleFour()
    ensures RomanOf(4, false) == "IV" && RomanOf(4, true) == "IIII"
  {
    StandardFour();
    RomanOfIsStandard(4, false);
    RomanOfIsStandard(4, true);
  }

  /** The decoder is permissive: it reads the non-canonical "IIII" as 4, as it reads "IV". */
  lemma SampleIIII()
    ensures Decoded("IV") == Ok(4) && Decoded("IIII") == Ok(4)
  {
    SampleFour();
    EncodeThenDecode(4, false);
    EncodeThenDecode(4, true);
  }

  /** A character outside the seven letters makes decoding fail. */
  lemma SampleBadLetter()
    ensures Decoded("MCMZ") == Err(NotInRomanMap("MCMZ"))
    ensures WhichNumeralType("MCMZ") == UnDef
  {
    DecodesIffRomanChars("MCMZ");
    assert !IsRomanChar("MCMZ"[3]);
  }

  /** The first lines of `roman -r=true -s 100 -e 102`: the numerals. */
  lemma SampleRangeNumerals()
    ensures RomanOf(100, false) == "C" && RomanOf(101, false) == "CI" && RomanOf(102, false) == "CII"
  {
    StandardRange();
    RomanOfIsStandard(100, false);
    RomanOfIsStandard(101, false);
    RomanOfIsStandard(102, false);
  }

  /** The lines of `roman -r=true -s 100 -e 102`, as genRange builds them. */
  method SampleRange() returns (lines: seq<string>)
    ensures lines == ["100 = C", "101 = CI", "102 = CII"]
  {
    lines := GenRange(100, 102, false, false);
    RangeLinesAre(lines);
  }

  /** Three lines formatted by genRange from 100 are the sample's lines. */
  lemma RangeLinesAre(lines: seq<string>)
    requires |lines| == 3
    requires forall j :: 0 <= j < |lines| ==>
      lines[j] == FormatValue(100 + j, RomanOf(100 + j, false), Roman, false, false)
    ensures lines == ["100 = C", "101 = CI", "102 = CII"]
  {
    assert lines[0] == FormatValue(100, RomanOf(100, false), Roman, false, false);
    assert lines[1] == FormatValue(101, RomanOf(101, false), Roman, false, false);
    assert lines[2] == FormatValue(102, RomanOf(102, false), Roman, false, false);
    RangeLines();
  }

  /** The verbose lines for 100, 101 and 102. */
  lemma RangeLines()
    ensures FormatValue(100, RomanOf(100, false), Roman, false, false) == "100 = C"
    ensures FormatValue(101, RomanOf(101, false), Roman, false, false) == "101 = CI"
    ensures FormatValue(102, RomanOf(102, false), Roman, false, false) == "102 = CII"
  {
    SampleRangeNumerals();
    RangeLiterals();
  }

  // The formatted lines of the samples, with their numerals written out.

  lemma Line1965()
    ensures FormatValue(1965, "MCMLXV", Roman, false, false) == "1965 = MCMLXV"
  {
    assert FormatInt(1965) == "1965";
  }

  lemma LineMCMLXV()
    ensures FormatValue(1965, "MCMLXV", Arabic, false, false) == "MCMLXV = 1965"
  {
    assert FormatInt(1965) == "1965";
  }

  lemma Line1965Additive()
    ensures FormatValue(1965, "MDCCCCLXV", Roman, false, true) == "1965 = MDCCCCLXV\t (add)"
  {
    assert FormatInt(1965) == "1965";
  }

  lemma RangeLiterals()
    ensures FormatValue(100, "C", Roman, false, false) == "100 = C"
    ensures FormatValue(101, "CI", Roman, false, false) == "101 = CI"
    ensures FormatValue(102, "CII", Roman, false, false) == "102 = CII"
  {
    assert FormatInt(100) == "100";
    assert FormatInt(101) == "101";
    assert FormatInt(102) == "102";
  }
}
