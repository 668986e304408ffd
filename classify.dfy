/** The input checks: whichNumeralType, isValArabic and makeInt64. */
module Classify {
  import opened Numerals
  import opened Decimal
  import opened Decode

  datatype NumType = Arabic | Roman | UnDef

  /** The pattern ^[1-9]\d*$: a non-empty run of decimal digits whose first digit is not 0. */
  predicate ArabicPattern(s: string)
  {
    s != [] && s[0] != '0' && AllDigits(s)
  }

  /** The pattern ^[IVXLCDM]+$: a non-empty run of the seven Roman letters. */
  predicate RomanPattern(s: string)
  {
    s != [] && forall i :: 0 <= i < |s| ==> IsRomanChar(s[i])
  }

  /** No string matches both patterns: digits are not Roman letters. */
  lemma PatternsDisjoint(s: string)
    ensures !(ArabicPattern(s) && RomanPattern(s))
  {
    if s != [] && IsDigit(s[0]) {
      assert !IsRomanChar(s[0]);
    }
  }

  /** whichNumeralType: the Arabic pattern is tried first, then the Roman one. Since the
      patterns never overlap, each outcome holds exactly when its own pattern matches. */
  function WhichNumeralType(str: string): (t: NumType)
    ensures t == Arabic <==> ArabicPattern(str)
    ensures t == Roman <==> RomanPattern(str)
    ensures t == UnDef <==> !ArabicPattern(str) && !RomanPattern(str)
    ensures str == [] ==> t == UnDef
  {
    PatternsDisjoint(str);
    if ArabicPattern(str) then Arabic
    else if RomanPattern(str) then Roman
    else UnDef
  }

  /** isValArabic: None when num is in 1..4000, otherwise the error it reports, the
      upper bound being checked first. */
  function IsValArabic(num: int): (r: Option<Failure>)
    ensures r.None? <==> 1 <= num <= 4000
    ensures num > 4000 ==> r == Some(GreaterThan4000(num))
    ensures num < 1 ==> r == Some(LessThan1(num))
  {
    if num > 4000 then Some(GreaterThan4000(num))
    else if num < 1 then Some(LessThan1(num))
    else None
  }

  /** makeInt64: parse the text, then insist on the range 1..4000; each failure is the
      condition on which the program stops. */
  function MakeInt64(str: string): (r: Result<int>)
    ensures r.Ok? <==> ParseInt64(str).Some? && 1 <= ParseInt64(str).value <= 4000
    ensures r.Ok? ==> r.value == ParseInt64(str).value
    ensures ParseInt64(str).None? ==> r == Err(NotAnInteger(str))
  {
    match ParseInt64(str)
    case None => Err(NotAnInteger(str))
    case Some(v) =>
      match IsValArabic(v)
      case Some(f) => Err(f)
      case None => Ok(v)
  }

  /** A string classified as Arabic converts exactly when its value is at most 4000, and
      it is then the decimal spelling of that value. */
  lemma ArabicInputConverts(s: string)
    requires WhichNumeralType(s) == Arabic
    ensures MakeInt64(s).Ok? <==> DigitsValue(s) <= 4000
    ensures MakeInt64(s).Ok? ==> MakeInt64(s).value == DigitsValue(s) && FormatInt(DigitsValue(s)) == s
    ensures !MakeInt64(s).Ok? ==>
      MakeInt64(s) == if DigitsValue(s) <= Int64Max then Err(GreaterThan4000(DigitsValue(s))) else Err(NotAnInteger(s))
  {
    LeadingDigitPositive(s);
    ParseDigits(s);
    CanonicalDigits(s);
  }

  /** The decimal spelling of any number in 1..4000 is classified as Arabic and
      converts back to that number. */
  lemma FormattedConverts(n: int)
    requires 1 <= n <= 4000
    ensures WhichNumeralType(FormatInt(n)) == Arabic
    ensures MakeInt64(FormatInt(n)) == Ok(n)
  {
    DigitsNoLeadingZero(n);
    ParseFormatted(n);
  }

  /** Every string classified as Roman decodes without error. */
  lemma RomanInputDecodes(s: string)
    requires WhichNumeralType(s) == Roman
    ensures Decoded(s).Ok?
  {
    DecodesIffRomanChars(s);
  }
}
